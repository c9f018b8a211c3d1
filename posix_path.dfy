/**
 * Python's `pathlib.PurePosixPath` as the directory code uses it: `str.split('/')`,
 * the anchor, the parts, `.name` and `str(.parent)`.
 */
module PosixPath {

  /** `s.split('/')`: the text between slashes, one more segment than there are slashes. */
  function Split(s: string): (r: seq<string>)
    ensures |r| >= 1
    ensures forall i :: 0 <= i < |r| ==> '/' !in r[i]
    decreases |s|
  {
    if s == [] then [""]
    else
      var rest := Split(s[1..]);
      if s[0] == '/' then [""] + rest else [[s[0]] + rest[0]] + rest[1..]
  }

  /** The anchor of a POSIX path: exactly two leading slashes are kept, one or three or more give "/". */
  function Anchor(s: string): string {
    if |s| >= 1 && s[0] == '/' then
      (if |s| >= 2 && s[1] == '/' && !(|s| >= 3 && s[2] == '/') then "//" else "/")
    else ""
  }

  /** A part pathlib keeps: neither empty nor ".". */
  predicate IsPart(p: string) {
    p != "" && p != "." && '/' !in p
  }

  /** The segments that are parts, in order. */
  function Components(segments: seq<string>): (r: seq<string>)
    ensures forall i :: 0 <= i < |r| ==> r[i] in segments && r[i] != "" && r[i] != "."
    decreases |segments|
  {
    if segments == [] then []
    else
      (if segments[0] == "" || segments[0] == "." then [] else [segments[0]]) + Components(segments[1..])
  }

  /** The parts of a path after its anchor. */
  function Parts(s: string): (r: seq<string>)
    ensures forall i :: 0 <= i < |r| ==> IsPart(r[i])
  {
    var segments := Split(s);
    assert forall x :: x in segments ==> '/' !in x;
    Components(segments)
  }

  /** `'/'.join(parts)`. */
  function Join(parts: seq<string>): string
    decreases |parts|
  {
    if parts == [] then ""
    else if |parts| == 1 then parts[0]
    else parts[0] + "/" + Join(parts[1..])
  }

  /** `str()` of a path given by its anchor and parts; "." for the empty relative path. */
  function Format(anchor: string, parts: seq<string>): string {
    if anchor != "" then anchor + Join(parts)
    else if parts == [] then "."
    else Join(parts)
  }

  /** `PurePosixPath(s).name`: the last part, "" when there is none. */
  function Name(s: string): (r: string)
    ensures r == "" || IsPart(r)
  {
    var ps := Parts(s);
    if ps == [] then "" else ps[|ps| - 1]
  }

  /** `str(PurePosixPath(s).parent)`: the path without its last part; a path without parts is its own parent. */
  function Parent(s: string): string {
    var ps := Parts(s);
    if ps == [] then Format(Anchor(s), []) else Format(Anchor(s), ps[..|ps| - 1])
  }

  // ---- Lemmas ----

  lemma {:induction false} SplitSegment(p: string)
    requires '/' !in p
    ensures Split(p) == [p]
    decreases |p|
  {
    if p != [] {
      SplitSegment(p[1..]);
      assert [p[0]] + p[1..] == p;
    }
  }

  lemma {:induction false} SplitCons(p: string, rest: string)
    requires '/' !in p
    ensures Split(p + "/" + rest) == [p] + Split(rest)
    decreases |p|
  {
    var s := p + "/" + rest;
    if p == [] {
      assert s[1..] == rest;
    } else {
      assert s[1..] == p[1..] + "/" + rest;
      SplitCons(p[1..], rest);
      assert [p[0]] + p[1..] == p;
    }
  }

  lemma {:induction false} ComponentsAppend(a: seq<string>, b: seq<string>)
    ensures Components(a + b) == Components(a) + Components(b)
    decreases |a|
  {
    if a == [] {
      assert a + b == b;
    } else {
      assert (a + b)[1..] == a[1..] + b;
      ComponentsAppend(a[1..], b);
    }
  }

  lemma {:induction false} ComponentsOfParts(ps: seq<string>)
    requires forall i :: 0 <= i < |ps| ==> IsPart(ps[i])
    ensures Components(ps) == ps
    decreases |ps|
  {
    if ps != [] {
      ComponentsOfParts(ps[1..]);
      assert [ps[0]] + ps[1..] == ps;
    }
  }

  /** Joining parts with '/' and splitting again gives the parts back. */
  lemma {:induction false} SplitJoin(ps: seq<string>)
    requires ps != []
    requires forall i :: 0 <= i < |ps| ==> IsPart(ps[i])
    ensures Split(Join(ps)) == ps
    decreases |ps|
  {
    if |ps| == 1 {
      SplitSegment(ps[0]);
    } else {
      SplitCons(ps[0], Join(ps[1..]));
      SplitJoin(ps[1..]);
      assert [ps[0]] + ps[1..] == ps;
    }
  }

  /** The parts of joined parts are those parts. */
  lemma PartsOfJoin(ps: seq<string>)
    requires forall i :: 0 <= i < |ps| ==> IsPart(ps[i])
    ensures Parts(Join(ps)) == ps
  {
    if ps == [] {
      assert Split("") == [""];
    } else {
      SplitJoin(ps);
      ComponentsOfParts(ps);
    }
  }

  /** Leading slashes add only empty segments. */
  lemma PartsAfterSlash(x: string)
    ensures Parts("/" + x) == Parts(x)
  {
    var s := "/" + x;
    assert s[1..] == x;
    assert Split(s) == [""] + Split(x);
    ComponentsAppend([""], Split(x));
  }

  lemma PartsAfterTwoSlashes(x: string)
    ensures Parts("//" + x) == Parts(x)
  {
    assert "//" + x == "/" + ("/" + x);
    PartsAfterSlash("/" + x);
    PartsAfterSlash(x);
  }

  lemma PartsOfFormat(anchor: string, ps: seq<string>)
    requires anchor in {"", "/", "//"}
    requires forall i :: 0 <= i < |ps| ==> IsPart(ps[i])
    ensures Parts(Format(anchor, ps)) == ps
  {
    PartsOfJoin(ps);
    if anchor == "/" {
      PartsAfterSlash(Join(ps));
    } else if anchor == "//" {
      PartsAfterTwoSlashes(Join(ps));
    } else if ps == [] {
      SplitSegment(".");
    }
  }

  /** Formatting all but the last of some parts gives back exactly those parts. */
  lemma PartsOfFormatInit(anchor: string, ps: seq<string>)
    requires anchor in {"", "/", "//"} && ps != []
    requires forall i :: 0 <= i < |ps| ==> IsPart(ps[i])
    ensures Parts(Format(anchor, ps[..|ps| - 1])) == ps[..|ps| - 1]
  {
    var init := ps[..|ps| - 1];
    assert forall i :: 0 <= i < |init| ==> IsPart(init[i]) by {
      forall i | 0 <= i < |init| ensures IsPart(init[i]) { assert init[i] == ps[i]; }
    }
    PartsOfFormat(anchor, init);
  }

  /** `.parent` removes exactly the last part, and `.name` is that part. */
  lemma ParentDropsName(s: string)
    requires Parts(s) != []
    ensures Parts(Parent(s)) == Parts(s)[..|Parts(s)| - 1]
    ensures Parts(s) == Parts(Parent(s)) + [Name(s)]
  {
    var ps := Parts(s);
    PartsOfFormatInit(Anchor(s), ps);
    assert ps == ps[..|ps| - 1] + [ps[|ps| - 1]];
  }

  /** A path without parts (such as "", "/" or "//") is its own parent, "" reading as ".". */
  lemma ParentWithoutParts(s: string)
    requires Parts(s) == []
    ensures Parent(s) == (if Anchor(s) == "" then "." else Anchor(s))
    ensures Name(s) == ""
  {
  }
}
