/**
 * SQLite's core text functions as the directory column and the directory
 * listing queries use them: 1-based `substr` (including a negative length),
 * `instr`, `replace` with its empty-pattern rule, `rtrim` and the default
 * `LIKE` operator, which matches '%' and '_' and ignores ASCII case.
 */
module SqliteText {
  import opened Text

  /** SQLite's SQLITE_MAX_LENGTH, the length `substr(X, Y)` uses for its missing third argument. */
  const MaxLength: int := 1000000000

  function Max0(n: int): nat { if n < 0 then 0 else n }

  function Min(a: int, b: int): int { if a <= b then a else b }

  /** `count` characters of `x` from offset `start` (0-based), clipped to the string. */
  function Slice(x: string, start: nat, count: nat): (r: string)
    ensures |r| <= |x|
  {
    var b := Min(start, |x|);
    x[b..Min(b + count, |x|)]
  }

  /**
   * `substr(X, Y, Z)` as SQLite computes it: Y counts from 1 (from the end
   * when negative); a negative Z selects the abs(Z) characters before
   * position Y.
   */
  function Substr(x: string, y: int, z: int): (r: string)
    ensures |r| <= |x|
  {
    var len := |x|;
    var n := if z < 0 then -z else z;
    // Position Y as an offset p1 and a count p2, as SQLite's substrFunc adjusts them.
    var p1 := if y < 0 then Max0(y + len) else if y > 0 then y - 1 else 0;
    var p2 := if y < 0 then (if y + len < 0 then Max0(n + y + len) else n)
              else if y > 0 then n
              else Max0(n - 1);
    // A negative Z takes the characters before the offset.
    var q1 := if z < 0 then Max0(p1 - p2) else p1;
    var q2 := if z < 0 && p1 - p2 < 0 then p1 else p2;
    Slice(x, q1, q2)
  }

  /**
   * `substr(X, Y)`: SQLite takes the length limit as the count, so for every
   * text it can store (at most MaxLength characters) this is everything from position Y.
   */
  function SubstrFrom(x: string, y: int): string {
    Substr(x, y, MaxLength)
  }

  /** `instr(X, Y)`: the 1-based position of the first occurrence of Y in X, 0 when there is none. */
  function Instr(x: string, y: string): (n: nat)
    ensures n <= |x| + 1
    decreases |x|
  {
    if |x| < |y| then 0
    else if x[..|y|] == y then 1
    else var k := Instr(x[1..], y); if k == 0 then 0 else k + 1
  }

  /** `replace(X, Y, Z)`: X unchanged for an empty Y, else every occurrence of Y replaced. */
  function Replace(x: string, y: string, z: string): string {
    if y == [] then x else ReplaceAll(x, y, z)
  }

  /** `rtrim(X, Y)`. */
  function RTrim(x: string, y: string): string {
    TrimRight(x, y)
  }

  /** `X LIKE P` without an ESCAPE clause and with SQLite's default ASCII case folding. */
  predicate Like(x: string, p: string)
    decreases |x| + |p|
  {
    if p == [] then x == []
    else if p[0] == '%' then Like(x, p[1..]) || (x != [] && Like(x[1..], p))
    else x != [] && (p[0] == '_' || LowerChar(p[0]) == LowerChar(x[0])) && Like(x[1..], p[1..])
  }

  // ---- How the listing queries use these functions ----

  /** Looking for one character: 0 exactly when it is absent, else the position of its first occurrence. */
  lemma {:induction false} InstrChar(x: string, c: char)
    ensures Instr(x, [c]) == 0 <==> c !in x
    ensures Instr(x, [c]) > 0 ==> Instr(x, [c]) <= |x| && x[Instr(x, [c]) - 1] == c && c !in x[..Instr(x, [c]) - 1]
    decreases |x|
  {
    if |x| >= 1 && x[..1] != [c] {
      InstrChar(x[1..], c);
      assert x[0] != c by { assert x[..1] == [x[0]]; }
      assert forall d :: d in x <==> d == x[0] || d in x[1..] by { assert x == [x[0]] + x[1..]; }
      var k := Instr(x[1..], [c]);
      if k > 0 {
        assert x[..k] == [x[0]] + x[1..][..k - 1];
      }
    } else if |x| >= 1 {
      assert x[0] == c by { assert x[..1] == [x[0]]; }
    }
  }

  /** The position of the first occurrence of `c` in `rest` when `x` is `pre + [c] + rest` and `pre` has no `c`. */
  lemma InstrAt(pre: string, c: char, rest: string)
    requires c !in pre
    ensures Instr(pre + [c] + rest, [c]) == |pre| + 1
  {
    var x := pre + [c] + rest;
    InstrChar(x, c);
    var n := Instr(x, [c]);
    assert x[|pre|] == c;
    assert x[..|pre|] == pre;
  }

  lemma SubstrPositive(x: string, y: int, z: int)
    requires y >= 1 && z >= 0
    ensures Substr(x, y, z) == x[Min(y - 1, |x|)..Min(Min(y - 1, |x|) + z, |x|)]
  {
  }

  lemma SubstrFromPositive(x: string, y: int)
    requires 1 <= y <= |x| + 1 && |x| <= MaxLength
    ensures SubstrFrom(x, y) == x[y - 1..]
  {
  }

  /** With length -1, `substr` returns the one character before position Y. */
  lemma SubstrMinusOne(x: string, y: int)
    requires 2 <= y <= |x| + 1
    ensures Substr(x, y, -1) == [x[y - 2]]
  {
  }

  /** '%' matches every string. */
  lemma {:induction false} LikeAll(x: string)
    ensures Like(x, "%")
    decreases |x|
  {
    assert "%"[1..] == [];
    if x != [] { LikeAll(x[1..]); }
  }

  /** Every string starting with `s` matches the pattern `s + "%"`, whatever wildcards `s` holds. */
  lemma {:induction false} LikeOwnPrefix(s: string, t: string)
    ensures Like(s + t, s + "%")
    decreases |s|
  {
    if s == [] {
      assert s + t == t && s + "%" == "%";
      LikeAll(t);
    } else {
      var x, p := s + t, s + "%";
      assert x[1..] == s[1..] + t && p[1..] == s[1..] + "%";
      LikeOwnPrefix(s[1..], t);
      if s[0] == '%' {
        // '%' consumes the one character s[0], and the rest of the pattern matches the rest.
        assert Like(x[1..], p[1..]);
        assert Like(x[1..], p) by { LikeConsumeOne(x[1..], p); }
      }
    }
  }

  /** If the pattern after a leading '%' matches, so does the whole pattern. */
  lemma LikeConsumeOne(x: string, p: string)
    requires p != [] && p[0] == '%' && Like(x, p[1..])
    ensures Like(x, p)
  {
  }

  /** Two strings of one length fold to the same text exactly when their first characters and their rests do. */
  lemma LowerFirst(a: string, b: string)
    requires |a| == |b| > 0
    ensures Lower(a) == Lower(b) <==> LowerChar(a[0]) == LowerChar(b[0]) && Lower(a[1..]) == Lower(b[1..])
  {
    assert Lower(a) == [LowerChar(a[0])] + Lower(a[1..]);
    assert Lower(b) == [LowerChar(b[0])] + Lower(b[1..]);
  }

  /**
   * For a pattern `q + "%"` where `q` has no wildcard, LIKE is a test of the
   * first |q| characters, ASCII case ignored.
   */
  lemma {:induction false} LikePrefix(x: string, q: string)
    requires '%' !in q && '_' !in q
    ensures Like(x, q + "%") <==> |x| >= |q| && Lower(x[..|q|]) == Lower(q)
    decreases |q|
  {
    if q == [] {
      assert q + "%" == "%";
      LikeAll(x);
    } else {
      var p := q + "%";
      assert p[0] == q[0] && p[1..] == q[1..] + "%";
      if x == [] {
      } else {
        LikePrefix(x[1..], q[1..]);
        if |x| >= |q| {
          assert x[..|q|][0] == x[0] && x[..|q|][1..] == x[1..][..|q| - 1];
          LowerFirst(x[..|q|], q);
        }
      }
    }
  }
}
