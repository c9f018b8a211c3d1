/**
 * String helpers shared by the SQLite and the Python parts of the model:
 * prefix and suffix tests, ASCII case folding, trimming trailing characters,
 * replacing every occurrence of a non-empty pattern, and the binary collation
 * order SQLite uses for ORDER BY on text.
 */
module Text {

  predicate StartsWith(s: string, prefix: string) {
    |prefix| <= |s| && s[..|prefix|] == prefix
  }

  predicate EndsWith(s: string, suffix: string) {
    |suffix| <= |s| && s[|s| - |suffix|..] == suffix
  }

  /** ASCII lower-casing: 'A'..'Z' map to 'a'..'z', every other character is kept. */
  function LowerChar(c: char): char {
    if 'A' <= c <= 'Z' then (c as int + 32) as char else c
  }

  function Lower(s: string): (r: string)
    ensures |r| == |s|
    ensures forall i :: 0 <= i < |s| ==> r[i] == LowerChar(s[i])
  {
    seq(|s|, i requires 0 <= i < |s| => LowerChar(s[i]))
  }

  /**
   * Removes trailing characters that occur in `chars` (SQLite `rtrim(X, Y)`,
   * Python `str.rstrip(chars)`). The result is the longest prefix of `s`
   * that does not end in one of `chars`.
   */
  function TrimRight(s: string, chars: string): (r: string)
    ensures StartsWith(s, r)
    ensures r == [] || r[|r| - 1] !in chars
    ensures forall i :: |r| <= i < |s| ==> s[i] in chars
    decreases |s|
  {
    if s != [] && s[|s| - 1] in chars then TrimRight(s[..|s| - 1], chars) else s
  }

  /** The result of trimming is determined by where the trimmable tail begins. */
  lemma {:induction false} TrimRightSplit(p: string, q: string, chars: string)
    requires forall i :: 0 <= i < |q| ==> q[i] in chars
    requires p == [] || p[|p| - 1] !in chars
    ensures TrimRight(p + q, chars) == p
    decreases |q|
  {
    if q == [] {
      assert p + q == p;
    } else {
      var x := p + q;
      assert x[|x| - 1] == q[|q| - 1];
      assert x[..|x| - 1] == p + q[..|q| - 1];
      TrimRightSplit(p, q[..|q| - 1], chars);
    }
  }

  /**
   * Replaces, scanning left to right, every non-overlapping occurrence of the
   * non-empty `pattern` in `s` (Python `str.replace`, SQLite `replace`).
   */
  function ReplaceAll(s: string, pattern: string, repl: string): string
    requires pattern != []
    decreases |s|
  {
    if |s| < |pattern| then s
    else if s[..|pattern|] == pattern then repl + ReplaceAll(s[|pattern|..], pattern, repl)
    else [s[0]] + ReplaceAll(s[1..], pattern, repl)
  }

  /** A string that does not contain a character of the pattern is left as it is. */
  lemma {:induction false} ReplaceAllAbsent(s: string, pattern: string, repl: string, c: char)
    requires pattern != [] && c in pattern && c !in s
    ensures ReplaceAll(s, pattern, repl) == s
    decreases |s|
  {
    if |s| < |pattern| {
    } else {
      assert s[..|pattern|] != pattern by {
        var k :| 0 <= k < |pattern| && pattern[k] == c;
        assert s[..|pattern|][k] == s[k];
      }
      assert c !in s[1..];
      ReplaceAllAbsent(s[1..], pattern, repl, c);
      assert [s[0]] + s[1..] == s;
    }
  }

  /** Removing every slash: the result holds exactly the characters of `s` other than '/'. */
  lemma {:induction false} ReplaceSlashes(s: string)
    ensures forall c :: c in ReplaceAll(s, "/", "") <==> c in s && c != '/'
    decreases |s|
  {
    if |s| < 1 {
    } else {
      ReplaceSlashes(s[1..]);
      if s[..1] == "/" {
        assert s[0] == '/';
        assert forall c :: c in s <==> c == s[0] || c in s[1..];
      } else {
        assert s[0] != '/';
        assert forall c :: c in s <==> c == s[0] || c in s[1..];
      }
    }
  }

  /** A pattern none of whose proper prefixes is also a suffix of it. */
  predicate Borderless(p: string) {
    forall k :: 0 < k < |p| ==> p[..k] != p[|p| - k..]
  }

  /**
   * Replacing a borderless pattern in a string that ends with it: the last
   * occurrence is always one of the replaced ones, so the result ends with `repl`.
   */
  lemma {:induction false} ReplaceAllSuffix(w: string, pattern: string, repl: string)
    requires pattern != [] && Borderless(pattern)
    ensures EndsWith(ReplaceAll(w + pattern, pattern, repl), repl)
    decreases |w|
  {
    var x := w + pattern;
    if x[..|pattern|] == pattern {
      if w == [] {
        assert x[|pattern|..] == [];
        assert ReplaceAll(x, pattern, repl) == repl;
      } else if |w| >= |pattern| {
        assert x[|pattern|..] == w[|pattern|..] + pattern;
        ReplaceAllSuffix(w[|pattern|..], pattern, repl);
      } else {
        OverlapIsBorder(w, pattern);
        assert false;
      }
    } else {
      assert x[1..] == w[1..] + pattern;
      ReplaceAllSuffix(w[1..], pattern, repl);
    }
  }

  /** An occurrence of `pattern` at the start of `w + pattern` with `w` shorter than it is a border. */
  lemma OverlapIsBorder(w: string, pattern: string)
    requires 0 < |w| < |pattern|
    requires (w + pattern)[..|pattern|] == pattern
    ensures pattern[..|pattern| - |w|] == pattern[|w|..]
  {
    var x := w + pattern;
    var k := |pattern| - |w|;
    forall i | 0 <= i < k ensures pattern[i] == pattern[|w| + i] {
      assert x[|w| + i] == pattern[i];
      assert x[..|pattern|][|w| + i] == x[|w| + i];
    }
  }

  /** Strict order of SQLite's BINARY collation (code point by code point, a prefix first). */
  predicate Less(a: string, b: string)
    decreases |a|
  {
    if a == [] then b != []
    else if b == [] then false
    else if a[0] != b[0] then a[0] < b[0]
    else Less(a[1..], b[1..])
  }

  predicate LessOrEqual(a: string, b: string) {
    a == b || Less(a, b)
  }

  lemma {:induction false} LessIrreflexive(a: string)
    ensures !Less(a, a)
    decreases |a|
  {
    if a != [] { LessIrreflexive(a[1..]); }
  }

  lemma {:induction false} LessTransitive(a: string, b: string, c: string)
    requires Less(a, b) && Less(b, c)
    ensures Less(a, c)
    decreases |a|
  {
    if a != [] && b != [] && c != [] && a[0] == b[0] && b[0] == c[0] {
      LessTransitive(a[1..], b[1..], c[1..]);
    }
  }

  lemma {:induction false} LessTotal(a: string, b: string)
    ensures a == b || Less(a, b) || Less(b, a)
    decreases |a|
  {
    if a != [] && b != [] && a[0] == b[0] {
      LessTotal(a[1..], b[1..]);
      if a[1..] == b[1..] {
        assert a == [a[0]] + a[1..] && b == [b[0]] + b[1..];
      }
    }
  }

  lemma LessAsymmetric(a: string, b: string)
    ensures !(Less(a, b) && Less(b, a))
  {
    if Less(a, b) && Less(b, a) {
      LessTransitive(a, b, a);
      LessIrreflexive(a);
    }
  }
}
