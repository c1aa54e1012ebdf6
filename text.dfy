/**
 * The string operations the bookstore relies on: Python's `str.strip()` (used on the search
 * query and by Django's text form fields), the ASCII-only case folding of SQLite's `LIKE`
 * (which Django's `icontains` lookup compiles to), substring search, and the code-point order
 * SQLite's BINARY collation gives to `ORDER BY` on text.
 */
module Text {

  /** The characters Python's `str.isspace()` accepts, which `str.strip()` removes. */
  predicate IsSpace(c: char) {
    var n := c as int;
    (0x09 <= n <= 0x0D) || (0x1C <= n <= 0x20) || n == 0x85 || n == 0xA0 || n == 0x1680
    || (0x2000 <= n <= 0x200A) || n == 0x2028 || n == 0x2029 || n == 0x202F || n == 0x205F
    || n == 0x3000
  }

  predicate AllSpace(s: string) {
    forall k :: 0 <= k < |s| ==> IsSpace(s[k])
  }

  /** `s` without its leading whitespace. */
  function StripLeft(s: string): (r: string)
    ensures |r| <= |s|
    ensures AllSpace(s[..|s| - |r|])
    ensures r == [] || !IsSpace(r[0])
  {
    if s != [] && IsSpace(s[0]) then StripLeft(s[1..]) else s
  }

  /** What `StripLeft` keeps is a suffix of its input. */
  lemma {:induction false} StripLeftSuffix(s: string)
    ensures StripLeft(s) == s[|s| - |StripLeft(s)|..]
  {
    if s != [] && IsSpace(s[0]) {
      StripLeftSuffix(s[1..]);
    }
  }

  /** `s` without its trailing whitespace. */
  function StripRight(s: string): (r: string)
    ensures |r| <= |s|
    ensures AllSpace(s[|r|..])
    ensures r == [] || !IsSpace(r[|r| - 1])
  {
    if s != [] && IsSpace(s[|s| - 1]) then StripRight(s[..|s| - 1]) else s
  }

  /** What `StripRight` keeps is a prefix of its input. */
  lemma {:induction false} StripRightPrefix(s: string)
    ensures StripRight(s) == s[..|StripRight(s)|]
  {
    if s != [] && IsSpace(s[|s| - 1]) {
      StripRightPrefix(s[..|s| - 1]);
    }
  }

  /**
   * Python's `s.strip()`: the result is the slice of `s` left after removing whitespace from
   * both ends, and it neither starts nor ends with whitespace.
   */
  function Strip(s: string): (r: string)
    ensures |r| <= |s|
    ensures r == [] || (!IsSpace(r[0]) && !IsSpace(r[|r| - 1]))
  {
    StripRightPrefix(StripLeft(s));
    StripRight(StripLeft(s))
  }

  /** What `Strip` removes is whitespace at both ends and nothing else. */
  lemma StripIsSlice(s: string)
    ensures exists i :: 0 <= i <= |s| - |Strip(s)| && Strip(s) == s[i..i + |Strip(s)|]
                        && AllSpace(s[..i]) && AllSpace(s[i + |Strip(s)|..])
  {
    var l := StripLeft(s);
    var r := StripRight(l);
    var i := |s| - |l|;
    StripLeftSuffix(s);
    StripRightPrefix(l);
    assert l == s[i..];
    assert r == l[..|r|];
    assert r == s[i..i + |r|];
    assert s[i + |r|..] == l[|r|..];
    assert AllSpace(s[..i]) && AllSpace(l[|r|..]);
    assert r == Strip(s);
  }

  /** Stripping a stripped string changes nothing. */
  lemma StripIdempotent(s: string)
    ensures Strip(Strip(s)) == Strip(s)
  {
    var t := Strip(s);
    if t != [] {
      assert StripLeft(t) == t;
      assert StripRight(t) == t;
    }
  }

  /** A string with no whitespace at either end strips to itself. */
  lemma StripUnspaced(s: string)
    requires s == [] || (!IsSpace(s[0]) && !IsSpace(s[|s| - 1]))
    ensures Strip(s) == s
  {
  }

  /** A string strips to nothing exactly when all of it is whitespace. */
  lemma StripEmptyIff(s: string)
    ensures Strip(s) == [] <==> AllSpace(s)
  {
    var l := StripLeft(s);
    StripLeftSuffix(s);
    if l == [] {
      assert s[..|s|] == s;
    } else {
      assert s[|s| - |l|] == l[0];
      assert StripRight(l) != [];
    }
  }

  /** Case folding as SQLite's `LIKE` does it: only the ASCII letters A-Z are folded. */
  function Lower(c: char): char {
    if 'A' <= c <= 'Z' then (c as int + 32) as char else c
  }

  function LowerAll(s: string): (r: string)
    ensures |r| == |s| && forall k :: 0 <= k < |s| ==> r[k] == Lower(s[k])
  {
    seq(|s|, k requires 0 <= k < |s| => Lower(s[k]))
  }

  /** Reference meaning of a case-insensitive containment: the folded needle is a prefix of a
      suffix of the folded haystack. */
  ghost predicate Occurs(needle: string, hay: string) {
    exists i :: 0 <= i <= |hay| && LowerAll(needle) <= LowerAll(hay)[i..]
  }

  /** `needle` matches the start of `s`, ignoring ASCII case. */
  predicate StartsWithIgnoreCase(s: string, needle: string) {
    needle == [] || (s != [] && Lower(needle[0]) == Lower(s[0]) && StartsWithIgnoreCase(s[1..], needle[1..]))
  }

  lemma {:induction false} StartsWithIgnoreCaseCorrect(s: string, needle: string)
    ensures StartsWithIgnoreCase(s, needle) <==> LowerAll(needle) <= LowerAll(s)
  {
    if needle != [] && s != [] {
      StartsWithIgnoreCaseCorrect(s[1..], needle[1..]);
      assert LowerAll(s) == [Lower(s[0])] + LowerAll(s[1..]);
      assert LowerAll(needle) == [Lower(needle[0])] + LowerAll(needle[1..]);
    }
  }

  /** The scan `LIKE '%needle%'` performs, one start position at a time. */
  predicate ContainsIgnoreCase(hay: string, needle: string)
    decreases |hay|
  {
    StartsWithIgnoreCase(hay, needle) || (hay != [] && ContainsIgnoreCase(hay[1..], needle))
  }

  /** The scan finds the needle exactly when it occurs somewhere, in both directions. */
  lemma {:induction false} ContainsIgnoreCaseCorrect(hay: string, needle: string)
    ensures ContainsIgnoreCase(hay, needle) <==> Occurs(needle, hay)
    decreases |hay|
  {
    var ln, lh := LowerAll(needle), LowerAll(hay);
    StartsWithIgnoreCaseCorrect(hay, needle);
    assert lh[0..] == lh;
    if hay != [] {
      ContainsIgnoreCaseCorrect(hay[1..], needle);
      var lt := LowerAll(hay[1..]);
      assert lt == lh[1..];
      if Occurs(needle, hay[1..]) {
        var i :| 0 <= i <= |hay[1..]| && ln <= lt[i..];
        assert lt[i..] == lh[i + 1..];
      }
      if Occurs(needle, hay) && !StartsWithIgnoreCase(hay, needle) {
        var i :| 0 <= i <= |hay| && ln <= lh[i..];
        assert i != 0;
        assert lt[i - 1..] == lh[i..];
      }
    } else {
      if Occurs(needle, hay) {
        var i :| 0 <= i <= |hay| && ln <= lh[i..];
        assert i == 0;
      }
    }
  }

  /** String order of SQLite's BINARY collation: lexicographic by code point. */
  predicate LexLe(a: string, b: string) {
    a == [] || (b != [] && (a[0] < b[0] || (a[0] == b[0] && LexLe(a[1..], b[1..]))))
  }

  lemma {:induction false} LexLeTotal(a: string, b: string)
    ensures LexLe(a, b) || LexLe(b, a)
  {
    if a != [] && b != [] && a[0] == b[0] {
      LexLeTotal(a[1..], b[1..]);
    }
  }

  lemma {:induction false} LexLeTransitive(a: string, b: string, c: string)
    requires LexLe(a, b) && LexLe(b, c)
    ensures LexLe(a, c)
  {
    if a != [] && b != [] && c != [] && a[0] == b[0] && b[0] == c[0] {
      LexLeTransitive(a[1..], b[1..], c[1..]);
    }
  }
}
