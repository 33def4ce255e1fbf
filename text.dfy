/** Character classes and string primitives shared by the SQL guard and the
    text cleaner: Python's whitespace table, the `\w` class, ASCII case
    mapping, substring search, greedy runs and `str.strip()`. */
module Text {

  /** Python's whitespace: `str.isspace`, `str.strip()` and the `\s` class of
      a `str` pattern all consult this one table. */
  predicate IsSpace(c: char) {
    var n := c as int;
    (0x09 <= n <= 0x0D) || (0x1C <= n <= 0x20) || n == 0x85 || n == 0xA0 || n == 0x1680
    || (0x2000 <= n <= 0x200A) || n == 0x2028 || n == 0x2029 || n == 0x202F
    || n == 0x205F || n == 0x3000
  }

  /** The `\w` class, restricted to ASCII: letters, digits and the underscore. */
  predicate IsWordChar(c: char) {
    c == '_' || ('a' <= c <= 'z') || ('A' <= c <= 'Z') || ('0' <= c <= '9')
  }

  function UpperChar(c: char): (u: char)
    ensures 'a' <= c <= 'z' ==> 'A' <= u <= 'Z' && u as int == c as int - 32
    ensures !('a' <= c <= 'z') ==> u == c
  {
    if 'a' <= c <= 'z' then (c as int - 32) as char else c
  }

  function LowerChar(c: char): (l: char)
    ensures 'A' <= c <= 'Z' ==> 'a' <= l <= 'z' && l as int == c as int + 32
    ensures !('A' <= c <= 'Z') ==> l == c
  {
    if 'A' <= c <= 'Z' then (c as int + 32) as char else c
  }

  /** `str.upper()` on the ASCII letters; every other character is kept. */
  function Upper(s: string): (r: string)
    ensures |r| == |s|
    ensures forall k :: 0 <= k < |s| ==> r[k] == UpperChar(s[k])
  {
    seq(|s|, k requires 0 <= k < |s| => UpperChar(s[k]))
  }

  /** `str.lower()` on the ASCII letters; every other character is kept. */
  function Lower(s: string): (r: string)
    ensures |r| == |s|
    ensures forall k :: 0 <= k < |s| ==> r[k] == LowerChar(s[k])
  {
    seq(|s|, k requires 0 <= k < |s| => LowerChar(s[k]))
  }

  lemma UpperAppend(a: string, b: string)
    ensures Upper(a + b) == Upper(a) + Upper(b)
  {
    assert forall k :: 0 <= k < |a + b| ==> Upper(a + b)[k] == (Upper(a) + Upper(b))[k];
  }

  /** Upper-casing forgets any case a string had: upper(lower(s)) == upper(s). */
  lemma UpperOfLower(s: string)
    ensures Upper(Lower(s)) == Upper(s)
  {
    assert forall k :: 0 <= k < |s| ==> Upper(Lower(s))[k] == Upper(s)[k];
  }

  /** `needle` occurs in `hay` starting at index `i`. */
  predicate OccursAt(hay: string, needle: string, i: int) {
    0 <= i && i + |needle| <= |hay| && hay[i..i + |needle|] == needle
  }

  /** Python's `needle in hay` on strings. */
  function Contains(hay: string, needle: string): (b: bool)
    ensures b <==> exists i :: OccursAt(hay, needle, i)
    decreases |hay|
  {
    if |needle| > |hay| then
      false
    else if hay[..|needle|] == needle then
      assert OccursAt(hay, needle, 0);
      true
    else
      var rest := Contains(hay[1..], needle);
      assert forall i :: OccursAt(hay[1..], needle, i) ==> OccursAt(hay, needle, i + 1) by {
        forall i | OccursAt(hay[1..], needle, i) ensures OccursAt(hay, needle, i + 1) {
          assert hay[1..][i..i + |needle|] == hay[i + 1..i + 1 + |needle|];
        }
      }
      assert forall i :: OccursAt(hay, needle, i) ==> i == 0 || OccursAt(hay[1..], needle, i - 1) by {
        forall i | OccursAt(hay, needle, i) && i != 0 ensures OccursAt(hay[1..], needle, i - 1) {
          assert hay[1..][i - 1..i - 1 + |needle|] == hay[i..i + |needle|];
        }
      }
      rest
  }

  /** An occurrence in a string is an occurrence in any string that extends it
      on either side. */
  lemma {:induction false} ContainsInExtension(x: string, a: string, y: string, needle: string)
    ensures Contains(a, needle) ==> Contains(x + a + y, needle)
  {
    if Contains(a, needle) {
      var i :| OccursAt(a, needle, i);
      assert (x + a + y)[|x| + i..|x| + i + |needle|] == a[i..i + |needle|];
      assert OccursAt(x + a + y, needle, |x| + i);
    }
  }

  /** An occurrence in `a + [sep] + b` of a needle that does not contain `sep`
      lies wholly in `a` or wholly in `b`. */
  lemma {:induction false} ContainsAcrossSeparator(a: string, sep: char, b: string, needle: string)
    requires sep !in needle
    ensures Contains(a + [sep] + b, needle) ==> Contains(a, needle) || Contains(b, needle)
  {
    var s := a + [sep] + b;
    if Contains(s, needle) {
      var i :| OccursAt(s, needle, i);
      assert s[|a|] == sep;
      assert forall k :: 0 <= k < |needle| ==> s[i + k] == needle[k] != sep;
      if i + |needle| <= |a| {
        assert s[i..i + |needle|] == a[i..i + |needle|];
        assert OccursAt(a, needle, i);
      } else {
        assert i > |a|;
        assert s[i..i + |needle|] == b[i - |a| - 1..i - |a| - 1 + |needle|];
        assert OccursAt(b, needle, i - |a| - 1);
      }
    }
  }

  /** A part whose upper-casing is `needle` makes any upper-cased text
      around it contain `needle`. */
  lemma ContainsUpperOfPart(x: string, a: string, y: string, needle: string)
    requires Upper(a) == needle
    ensures Contains(Upper(x + a + y), needle)
  {
    UpperAppend(x + a, y);
    UpperAppend(x, a);
    assert needle[0..|needle|] == needle;
    assert OccursAt(needle, needle, 0);
    ContainsInExtension(Upper(x), needle, Upper(y), needle);
  }

  /** A slice of a slice is a slice of the whole. */
  lemma SliceOfSlice(s: string, i: nat, j: nat, a: nat, b: nat)
    requires i <= j <= |s| && a <= b <= j - i
    ensures s[i..j][a..b] == s[i + a..i + b]
  {
    assert forall k :: 0 <= k < b - a ==> s[i..j][a..b][k] == s[i + a + k];
  }

  /** What occurs in a prefix occurs in the whole string. */
  lemma ContainsInPrefix(s: string, m: nat, needle: string)
    requires m <= |s|
    ensures Contains(s[..m], needle) ==> Contains(s, needle)
  {
    if Contains(s[..m], needle) {
      assert s == s[..m] + s[m..];
      ContainsInExtension([], s[..m], s[m..], needle);
      assert [] + s[..m] + s[m..] == s;
    }
  }

  /** The end of the greedy run of characters satisfying `p` that starts at
      `i`: what a regular expression `p*` consumes. */
  function SkipRun(s: string, i: nat, p: char -> bool): (e: nat)
    requires i <= |s|
    ensures i <= e <= |s|
    ensures forall k :: i <= k < e ==> p(s[k])
    ensures e == |s| || !p(s[e])
    decreases |s| - i
  {
    if i == |s| || !p(s[i]) then i else SkipRun(s, i + 1, p)
  }

  /** The start of the longest suffix of `s` whose characters satisfy `p`. */
  function BackRun(s: string, p: char -> bool): (j: nat)
    ensures j <= |s|
    ensures forall k :: j <= k < |s| ==> p(s[k])
    ensures j == 0 || !p(s[j - 1])
  {
    if |s| == 0 || !p(s[|s| - 1]) then |s| else BackRun(s[..|s| - 1], p)
  }

  /** Index of the first character `str.strip()` keeps. */
  function StripStart(s: string): (i: nat)
    ensures i <= |s|
    ensures forall k :: 0 <= k < i ==> IsSpace(s[k])
    ensures i == |s| || !IsSpace(s[i])
  {
    SkipRun(s, 0, IsSpace)
  }

  /** Index just past the last character `str.strip()` keeps. */
  function StripEnd(s: string): (j: nat)
    ensures StripStart(s) <= j <= |s|
    ensures forall k :: j <= k < |s| ==> IsSpace(s[k])
    ensures j == StripStart(s) || !IsSpace(s[j - 1])
  {
    var i := StripStart(s);
    var t := s[i..];
    var b := BackRun(t, IsSpace);
    assert forall k :: i + b <= k < |s| ==> s[k] == t[k - i];
    i + b
  }

  /** Python's `str.strip()` with no argument. */
  function Strip(s: string): (r: string)
    ensures |r| <= |s|
    ensures r == [] || (!IsSpace(r[0]) && !IsSpace(r[|r| - 1]))
  {
    s[StripStart(s)..StripEnd(s)]
  }

  /** Whitespace-only margins and non-space ends determine the result of
      `strip()`: this pins `Strip` down independently of how it scans. */
  lemma StripUnique(s: string, i: nat, j: nat)
    requires i <= j <= |s|
    requires forall k :: 0 <= k < i ==> IsSpace(s[k])
    requires forall k :: j <= k < |s| ==> IsSpace(s[k])
    requires i == j || (!IsSpace(s[i]) && !IsSpace(s[j - 1]))
    ensures Strip(s) == s[i..j]
  {
    var a, b := StripStart(s), StripEnd(s);
    if i < j {
      assert a == i;
    } else {
      assert a == |s|;
    }
  }

  /** Trailing whitespace after a string with non-space ends is what
      `strip()` removes. */
  lemma StripTrailing(x: string, t: string)
    requires x == [] || (!IsSpace(x[0]) && !IsSpace(x[|x| - 1]))
    requires forall k :: 0 <= k < |t| ==> IsSpace(t[k])
    ensures Strip(x + t) == x
  {
    var s := x + t;
    assert forall k :: |x| <= k < |s| ==> s[k] == t[k - |x|];
    StripUnique(s, 0, |x|);
    assert s[..|x|] == x;
  }

  /** Stripping twice is stripping once. */
  lemma StripIdempotent(s: string)
    ensures Strip(Strip(s)) == Strip(s)
  {
    var r := Strip(s);
    StripUnique(r, 0, |r|);
  }
}
