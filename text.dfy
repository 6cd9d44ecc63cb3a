/**
 * The few Python string built-ins the configuration reader relies on:
 * `str.strip()` without arguments, `needle in hay` on strings, and
 * `str.split(sep, 1)`.
 */
module Text {

  /** The characters `str.isspace()` accepts, which is the set `str.strip()` removes. */
  predicate IsSpace(c: char)
  {
    || c == ' '
    || ('\t' <= c && c <= '\r')           // tab, newline, vertical tab, form feed, carriage return
    || ('\U{1C}' <= c && c <= '\U{1F}')   // file, group, record and unit separators
    || c == '\U{85}' || c == '\U{A0}' || c == '\U{1680}'
    || ('\U{2000}' <= c && c <= '\U{200A}')
    || c == '\U{2028}' || c == '\U{2029}' || c == '\U{202F}' || c == '\U{205F}' || c == '\U{3000}'
  }

  /** Every character of `s` from index `lo` up to (not including) `hi` is whitespace. */
  ghost predicate SpaceBetween(s: string, lo: int, hi: int)
  {
    forall k :: lo <= k < hi && 0 <= k < |s| ==> IsSpace(s[k])
  }

  /** A string `str.strip()` leaves alone: empty, or neither end is whitespace. */
  ghost predicate IsStripped(s: string)
  {
    s == [] || (!IsSpace(s[0]) && !IsSpace(s[|s| - 1]))
  }

  /** Length of the longest all-whitespace prefix. */
  function LeadingSpace(s: string): (n: nat)
    ensures n <= |s| && SpaceBetween(s, 0, n)
    ensures n < |s| ==> !IsSpace(s[n])
  {
    if s == [] || !IsSpace(s[0]) then 0
    else
      var m := LeadingSpace(s[1..]);
      assert forall k :: 1 <= k < m + 1 ==> s[k] == s[1..][k - 1];
      m + 1
  }

  /** Length of the longest all-whitespace suffix. */
  function TrailingSpace(s: string): (n: nat)
    ensures n <= |s| && SpaceBetween(s, |s| - n, |s|)
    ensures n < |s| ==> !IsSpace(s[|s| - 1 - n])
  {
    if s == [] || !IsSpace(s[|s| - 1]) then 0
    else
      var m := TrailingSpace(s[..|s| - 1]);
      assert forall k :: 0 <= k < |s| - 1 ==> s[k] == s[..|s| - 1][k];
      m + 1
  }

  /** Python's `s.strip()`: the block of `s` that is left once the whitespace
      at both ends is cut off. */
  function Strip(s: string): (r: string)
    ensures IsStripped(r)
    ensures LeadingSpace(s) + |r| <= |s| && r == s[LeadingSpace(s)..LeadingSpace(s) + |r|]
    ensures SpaceBetween(s, 0, LeadingSpace(s)) && SpaceBetween(s, LeadingSpace(s) + |r|, |s|)
  {
    var i := LeadingSpace(s);
    var t := s[i..];
    var n := TrailingSpace(t);
    var r := t[..|t| - n];
    assert r == s[i..i + |r|];
    assert r != [] ==> r[0] == s[i] && r[|r| - 1] == t[|t| - 1 - n];
    assert SpaceBetween(s, i + |r|, |s|) by {
      forall k | i + |r| <= k < |s| ensures IsSpace(s[k]) {
        assert s[k] == t[k - i];
      }
    }
    r
  }

  /** Python's `needle in hay` for two strings. */
  function Contains(hay: string, needle: string): (b: bool)
    ensures needle <= hay ==> b
    ensures b ==> |needle| <= |hay|
    decreases |hay|
  {
    || (|needle| <= |hay| && hay[..|needle|] == needle)
    || (hay != [] && Contains(hay[1..], needle))
  }

  /** `needle` is the block of `hay` that starts at index `i`. */
  ghost predicate OccursAt(needle: string, hay: string, i: int)
  {
    0 <= i && i + |needle| <= |hay| && hay[i..i + |needle|] == needle
  }

  /** Index of the first occurrence of `c` in `s`. */
  function FirstIndex(s: string, c: char): (i: nat)
    requires c in s
    ensures i < |s| && s[i] == c && c !in s[..i]
  {
    if s[0] == c then 0
    else
      var j := FirstIndex(s[1..], c);
      assert s[..j + 1] == [s[0]] + s[1..][..j];
      j + 1
  }

  /** Python's `s.split(sep, 1)` for a one-character separator. */
  function SplitOnce(s: string, sep: char): (parts: seq<string>)
    ensures sep !in s ==> parts == [s]
    ensures sep in s ==> |parts| == 2 && s == parts[0] + [sep] + parts[1] && sep !in parts[0]
  {
    if sep in s then
      var i := FirstIndex(s, sep);
      assert s == s[..i] + [sep] + s[i + 1..];
      [s[..i], s[i + 1..]]
    else [s]
  }

  // ---------------------------------------------------------------------
  // Properties
  // ---------------------------------------------------------------------

  /** An occurrence in a non-empty string is at its front or in its tail. */
  lemma OccursShift(hay: string, needle: string)
    requires hay != []
    ensures (exists i :: OccursAt(needle, hay, i))
        <==> OccursAt(needle, hay, 0) || exists j :: OccursAt(needle, hay[1..], j)
  {
    forall i | OccursAt(needle, hay, i) && i > 0 ensures OccursAt(needle, hay[1..], i - 1) {
      assert hay[1..][i - 1..i - 1 + |needle|] == hay[i..i + |needle|];
    }
    forall j | OccursAt(needle, hay[1..], j) ensures OccursAt(needle, hay, j + 1) {
      assert hay[1..][j..j + |needle|] == hay[j + 1..j + 1 + |needle|];
    }
  }

  /** `Contains` is exactly "occurs somewhere", in both directions. */
  lemma {:induction false} ContainsIffOccurs(hay: string, needle: string)
    ensures Contains(hay, needle) <==> exists i :: OccursAt(needle, hay, i)
    decreases |hay|
  {
    if hay == [] {
      if needle == [] { assert OccursAt(needle, hay, 0); }
    } else {
      ContainsIffOccurs(hay[1..], needle);
      OccursShift(hay, needle);
    }
  }

  /** Stripping only ever removes whitespace, so a non-whitespace character
      is in the stripped string exactly when it is in the original. */
  lemma StripKeeps(s: string, c: char)
    requires !IsSpace(c)
    ensures c in Strip(s) <==> c in s
  {
    var i, r := LeadingSpace(s), Strip(s);
    if c in s {
      var k :| 0 <= k < |s| && s[k] == c;
      assert i <= k < i + |r|;
      assert r[k - i] == c;
    }
  }

  /** `Strip` is determined by what it promises: if `s[a..b]` has no
      whitespace at its ends and everything outside it is whitespace, then
      `s[a..b]` is `Strip(s)`. */
  lemma StripUniqueAt(s: string, a: nat, b: nat)
    requires a <= b <= |s|
    requires SpaceBetween(s, 0, a) && SpaceBetween(s, b, |s|) && IsStripped(s[a..b])
    ensures Strip(s) == s[a..b]
  {
    var i, q := LeadingSpace(s), Strip(s);
    if a < b {
      assert !IsSpace(s[a]) by { assert s[a..b][0] == s[a]; }
      assert !IsSpace(s[b - 1]) by { assert s[a..b][b - a - 1] == s[b - 1]; }
      assert i == a;
      assert q != [];
      assert q[|q| - 1] == s[i + |q| - 1];
      assert i + |q| == b;
    } else {
      assert SpaceBetween(s, 0, |s|);
    }
  }

  /** The same, for a string given as whitespace, a stripped part and whitespace. */
  lemma StripUnique(s: string, pre: string, r: string, post: string)
    requires s == pre + r + post
    requires SpaceBetween(pre, 0, |pre|) && SpaceBetween(post, 0, |post|) && IsStripped(r)
    ensures Strip(s) == r
  {
    assert SpaceBetween(s, 0, |pre|) by {
      forall k | 0 <= k < |pre| ensures IsSpace(s[k]) { assert s[k] == pre[k]; }
    }
    assert SpaceBetween(s, |pre| + |r|, |s|) by {
      forall k | |pre| + |r| <= k < |s| ensures IsSpace(s[k]) { assert s[k] == post[k - |pre| - |r|]; }
    }
    assert s[|pre|..|pre| + |r|] == r;
    StripUniqueAt(s, |pre|, |pre| + |r|);
  }

  /** Stripping twice is stripping once. */
  lemma StripIdempotent(s: string)
    ensures Strip(Strip(s)) == Strip(s)
  {
    var r := Strip(s);
    assert r == [] + r + [];
    StripUnique(r, [], r, []);
  }
}
