/** The string primitives the contact-form script leans on: String.prototype.trim,
    the regex class \s, String.prototype.length (UTF-16 code units), and
    substring search with and without ASCII case folding. */
module Text {
  import opened Options

  /** ECMAScript's WhiteSpace and LineTerminator characters. String.prototype.trim
      strips exactly these, and the regex class \s matches exactly these. */
  const WhitespaceCodes: seq<int> := [
    0x09, 0x0A, 0x0B, 0x0C, 0x0D, 0x20, 0xA0, 0x1680,
    0x2000, 0x2001, 0x2002, 0x2003, 0x2004, 0x2005, 0x2006, 0x2007, 0x2008, 0x2009, 0x200A,
    0x2028, 0x2029, 0x202F, 0x205F, 0x3000, 0xFEFF
  ]

  predicate IsWhitespace(c: char) {
    Listed(c as int, WhitespaceCodes)
  }

  /** `n` is one of `codes`, looked up one entry at a time. */
  predicate Listed(n: int, codes: seq<int>) {
    codes != [] && (n == codes[0] || Listed(n, codes[1..]))
  }

  lemma {:induction false} ListedIff(n: int, codes: seq<int>)
    ensures Listed(n, codes) <==> n in codes
  {
    if codes != [] {
      ListedIff(n, codes[1..]);
      assert codes == [codes[0]] + codes[1..];
    }
  }

  /** No visible ASCII character (letters, digits, punctuation) is whitespace. */
  lemma VisibleAsciiIsNotWhitespace(c: char)
    requires 0x21 <= c as int <= 0x7E
    ensures !IsWhitespace(c)
  {
    var n := c as int;
    assert forall k | 0 <= k < |WhitespaceCodes| :: WhitespaceCodes[k] != n by {
      assert forall k | 0 <= k < 6 :: WhitespaceCodes[k] <= 0x20;
      assert forall k | 6 <= k < |WhitespaceCodes| :: WhitespaceCodes[k] >= 0xA0;
    }
    ListedIff(n, WhitespaceCodes);
  }

  predicate AllWhitespace(s: string) {
    forall k | 0 <= k < |s| :: IsWhitespace(s[k])
  }

  /** The first position at or after `i` that does not hold whitespace, or |s|. */
  function SkipLeading(s: string, i: nat): (k: nat)
    requires i <= |s|
    ensures i <= k <= |s|
    ensures forall m | i <= m < k :: IsWhitespace(s[m])
    ensures k < |s| ==> !IsWhitespace(s[k])
    decreases |s| - i
  {
    if i < |s| && IsWhitespace(s[i]) then SkipLeading(s, i + 1) else i
  }

  /** The position just after the last non-whitespace character of `s[lo..j]`,
      or `lo` when there is none. */
  function SkipTrailing(s: string, lo: nat, j: nat): (k: nat)
    requires lo <= j <= |s|
    ensures lo <= k <= j
    ensures forall m | k <= m < j :: IsWhitespace(s[m])
    ensures lo < k ==> !IsWhitespace(s[k - 1])
    decreases j
  {
    if lo < j && IsWhitespace(s[j - 1]) then SkipTrailing(s, lo, j - 1) else j
  }

  /** String.prototype.trim: the leading whitespace goes, then the trailing whitespace. */
  function Trim(s: string): (r: string)
    ensures |r| <= |s|
    ensures r != [] ==> !IsWhitespace(r[0]) && !IsWhitespace(r[|r| - 1])
  {
    var i := SkipLeading(s, 0);
    s[i..SkipTrailing(s, i, |s|)]
  }

  /** `s[i..j]` is what is left of `s` once its whitespace ends are cut off. */
  ghost predicate TrimmedAt(s: string, i: int, j: int) {
    && 0 <= i <= j <= |s|
    && (forall k | 0 <= k < i :: IsWhitespace(s[k]))
    && (forall k | j <= k < |s| :: IsWhitespace(s[k]))
    && (i < j ==> !IsWhitespace(s[i]) && !IsWhitespace(s[j - 1]))
  }

  /** Trim returns the one slice of `s` with only whitespace outside it and
      non-whitespace at both of its ends. */
  lemma TrimIsTrimmedSlice(s: string, i: int, j: int)
    requires TrimmedAt(s, i, j)
    ensures Trim(s) == s[i..j]
  {
    var a := SkipLeading(s, 0);
    var b := SkipTrailing(s, a, |s|);
    if i == j {
      assert a == |s| && b == |s|;
    } else {
      assert a == i;
      assert b == j;
    }
  }

  /** A value trims to the empty string exactly when every character of it is whitespace. */
  lemma TrimEmptyIff(s: string)
    ensures Trim(s) == [] <==> AllWhitespace(s)
  {
    var a := SkipLeading(s, 0);
    var b := SkipTrailing(s, a, |s|);
    assert Trim(s) == [] <==> a == b;
    assert a == b ==> a == |s|;
  }

  /** Trimming twice changes nothing more. */
  lemma TrimIdempotent(s: string)
    ensures Trim(Trim(s)) == Trim(s)
  {
    var r := Trim(s);
    TrimIsTrimmedSlice(r, 0, |r|);
    assert r[0..|r|] == r;
  }

  /** The bounds of the slice that Trim keeps. */
  lemma TrimBounds(s: string) returns (i: int, j: int)
    ensures TrimmedAt(s, i, j) && Trim(s) == s[i..j]
  {
    i := SkipLeading(s, 0);
    j := SkipTrailing(s, i, |s|);
  }

  /** Whitespace around a value does not change what it trims to. */
  lemma TrimPadded(pre: string, s: string, post: string)
    requires AllWhitespace(pre) && AllWhitespace(post)
    ensures Trim(pre + s + post) == Trim(s)
  {
    var i, j := TrimBounds(s);
    PaddedTrimmedAt(pre, s, post, i, j);
    TrimIsTrimmedSlice(pre + s + post, |pre| + i, |pre| + j);
    SliceOfPadded(pre, s, post, i, j);
  }

  lemma PaddedTrimmedAt(pre: string, s: string, post: string, i: int, j: int)
    requires AllWhitespace(pre) && AllWhitespace(post) && TrimmedAt(s, i, j)
    ensures TrimmedAt(pre + s + post, |pre| + i, |pre| + j)
  {
    var u := pre + s + post;
    var n := |pre|;
    forall k | 0 <= k < n + i ensures IsWhitespace(u[k]) {
      if k < n { assert u[k] == pre[k]; } else { assert u[k] == s[k - n]; }
    }
    forall k | n + j <= k < |u| ensures IsWhitespace(u[k]) {
      if k < n + |s| { assert u[k] == s[k - n]; } else { assert u[k] == post[k - n - |s|]; }
    }
    assert i < j ==> u[n + i] == s[i] && u[n + j - 1] == s[j - 1];
  }

  lemma SliceOfPadded(pre: string, s: string, post: string, i: int, j: int)
    requires 0 <= i <= j <= |s|
    ensures (pre + s + post)[|pre| + i..|pre| + j] == s[i..j]
  {
  }

  /** A value with no whitespace at either end is left as it is. */
  lemma TrimKeeps(s: string)
    requires s != [] ==> !IsWhitespace(s[0]) && !IsWhitespace(s[|s| - 1])
    ensures Trim(s) == s
  {
    TrimIsTrimmedSlice(s, 0, |s|);
    assert s[0..|s|] == s;
  }

  /** A character outside the Basic Multilingual Plane is two UTF-16 code units. */
  predicate InBmp(c: char) {
    (c as int) < 0x10000
  }

  /** String.prototype.length: the number of UTF-16 code units of `s`. It equals
      the number of characters exactly when every character is in the Basic
      Multilingual Plane. */
  function Utf16Length(s: string): (n: nat)
    ensures |s| <= n <= 2 * |s|
    ensures n == |s| <==> forall k | 0 <= k < |s| :: InBmp(s[k])
  {
    if s == [] then 0
    else
      assert forall k | 1 <= k < |s| :: s[k] == s[1..][k - 1];
      (if InBmp(s[0]) then 1 else 2) + Utf16Length(s[1..])
  }

  /** The first position of `c` in `s`, if any. */
  function IndexOf(s: string, c: char): (r: Option<nat>)
    ensures r.None? <==> c !in s
    ensures r.Some? ==> r.value < |s| && s[r.value] == c && c !in s[..r.value]
  {
    if s == [] then None
    else if s[0] == c then Some(0)
    else match IndexOf(s[1..], c)
      case None => None
      case Some(k) =>
        assert s[..k + 1] == [s[0]] + s[1..][..k];
        Some(k + 1)
  }

  /** `p` occurs in `s` at position `i`. */
  ghost predicate OccursAt(s: string, p: string, i: int) {
    0 <= i && i + |p| <= |s| && s[i..i + |p|] == p
  }

  /** Substring search, as a regex alternative without anchors tries every start position. */
  function Contains(s: string, p: string): bool
    decreases |s|
  {
    if |p| <= |s| && s[..|p|] == p then true
    else if s == [] then false
    else Contains(s[1..], p)
  }

  /** Contains finds `p` exactly when `p` occurs somewhere in `s`. */
  lemma {:induction false} ContainsIff(s: string, p: string)
    ensures Contains(s, p) <==> exists i :: OccursAt(s, p, i)
    decreases |s|
  {
    if |p| <= |s| && s[..|p|] == p {
      assert OccursAt(s, p, 0);
    } else if s == [] {
    } else {
      ContainsIff(s[1..], p);
      forall i | OccursAt(s[1..], p, i) ensures OccursAt(s, p, i + 1) {
        assert s[1..][i..i + |p|] == s[i + 1..i + 1 + |p|];
      }
      if exists i :: OccursAt(s, p, i) {
        var i :| OccursAt(s, p, i);
        assert i != 0;
        assert OccursAt(s[1..], p, i - 1);
      }
      if exists i :: OccursAt(s[1..], p, i) {
        var i :| OccursAt(s[1..], p, i);
        assert OccursAt(s, p, i + 1);
      }
    }
  }

  /** ASCII lower-casing of one character; every other character is its own fold. */
  function FoldAscii(c: char): char {
    if 'A' <= c <= 'Z' then (c as int + 32) as char else c
  }

  function LowerAscii(s: string): string {
    seq(|s|, k requires 0 <= k < |s| => FoldAscii(s[k]))
  }
}
