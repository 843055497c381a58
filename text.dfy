/** The two Python string operations the request handlers apply to form
    fields: `str.strip()` with no argument, and `str.lower()`. */
module Text {

  /** Python's `str.isspace()` for one character: the ASCII controls TAB to
      CR, the four information separators, SPACE, NEL, NO-BREAK SPACE and the
      Unicode space separators and line/paragraph separators. */
  predicate IsSpace(c: char) {
    var n := c as int;
    (9 <= n <= 13) || (28 <= n <= 32) || n == 0x85 || n == 0xA0 || n == 0x1680
    || (0x2000 <= n <= 0x200A) || n == 0x2028 || n == 0x2029 || n == 0x202F
    || n == 0x205F || n == 0x3000
  }

  predicate AllSpace(s: string) {
    forall k :: 0 <= k < |s| ==> IsSpace(s[k])
  }

  /** Every character of `s` at a position in [lo, hi) is whitespace. */
  predicate SpaceIn(s: string, lo: int, hi: int) {
    forall k :: 0 <= lo <= k < hi <= |s| ==> IsSpace(s[k])
  }

  /** `s[i..j]` is what is left of `s` once the whitespace on both sides is
      cut away: only whitespace outside it, and non-space ends unless empty. */
  predicate Trimmed(s: string, i: int, j: int) {
    && 0 <= i <= j <= |s|
    && SpaceIn(s, 0, i) && SpaceIn(s, j, |s|)
    && (i < j ==> !IsSpace(s[i]) && !IsSpace(s[j - 1]))
  }

  /** Number of whitespace characters at the front of `s`. */
  function LeadingSpace(s: string): (n: nat)
    ensures n <= |s| && SpaceIn(s, 0, n)
    ensures n < |s| ==> !IsSpace(s[n])
  {
    if s == [] || !IsSpace(s[0]) then 0
    else 1 + LeadingSpace(s[1..])
  }

  /** Number of whitespace characters at the end of `s`. */
  function TrailingSpace(s: string): (n: nat)
    ensures n <= |s| && SpaceIn(s, |s| - n, |s|)
    ensures n < |s| ==> !IsSpace(s[|s| - n - 1])
  {
    if s == [] || !IsSpace(s[|s| - 1]) then 0
    else 1 + TrailingSpace(s[..|s| - 1])
  }

  /** The slice a string and `Trimmed` agree on is unique. */
  lemma TrimmedUnique(s: string, i: int, j: int, a: int, b: int)
    requires Trimmed(s, i, j) && Trimmed(s, a, b)
    ensures s[i..j] == s[a..b]
  {
    if i < j { assert !IsSpace(s[i]) && !IsSpace(s[j - 1]); }
    if a < b { assert !IsSpace(s[a]) && !IsSpace(s[b - 1]); }
  }

  /** Where the stripped part of `s` starts and ends. */
  function StripBounds(s: string): (b: (nat, nat))
    ensures Trimmed(s, b.0, b.1)
  {
    var i := LeadingSpace(s);
    if i == |s| then (i, i)
    else
      var j := |s| - TrailingSpace(s);
      assert i < j by { assert !IsSpace(s[i]); }
      (i, j)
  }

  /** `s.strip()`: the slice of `s` that is left once the whitespace on both
      sides is cut away, whichever way that slice is found. */
  function Strip(s: string): (r: string)
    ensures |r| <= |s|
    ensures r == [] <==> AllSpace(s)
    ensures forall i, j :: Trimmed(s, i, j) ==> r == s[i..j]
  {
    var b := StripBounds(s);
    forall i, j | Trimmed(s, i, j) ensures s[b.0..b.1] == s[i..j] {
      TrimmedUnique(s, b.0, b.1, i, j);
    }
    assert AllSpace(s) ==> b.0 == b.1 by {
      if b.0 < b.1 { assert !IsSpace(s[b.0]); }
    }
    s[b.0..b.1]
  }

  /** The result of `Strip` is empty or starts and ends with a non-space. */
  lemma StripEnds(s: string)
    ensures var r := Strip(s); r != [] ==> !IsSpace(r[0]) && !IsSpace(r[|r| - 1])
  {
    var b := StripBounds(s);
    assert Strip(s) == s[b.0..b.1];
  }

  /** Stripping a string that already has non-space ends changes nothing. */
  lemma StripOfTrimmed(s: string)
    requires s != [] ==> !IsSpace(s[0]) && !IsSpace(s[|s| - 1])
    ensures Strip(s) == s
  {
    assert Trimmed(s, 0, |s|);
    assert s[0..|s|] == s;
  }

  lemma PaddedPrefixSpace(pre: string, x: string, post: string, a: nat)
    requires AllSpace(pre) && a <= |x| && SpaceIn(x, 0, a)
    ensures SpaceIn(pre + x + post, 0, |pre| + a)
  {
    var s := pre + x + post;
    forall k | 0 <= k < |pre| + a ensures IsSpace(s[k]) {
      if k < |pre| { assert s[k] == pre[k]; } else { assert s[k] == x[k - |pre|]; }
    }
  }

  lemma PaddedSuffixSpace(pre: string, x: string, post: string, b: nat)
    requires AllSpace(post) && b <= |x| && SpaceIn(x, b, |x|)
    ensures SpaceIn(pre + x + post, |pre| + b, |pre + x + post|)
  {
    var s := pre + x + post;
    forall k | |pre| + b <= k < |s| ensures IsSpace(s[k]) {
      if k < |pre| + |x| { assert s[k] == x[k - |pre|]; }
      else { assert s[k] == post[k - |pre| - |x|]; }
    }
  }

  /** Whitespace around a string does not change what `Strip` returns. */
  lemma StripIgnoresPadding(pre: string, x: string, post: string)
    requires AllSpace(pre) && AllSpace(post)
    ensures Strip(pre + x + post) == Strip(x)
  {
    var s := pre + x + post;
    var (a, b) := StripBounds(x);
    var i, j := |pre| + a, |pre| + b;
    assert s[i..j] == x[a..b];
    PaddedPrefixSpace(pre, x, post, a);
    PaddedSuffixSpace(pre, x, post, b);
    assert i < j ==> s[i] == x[a] && s[j - 1] == x[b - 1];
    assert Trimmed(s, i, j);
  }

  /** `Strip` applied twice is `Strip` applied once. */
  lemma StripIdempotent(s: string)
    ensures Strip(Strip(s)) == Strip(s)
  {
    StripEnds(s);
    StripOfTrimmed(Strip(s));
  }

  /** `str.lower()` on one character. Only the ASCII letters are folded. */
  function LowerChar(c: char): char {
    if 'A' <= c <= 'Z' then (c as int + 32) as char else c
  }

  /** `str.lower()` restricted to ASCII: each capital letter becomes its
      small letter, and every other character stays where it was. */
  function Lower(s: string): (r: string)
    ensures |r| == |s|
    ensures forall k :: 0 <= k < |r| ==> !('A' <= r[k] <= 'Z')
    ensures forall k :: 0 <= k < |s| && !('A' <= s[k] <= 'Z') ==> r[k] == s[k]
    ensures forall k :: 0 <= k < |s| && 'A' <= s[k] <= 'Z' ==> r[k] as int == s[k] as int + 32
  {
    seq(|s|, k requires 0 <= k < |s| => LowerChar(s[k]))
  }

  /** Lower-casing commutes with stripping, because folding a letter never
      turns a space into a non-space or the converse. */
  lemma StripLowerCommute(s: string)
    ensures Strip(Lower(s)) == Lower(Strip(s))
  {
    var t := Lower(s);
    var (a, b) := StripBounds(s);
    assert Lower(s[a..b]) == t[a..b];
    assert Trimmed(t, a, b);
  }

  /** Lower-casing twice is lower-casing once. */
  lemma LowerIdempotent(s: string)
    ensures Lower(Lower(s)) == Lower(s)
  {
  }

  /** How the registration form's email field is normalised:
      `.strip().lower()`. */
  function NormalizeEmail(s: string): (r: string)
    ensures |r| <= |s|
    ensures r == [] <==> AllSpace(s)
    ensures forall k :: 0 <= k < |r| ==> !('A' <= r[k] <= 'Z')
  {
    Lower(Strip(s))
  }

  /** Two emails that differ only in letter case and in surrounding
      whitespace normalise to the same string. */
  lemma EmailVariantsCollide(pre1: string, x: string, post1: string,
                             pre2: string, y: string, post2: string)
    requires AllSpace(pre1) && AllSpace(post1) && AllSpace(pre2) && AllSpace(post2)
    requires Lower(x) == Lower(y)
    ensures NormalizeEmail(pre1 + x + post1) == NormalizeEmail(pre2 + y + post2)
  {
    StripIgnoresPadding(pre1, x, post1);
    StripIgnoresPadding(pre2, y, post2);
    StripLowerCommute(x);
    StripLowerCommute(y);
  }

  /** Normalising an already normalised email changes nothing. */
  lemma NormalizeEmailIdempotent(s: string)
    ensures NormalizeEmail(NormalizeEmail(s)) == NormalizeEmail(s)
  {
    StripLowerCommute(Strip(s));
    StripIdempotent(s);
    LowerIdempotent(Strip(s));
  }
}
