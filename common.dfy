/** Sequence primitives: the longest shared leading run, trailing run, the
    suffix/prefix overlap, and the line-aligned variants of the first two. */
module Common {

  /** Length of the longest common prefix of `a` and `b`. */
  function CommonPrefix<T(==)>(a: seq<T>, b: seq<T>): (r: nat)
    ensures r <= |a| && r <= |b|
    ensures a[..r] == b[..r]
    ensures r == |a| || r == |b| || a[r] != b[r]
  {
    if |a| == 0 || |b| == 0 || a[0] != b[0] then 0
    else
      var k := CommonPrefix(a[1..], b[1..]);
      assert a[..k + 1] == [a[0]] + a[1..][..k];
      assert b[..k + 1] == [b[0]] + b[1..][..k];
      k + 1
  }

  /** Length of the longest common suffix of `a` and `b`. */
  function CommonSuffix<T(==)>(a: seq<T>, b: seq<T>): (r: nat)
    ensures r <= |a| && r <= |b|
    ensures a[|a| - r..] == b[|b| - r..]
    ensures r == |a| || r == |b| || a[|a| - r - 1] != b[|b| - r - 1]
  {
    if |a| == 0 || |b| == 0 || a[|a| - 1] != b[|b| - 1] then 0
    else
      var a', b' := a[..|a| - 1], b[..|b| - 1];
      var k := CommonSuffix(a', b');
      SuffixGrow(a, k);
      SuffixGrow(b, k);
      k + 1
  }

  /** The last `k + 1` elements of `s` are the last `k` of `s` without its
      last element, then that element. */
  lemma SuffixGrow<T>(s: seq<T>, k: nat)
    requires k < |s|
    ensures s[|s| - (k + 1)..] == s[..|s| - 1][|s| - 1 - k..] + [s[|s| - 1]]
  {
  }

  /** `k` characters at the end of `a` are the same as the first `k` of `b`. */
  predicate IsOverlap<T(==)>(a: seq<T>, b: seq<T>, k: nat)
  {
    k <= |a| && k <= |b| && a[|a| - k..] == b[..k]
  }

  /** The largest overlap of length at most `k`. */
  function OverlapUpTo<T(==)>(a: seq<T>, b: seq<T>, k: nat): (r: nat)
    requires k <= |a| && k <= |b|
    ensures r <= k && IsOverlap(a, b, r)
    ensures forall n :: r < n <= k ==> !IsOverlap(a, b, n)
  {
    if k == 0 || IsOverlap(a, b, k) then k
    else OverlapUpTo(a, b, k - 1)
  }

  /** Length of the longest suffix of `a` that is also a prefix of `b`; elements
      are compared exactly, so no two distinct characters are ever equivalent. */
  function CommonOverlap<T(==)>(a: seq<T>, b: seq<T>): (r: nat)
    ensures IsOverlap(a, b, r)
    ensures forall n :: r < n ==> !IsOverlap(a, b, n)
  {
    OverlapUpTo(a, b, if |a| < |b| then |a| else |b|)
  }

  /** The largest cut `L <= k` right after a line break of `s`, or 0. */
  function LastLineCut(s: string, k: nat): (r: nat)
    requires k <= |s|
    ensures r <= k
    ensures r == 0 || s[r - 1] == '\n'
    ensures forall i :: r <= i < k ==> s[i] != '\n'
  {
    if k == 0 then 0
    else if s[k - 1] == '\n' then k
    else LastLineCut(s, k - 1)
  }

  /** The largest `L <= k` such that the last `L` characters of `s` start with a
      line break, or 0. */
  function FirstLineCut(s: string, k: nat): (r: nat)
    requires k <= |s|
    ensures r <= k
    ensures r == 0 || s[|s| - r] == '\n'
    ensures forall i :: |s| - k <= i < |s| - r ==> s[i] != '\n'
  {
    if k == 0 then 0
    else if s[|s| - k] == '\n' then k
    else FirstLineCut(s, k - 1)
  }

  /** The raw common prefix covers the whole shorter text and the longer text
      continues with a line break (or ends too). */
  predicate WholePrefixAccepted(a: string, b: string)
  {
    var raw := CommonPrefix(a, b);
    (raw == |a| || a[raw] == '\n') && (raw == |b| || b[raw] == '\n')
  }

  /** The raw common suffix covers the whole shorter text and the longer text
      has a line break (or nothing) just before it. */
  predicate WholeSuffixAccepted(a: string, b: string)
  {
    var raw := CommonSuffix(a, b);
    (raw == |a| || a[|a| - raw - 1] == '\n') && (raw == |b| || b[|b| - raw - 1] == '\n')
  }

  /** The common prefix, cut back so that it ends with a line break; a common
      prefix that is the whole shorter text is kept when the longer text goes on
      with a line break. */
  function CommonPrefixNewLine(a: string, b: string): (r: nat)
    ensures r <= CommonPrefix(a, b) && a[..r] == b[..r]
  {
    var raw := CommonPrefix(a, b);
    var r := if WholePrefixAccepted(a, b) then raw else LastLineCut(a, raw);
    SharedHead(a, b, raw, r);
    r
  }

  /** A shorter part of a shared prefix is shared too. */
  lemma SharedHead(a: string, b: string, k: nat, r: nat)
    requires r <= k <= |a| && k <= |b| && a[..k] == b[..k]
    ensures a[..r] == b[..r]
  {
    assert a[..r] == a[..k][..r];
    assert b[..r] == b[..k][..r];
  }

  /** The common suffix, cut back so that it starts with a line break; a common
      suffix that is the whole shorter text is kept when the longer text has a
      line break just before it. */
  function CommonSuffixNewLine(a: string, b: string): (r: nat)
    ensures r <= CommonSuffix(a, b) && a[|a| - r..] == b[|b| - r..]
  {
    var raw := CommonSuffix(a, b);
    var r := if WholeSuffixAccepted(a, b) then raw else FirstLineCut(a, raw);
    SharedTail(a, b, raw, r);
    r
  }

  /** A shorter part of a shared suffix is shared too. */
  lemma SharedTail(a: string, b: string, k: nat, r: nat)
    requires r <= k <= |a| && k <= |b| && a[|a| - k..] == b[|b| - k..]
    ensures a[|a| - r..] == b[|b| - r..]
  {
    assert a[|a| - r..] == a[|a| - k..][k - r..];
    assert b[|b| - r..] == b[|b| - k..][k - r..];
  }

  /** The line-aligned prefix is the whole common prefix when that is
      accepted, and otherwise the last line break inside the common prefix (or
      nothing, when there is none). */
  lemma PrefixNewLineCut(a: string, b: string)
    ensures var r := CommonPrefixNewLine(a, b);
      (WholePrefixAccepted(a, b) ==> r == CommonPrefix(a, b)) &&
      (!WholePrefixAccepted(a, b) ==>
        (r == 0 || a[r - 1] == '\n') && forall i :: r <= i < CommonPrefix(a, b) ==> a[i] != '\n')
  {
  }

  /** The line-aligned suffix is the whole common suffix when that is
      accepted, and otherwise starts at the first line break inside the common
      suffix (or is empty, when there is none). */
  lemma SuffixNewLineCut(a: string, b: string)
    ensures var r := CommonSuffixNewLine(a, b);
      (WholeSuffixAccepted(a, b) ==> r == CommonSuffix(a, b)) &&
      (!WholeSuffixAccepted(a, b) ==>
        (r == 0 || a[|a| - r] == '\n') && forall i :: |a| - CommonSuffix(a, b) <= i < |a| - r ==> a[i] != '\n')
  {
  }

  /** The values the sequence primitives give on the documented examples. */
  lemma CommonExamples()
    ensures CommonPrefix("abc", "xyz") == 0
    ensures CommonPrefix("1234abcdef", "1234xyz") == 4
    ensures CommonPrefix("1234", "1234xyz") == 4
    ensures CommonSuffix("abc", "xyz") == 0
    ensures CommonSuffix("abcdef1234", "xyz1234") == 4
    ensures CommonSuffix("1234", "xyz1234") == 4
  {
  }

  lemma OverlapExamples()
    ensures CommonOverlap("", "abcd") == 0
    ensures CommonOverlap("abc", "abcd") == 3
  {
  }

  /** An overlap of `a` and `b` is at most `m` when no element of `b` past the
      first `m` equals the last element of `a`. */
  lemma {:induction false} OverlapBelow<T>(a: seq<T>, b: seq<T>, m: nat)
    requires |a| > 0
    requires forall i :: m <= i < |b| ==> b[i] != a[|a| - 1]
    ensures CommonOverlap(a, b) <= m
  {
    forall n | m < n ensures !IsOverlap(a, b, n) {
      if n <= |a| && n <= |b| {
        assert a[|a| - n..][n - 1] == a[|a| - 1];
        assert b[..n][n - 1] == b[n - 1];
      }
    }
  }

  lemma OverlapNoneExample()
    ensures CommonOverlap("123456", "abcd") == 0
  {
    OverlapBelow("123456", "abcd", 0);
  }

  lemma OverlapSomeExample()
    ensures CommonOverlap("123456xxx", "xxxabcd") == 3
  {
    OverlapBelow("123456xxx", "xxxabcd", 3);
    assert IsOverlap("123456xxx", "xxxabcd", 3);
  }

  /** Characters are compared exactly: a ligature is not its component letters. */
  lemma OverlapLigatureExample()
    ensures CommonOverlap("fi", "\U{fb01}i") == 0
  {
    var a, b := "fi", "\U{fb01}i";
    forall n | 0 < n ensures !IsOverlap(a, b, n) {
      if n == 1 {
        assert a[1..][0] == 'i' && b[..1][0] == '\U{fb01}';
      } else if n == 2 {
        assert a[0..][0] == 'f' && b[..2][0] == '\U{fb01}';
      }
    }
  }

  lemma PrefixNewLineNullExample()
    ensures CommonPrefixNewLine("abc", "abx") == 0
  {
    assert CommonPrefix("abc", "abx") == 2;
  }

  lemma PrefixNewLineExample()
    ensures CommonPrefixNewLine("12\n34abcdef", "12\n34xyz") == 3
  {
    assert CommonPrefix("12\n34abcdef", "12\n34xyz") == 5;
  }

  lemma PrefixNewLineMultipleExample()
    ensures CommonPrefixNewLine("12\n34\n1abcdef", "12\n34\n1xyz") == 6
  {
    assert CommonPrefix("12\n34\n1abcdef", "12\n34\n1xyz") == 7;
  }

  lemma PrefixNewLineWholeExample()
    ensures CommonPrefixNewLine("1234", "1234\nxyz") == 4
  {
    assert CommonPrefix("1234", "1234\nxyz") == 4;
  }

  lemma PrefixNewLineWholeRejectedExample()
    ensures CommonPrefixNewLine("1234", "12345\nxyz") == 0
  {
    assert CommonPrefix("1234", "12345\nxyz") == 4;
  }

  lemma SuffixNewLineNullExample()
    ensures CommonSuffixNewLine("abc", "xbc") == 0
  {
    assert CommonSuffix("abc", "xbc") == 2;
  }

  lemma SuffixNewLineExample()
    ensures CommonSuffixNewLine("abcdef12\n34", "xyz12\n34") == 3
  {
    assert CommonSuffix("abcdef12\n34", "xyz12\n34") == 5;
  }

  lemma SuffixNewLineMultipleExample()
    ensures CommonSuffixNewLine("abcdef1\n12\n34", "xyz1\n12\n34") == 6
  {
    assert CommonSuffix("abcdef1\n12\n34", "xyz1\n12\n34") == 7;
  }

  lemma SuffixNewLineWholeExample()
    ensures CommonSuffixNewLine("1234", "xyz\n1234") == 4
  {
    assert CommonSuffix("1234", "xyz\n1234") == 4;
  }

  lemma SuffixNewLineWholeRejectedExample()
    ensures CommonSuffixNewLine("1234", "xyz\n01234") == 0
  {
    assert CommonSuffix("1234", "xyz\n01234") == 4;
  }
}
