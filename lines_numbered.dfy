/** The tokenizer on texts of many numbered lines: however many distinct lines
    there are, they get the ids 1, 2, 3, ... in order, with no wrap-around, and
    the expansion gives every text back. */
module NumberedLines {
  import opened Diffs
  import opened Lines
  import Delta
  import LinesExamples

  /** The line that carries the decimal numeral of `i`. */
  function NumLine(i: nat): string
  {
    Delta.NatToString(i) + "\n"
  }

  /** The lines of the numbers `lo`, `lo + 1`, ..., `lo + n - 1`. */
  function Numbered(lo: nat, n: nat): (r: seq<string>)
    ensures |r| == n
    ensures forall k :: 0 <= k < n ==> r[k] == NumLine(lo + k)
    decreases n
  {
    if n == 0 then [] else [NumLine(lo)] + Numbered(lo + 1, n - 1)
  }

  /** The ids `lo`, `lo + 1`, ..., `lo + n - 1`. */
  function Range(lo: nat, n: nat): (r: seq<nat>)
    ensures |r| == n
    ensures forall k :: 0 <= k < n ==> r[k] == lo + k
    decreases n
  {
    if n == 0 then [] else [lo] + Range(lo + 1, n - 1)
  }

  /** A line: not empty, and ending with its only line break. */
  predicate IsLine(l: string)
  {
    l != [] && l[|l| - 1] == '\n' && '\n' !in l[..|l| - 1]
  }

  /** Lines joined together split back into the same lines. */
  lemma {:induction false} SplitConcat(ls: seq<string>)
    requires forall i :: 0 <= i < |ls| ==> IsLine(ls[i])
    ensures SplitLines(Concat(ls)) == ls
  {
    if ls != [] {
      SplitConcat(ls[1..]);
      LinesExamples.LineThen(ls[0], Concat(ls[1..]));
      assert [ls[0]] + ls[1..] == ls;
    }
  }

  lemma {:induction false} DigitsNoBreak(s: string)
    requires Delta.DigitRun(s) == |s|
    ensures '\n' !in s
  {
    if s != [] {
      DigitsNoBreak(s[1..]);
      assert s == [s[0]] + s[1..];
    }
  }

  lemma NumLineIsLine(i: nat)
    ensures IsLine(NumLine(i))
  {
    var s := Delta.NatToString(i);
    Delta.NatToStringDigits(i);
    DigitsNoBreak(s);
    assert NumLine(i)[..|NumLine(i)| - 1] == s;
  }

  /** Different numbers have different lines. */
  lemma NumLineInjective(i: nat, j: nat)
    requires NumLine(i) == NumLine(j)
    ensures i == j
  {
    var a, b := Delta.NatToString(i), Delta.NatToString(j);
    assert a == NumLine(i)[..|NumLine(i)| - 1];
    assert b == NumLine(j)[..|NumLine(j)| - 1];
    Delta.DigitsOfNat(i);
    Delta.DigitsOfNat(j);
  }

  lemma NumberedFacts(lo: nat, n: nat)
    ensures Distinct(Numbered(lo, n))
    ensures forall k :: 0 <= k < n ==> IsLine(Numbered(lo, n)[k])
  {
    var r := Numbered(lo, n);
    forall i, j | 0 <= i < j < n ensures r[i] != r[j] {
      if r[i] == r[j] {
        NumLineInjective(lo + i, lo + j);
      }
    }
    forall k | 0 <= k < n ensures IsLine(r[k]) {
      NumLineIsLine(lo + k);
    }
  }

  /** Distinct lines none of which is in the table yet get the next ids in
      order, and are appended to the table in that order. */
  lemma {:induction false} MungeDistinct(arr: seq<string>, ls: seq<string>)
    requires Distinct(ls)
    requires forall k :: 0 <= k < |ls| ==> ls[k] !in arr
    ensures Munge(arr, ls) == (Range(|arr|, |ls|), arr + ls)
    decreases |ls|
  {
    if ls == [] {
      assert arr + ls == arr;
    } else {
      var x, rest := ls[0], ls[1..];
      forall k | 0 <= k < |rest| ensures rest[k] !in arr + [x] {
        assert rest[k] == ls[k + 1];
      }
      forall i, j | 0 <= i < j < |rest| ensures rest[i] != rest[j] {
        assert rest[i] == ls[i + 1] && rest[j] == ls[j + 1];
      }
      MungeDistinct(arr + [x], rest);
      LinesExamples.MungeNew(arr, x, rest);
      assert [x] + rest == ls;
      assert (arr + [x]) + rest == arr + ls;
      assert |arr + [x]| == |arr| + 1;
      assert Range(|arr|, |ls|) == [|arr|] + Range(|arr| + 1, |rest|);
    }
  }

  /** The lines of 1, 2, ..., n, each with its break, against an empty text:
      line k gets id k, and the table is the empty entry followed by the
      lines. For n = 300 the ids pass 255, for larger n they pass 65535;
      nothing wraps. */
  lemma TokenizeNumbered(n: nat)
    ensures Tokenize(Concat(Numbered(1, n)), "") == Tokens(Range(1, n), [], [""] + Numbered(1, n))
  {
    var ls := Numbered(1, n);
    NumberedFacts(1, n);
    SplitConcat(ls);
    MungeDistinct([""], ls);
    assert SplitLines("") == [];
    assert Munge([""] + ls, []) == ([], [""] + ls);
  }

  /** The ids 1, ..., n of a deletion, against that table, expand to the
      numbered lines joined. */
  lemma ExpandNumbered(n: nat)
    ensures ExpandDiffs([Diff(Delete, Range(1, n))], [""] + Numbered(1, n))
         == [Diff(Delete, Concat(Numbered(1, n)))]
  {
    var ids: seq<nat>, ls := Range(1, n), Numbered(1, n);
    var t := [""] + ls;
    forall i | 0 <= i < n ensures ids[i] < |t| && t[ids[i]] == ls[i] {
      assert ids[i] == 1 + i;
      assert t[1 + i] == ls[i];
    }
    ExpandIds(ids, ls, t);
    var d: seq<Diff<nat>> := [Diff(Delete, ids)];
    assert d[1..] == [];
    assert ExpandDiffs(d, t) == [Diff(Delete, Expand(ids, t))] + ExpandDiffs([], t);
  }

  /** A text tokenized against an empty text, its ids put in an insertion and
      expanded, gives the text back; in particular the lines of 0, ..., n - 1
      for any n. */
  lemma InsertRoundTrip(text: string)
    ensures var r := Tokenize(text, "");
      ExpandDiffs([Diff(Insert, r.chars1)], r.lineArray) == [Diff(Insert, text)]
  {
    var r := Tokenize(text, "");
    TokenizeRoundTrip(text, "");
    assert [Diff(Insert, r.chars1)][1..] == [];
  }
}
