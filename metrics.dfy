/** Measures of an edit script: the edit distance it stands for and the map from
    positions of the before-text to positions of the after-text. */
module Metrics {
  import opened Diffs

  function Max(a: nat, b: nat): nat
  {
    if a < b then b else a
  }

  /** Total length of the Delete texts. */
  function DelLen<T>(d: seq<Diff<T>>): nat
  {
    if d == [] then 0 else (if d[0].op == Delete then |d[0].text| else 0) + DelLen(d[1..])
  }

  /** Total length of the Insert texts. */
  function InsLen<T>(d: seq<Diff<T>>): nat
  {
    if d == [] then 0 else (if d[0].op == Insert then |d[0].text| else 0) + InsLen(d[1..])
  }

  /** No operation of `d` is an Equal. */
  predicate NoEquals<T>(d: seq<Diff<T>>)
  {
    forall i :: 0 <= i < |d| ==> d[i].op != Equal
  }

  /** The scan behind the edit distance: `ins` and `del` count the characters
      inserted and deleted since the last Equal; each Equal closes a run and adds
      the larger of the two. */
  function LevenshteinRun<T>(d: seq<Diff<T>>, ins: nat, del: nat): (r: nat)
    ensures Max(ins + InsLen(d), del + DelLen(d)) <= r <= ins + del + InsLen(d) + DelLen(d)
  {
    if d == [] then Max(ins, del)
    else match d[0].op
      case Insert => LevenshteinRun(d[1..], ins + |d[0].text|, del)
      case Delete => LevenshteinRun(d[1..], ins, del + |d[0].text|)
      case Equal => Max(ins, del) + LevenshteinRun(d[1..], 0, 0)
  }

  /** The number of inserted, deleted or substituted characters. */
  function Levenshtein<T>(d: seq<Diff<T>>): (r: nat)
    ensures Max(InsLen(d), DelLen(d)) <= r <= InsLen(d) + DelLen(d)
  {
    LevenshteinRun(d, 0, 0)
  }

  lemma {:induction false} RunBounds<T>(d: seq<Diff<T>>, ins: nat, del: nat)
    ensures Max(ins + InsLen(d), del + DelLen(d)) <= LevenshteinRun(d, ins, del)
    ensures LevenshteinRun(d, ins, del) <= ins + del + InsLen(d) + DelLen(d)
  {
    if d != [] {
      match d[0].op
      case Insert => RunBounds(d[1..], ins + |d[0].text|, del);
      case Delete => RunBounds(d[1..], ins, del + |d[0].text|);
      case Equal => RunBounds(d[1..], 0, 0);
    }
  }

  /** The distance is at least the larger of the deleted and inserted totals and
      at most their sum. */
  lemma LevenshteinBounds<T>(d: seq<Diff<T>>)
    ensures Max(InsLen(d), DelLen(d)) <= Levenshtein(d) <= InsLen(d) + DelLen(d)
  {
    RunBounds(d, 0, 0);
  }

  lemma {:induction false} RunNoEquals<T>(d: seq<Diff<T>>, ins: nat, del: nat)
    requires NoEquals(d)
    ensures LevenshteinRun(d, ins, del) == Max(ins + InsLen(d), del + DelLen(d))
  {
    if d != [] {
      assert d[0].op != Equal;
      assert NoEquals(d[1..]) by {
        forall i | 0 <= i < |d[1..]| ensures d[1..][i].op != Equal {
          assert d[1..][i] == d[i + 1];
        }
      }
      if d[0].op == Insert {
        RunNoEquals(d[1..], ins + |d[0].text|, del);
      } else {
        RunNoEquals(d[1..], ins, del + |d[0].text|);
      }
    }
  }

  /** A script without Equals is one run: its distance is the larger of what it
      deletes and what it inserts. */
  lemma LevenshteinOneRun<T>(d: seq<Diff<T>>)
    requires NoEquals(d)
    ensures Levenshtein(d) == Max(InsLen(d), DelLen(d))
  {
    RunNoEquals(d, 0, 0);
  }

  lemma {:induction false} RunSplit<T>(a: seq<Diff<T>>, t: seq<T>, b: seq<Diff<T>>, ins: nat, del: nat)
    ensures LevenshteinRun(a + [Diff(Equal, t)] + b, ins, del) == LevenshteinRun(a, ins, del) + Levenshtein(b)
  {
    var d := a + [Diff(Equal, t)] + b;
    if a == [] {
      assert d == [Diff(Equal, t)] + b;
      assert d[1..] == b;
    } else {
      assert d[0] == a[0];
      assert d[1..] == a[1..] + [Diff(Equal, t)] + b;
      match a[0].op
      case Insert => RunSplit(a[1..], t, b, ins + |a[0].text|, del);
      case Delete => RunSplit(a[1..], t, b, ins, del + |a[0].text|);
      case Equal => RunSplit(a[1..], t, b, 0, 0);
    }
  }

  /** An Equal separates independent runs: the distance of a script is the sum of
      the distances on either side of any of its Equals. */
  lemma LevenshteinSplit<T>(a: seq<Diff<T>>, t: seq<T>, b: seq<Diff<T>>)
    ensures Levenshtein(a + [Diff(Equal, t)] + b) == Levenshtein(a) + Levenshtein(b)
  {
    RunSplit(a, t, b, 0, 0);
  }

  lemma LevenshteinExamples()
    ensures Levenshtein([Diff(Delete, "abc"), Diff(Insert, "1234"), Diff(Equal, "xyz")]) == 4
    ensures Levenshtein([Diff(Equal, "xyz"), Diff(Delete, "abc"), Diff(Insert, "1234")]) == 4
    ensures Levenshtein([Diff(Delete, "abc"), Diff(Equal, "xyz"), Diff(Insert, "1234")]) == 7
  {
    var del, ins, eq := Diff(Delete, "abc"), Diff(Insert, "1234"), Diff(Equal, "xyz");
    assert LevenshteinRun([ins, eq], 0, 3) == 4 by {
      assert [ins, eq][1..] == [eq];
      assert LevenshteinRun([eq], 4, 3) == 4 + LevenshteinRun([eq][1..], 0, 0) by { assert [eq][1..] == []; }
    }
    assert [del, ins, eq][1..] == [ins, eq];
    assert LevenshteinRun([del, ins], 0, 0) == 4 by {
      assert [del, ins][1..] == [ins];
      assert [ins][1..] == [];
      assert LevenshteinRun([ins], 0, 3) == LevenshteinRun([ins][1..], 4, 3);
    }
    assert [eq, del, ins][1..] == [del, ins];
    assert LevenshteinRun([eq, ins], 0, 3) == 3 + LevenshteinRun([ins], 0, 0) by { assert [eq, ins][1..] == [ins]; }
    assert LevenshteinRun([ins], 0, 0) == 4 by { assert [ins][1..] == []; }
    assert [del, eq, ins][1..] == [eq, ins];
  }

  /** The scan behind `XIndex`: `c1` and `c2` are the lengths of the before- and
      after-text of the operations already passed. The scan stops at the first
      operation whose before-text reaches past `loc`; inside a Delete the position
      maps to where the deletion happened, otherwise it keeps its offset. */
  function XIndexFrom<T>(d: seq<Diff<T>>, loc: int, c1: nat, c2: nat): (r: int)
    ensures c1 <= loc ==> c2 <= r
  {
    if d == [] then c2 + (loc - c1)
    else
      var n1 := c1 + (if d[0].op != Insert then |d[0].text| else 0);
      var n2 := c2 + (if d[0].op != Delete then |d[0].text| else 0);
      if n1 > loc then
        if d[0].op == Delete then c2 else c2 + (loc - c1)
      else XIndexFrom(d[1..], loc, n1, n2)
  }

  /** Maps a position of the before-text to the matching position of the
      after-text: one inside the before-text lands inside the after-text or
      at its end. */
  function XIndex<T>(d: seq<Diff<T>>, loc: int): (r: int)
    ensures 0 <= loc ==> 0 <= r
    ensures 0 <= loc < |Text1(d)| ==> r <= |Text2(d)|
  {
    XIndexFromWithin(d, loc, 0, 0);
    XIndexFrom(d, loc, 0, 0)
  }

  /** The scan maps a position inside the before-text of the operations it
      has still to pass no further than the end of their after-text. */
  lemma {:induction false} XIndexFromWithin<T>(d: seq<Diff<T>>, loc: int, c1: nat, c2: nat)
    ensures c1 <= loc < c1 + |Text1(d)| ==> XIndexFrom(d, loc, c1, c2) <= c2 + |Text2(d)|
  {
    if d != [] && c1 <= loc < c1 + |Text1(d)| {
      var n1 := c1 + (if d[0].op != Insert then |d[0].text| else 0);
      var n2 := c2 + (if d[0].op != Delete then |d[0].text| else 0);
      assert |Text1(d)| == n1 - c1 + |Text1(d[1..])|;
      assert |Text2(d)| == n2 - c2 + |Text2(d[1..])|;
      if n1 <= loc {
        XIndexFromWithin(d[1..], loc, n1, n2);
      }
    }
  }

  lemma {:induction false} XIndexFromInside<T>(a: seq<Diff<T>>, x: Diff<T>, b: seq<Diff<T>>, loc: int, c1: nat, c2: nat)
    requires x.op != Insert
    requires c1 + |Text1(a)| <= loc < c1 + |Text1(a)| + |x.text|
    ensures XIndexFrom(a + [x] + b, loc, c1, c2)
      == c2 + |Text2(a)| + (if x.op == Delete then 0 else loc - c1 - |Text1(a)|)
  {
    var d := a + [x] + b;
    if a == [] {
      assert d[0] == x;
    } else {
      var k1 := if a[0].op != Insert then |a[0].text| else 0;
      var k2 := if a[0].op != Delete then |a[0].text| else 0;
      assert |Text1(a)| == k1 + |Text1(a[1..])|;
      assert |Text2(a)| == k2 + |Text2(a[1..])|;
      assert d[0] == a[0];
      assert d[1..] == a[1..] + [x] + b;
      XIndexFromInside(a[1..], x, b, loc, c1 + k1, c2 + k2);
    }
  }

  lemma {:induction false} XIndexFromPast<T>(d: seq<Diff<T>>, loc: int, c1: nat, c2: nat)
    requires c1 + |Text1(d)| <= loc
    ensures XIndexFrom(d, loc, c1, c2) == c2 + |Text2(d)| + (loc - c1 - |Text1(d)|)
  {
    if d != [] {
      var n1 := c1 + (if d[0].op != Insert then |d[0].text| else 0);
      var n2 := c2 + (if d[0].op != Delete then |d[0].text| else 0);
      XIndexFromPast(d[1..], loc, n1, n2);
    }
  }

  /** Indexing into the middle part of a three-way concatenation. */
  lemma IndexMiddle<T>(p: seq<T>, t: seq<T>, q: seq<T>, i: nat)
    requires i < |t|
    ensures |p| + i < |p + t + q| && (p + t + q)[|p| + i] == t[i]
  {
  }

  /** A position inside an Equal keeps its offset: it lands on the same
      character of the after-text. */
  lemma XIndexEqual<T>(a: seq<Diff<T>>, t: seq<T>, b: seq<Diff<T>>, loc: int)
    requires |Text1(a)| <= loc < |Text1(a)| + |t|
    ensures var d := a + [Diff(Equal, t)] + b;
      var r := XIndex(d, loc);
      r == |Text2(a)| + (loc - |Text1(a)|) && loc < |Text1(d)| && 0 <= r < |Text2(d)|
        && Text2(d)[r] == Text1(d)[loc]
  {
    var x := Diff(Equal, t);
    var d := a + [x] + b;
    var i := loc - |Text1(a)|;
    TextsSingle(x);
    TextsAppend(a, [x]);
    TextsAppend(a + [x], b);
    IndexMiddle(Text1(a), t, Text1(b), i);
    IndexMiddle(Text2(a), t, Text2(b), i);
    XIndexFromInside(a, x, b, loc, 0, 0);
  }

  /** A position inside a Delete maps to the place of the deletion in the
      after-text. */
  lemma XIndexDelete<T>(a: seq<Diff<T>>, t: seq<T>, b: seq<Diff<T>>, loc: int)
    requires |Text1(a)| <= loc < |Text1(a)| + |t|
    ensures XIndex(a + [Diff(Delete, t)] + b, loc) == |Text2(a)|
  {
    XIndexFromInside(a, Diff(Delete, t), b, loc, 0, 0);
  }

  /** A position at or past the end of the before-text keeps its distance from
      the end. */
  lemma XIndexPast<T>(d: seq<Diff<T>>, loc: int)
    requires |Text1(d)| <= loc
    ensures XIndex(d, loc) == |Text2(d)| + (loc - |Text1(d)|)
  {
    XIndexFromPast(d, loc, 0, 0);
  }

  lemma XIndexExamples()
    ensures XIndex([Diff(Delete, "a"), Diff(Insert, "1234"), Diff(Equal, "xyz")], 2) == 5
    ensures XIndex([Diff(Equal, "a"), Diff(Delete, "1234"), Diff(Equal, "xyz")], 3) == 1
  {
  }
}
