/** The efficiency cleanup (`diff_cleanupEfficiency`): a short equality that
    sits between edits costs more to keep than to fold into them. The scan
    keeps a stack of candidate equalities; when one is to go, it becomes a
    deletion followed by an insertion of its text, and the scan either goes
    on or backs up to the candidate before it. If anything changed, the
    merge cleanup runs on the result. This module states the scan one step
    at a time; `Script.EditScript.CleanupEfficiency` runs it in place. */
module Efficiency {
  import opened Diffs
  import opened Merges

  /** The scan's variables between two rounds of its loop.
      `equalities` is the stack of candidate positions and `count` its
      height; the height can fall below zero, and the slots it then writes
      (at negative keys) are read back, so the stack is a map from int.
      `last` is the text of the last candidate; the empty text stands both
      for "no candidate" and for an empty candidate, which the scan treats
      alike (both are false in its test). */
  datatype Scan<T> = Scan(diffs: seq<Diff<T>>, pointer: int, equalities: map<int, nat>, count: int,
                          last: seq<T>, preIns: bool, preDel: bool, postIns: bool, postDel: bool,
                          changes: bool)

  /** What holds at the head of the scan's loop: the pointer is in range,
      every stacked position is an index, every slot below the height has
      been written, and a live candidate is the equality on top of the stack. */
  predicate Valid<T(==)>(s: Scan<T>)
  {
    && 0 <= s.pointer <= |s.diffs|
    && (forall k :: k in s.equalities ==> s.equalities[k] < |s.diffs|)
    && (forall k :: 0 <= k < s.count ==> k in s.equalities)
    && (s.last != [] ==> s.count - 1 in s.equalities && s.diffs[s.equalities[s.count - 1]] == Diff(Equal, s.last))
  }

  /** The scan before its first round. */
  function Start<T(==)>(d: seq<Diff<T>>): (s: Scan<T>)
    ensures Valid(s) && s.diffs == d && !s.changes && s.last == []
  {
    Scan(d, 0, map[], 0, [], false, false, false, false, false)
  }

  /** How many of four flags are set. */
  function Ones(a: bool, b: bool, c: bool, d: bool): nat
  {
    (if a then 1 else 0) + (if b then 1 else 0) + (if c then 1 else 0) + (if d then 1 else 0)
  }

  /** The equality at `e` turned into a deletion of its text followed by an
      insertion of it: a copy of the element is put before it as a deletion
      and the element itself becomes an insertion. */
  function Splice<T(==)>(d: seq<Diff<T>>, e: nat): seq<Diff<T>>
    requires e < |d|
  {
    d[..e] + [Diff(Delete, d[e].text), Diff(Insert, d[e].text)] + d[e + 1..]
  }

  /** Replacing a middle part by one with the same texts and one equality
      fewer does the same to the whole. */
  lemma SwapMiddle<T>(a: seq<Diff<T>>, m1: seq<Diff<T>>, m2: seq<Diff<T>>, b: seq<Diff<T>>)
    requires Text1(m1) == Text1(m2) && Text2(m1) == Text2(m2) && CountEquals(m1) == CountEquals(m2) + 1
    ensures Text1(a + m1 + b) == Text1(a + m2 + b) && Text2(a + m1 + b) == Text2(a + m2 + b)
    ensures CountEquals(a + m1 + b) == CountEquals(a + m2 + b) + 1
  {
    TextsAppend(a, m1);
    TextsAppend(a + m1, b);
    TextsAppend(a, m2);
    TextsAppend(a + m2, b);
    CountsAppend(a, m1);
    CountsAppend(a + m1, b);
    CountsAppend(a, m2);
    CountsAppend(a + m2, b);
  }

  /** An equality and the deletion and insertion of its text carry the same texts. */
  lemma SplitPair<T>(x: Diff<T>)
    requires x.op == Equal
    ensures var p := [Diff(Delete, x.text), Diff(Insert, x.text)];
            Text1(p) == Text1([x]) && Text2(p) == Text2([x]) && CountEquals([x]) == CountEquals(p) + 1
  {
    var p := [Diff(Delete, x.text), Diff(Insert, x.text)];
    assert p == [p[0]] + [p[1]];
    TextsAppend([p[0]], [p[1]]);
    CountsAppend([p[0]], [p[1]]);
    TextsSingle(x);
    TextsSingle(p[0]);
    TextsSingle(p[1]);
  }

  /** Splitting an equality keeps both texts and removes one equality. */
  lemma SpliceTexts<T>(d: seq<Diff<T>>, e: nat)
    requires e < |d| && d[e].op == Equal
    ensures Text1(Splice(d, e)) == Text1(d) && Text2(Splice(d, e)) == Text2(d)
    ensures CountEquals(Splice(d, e)) + 1 == CountEquals(d)
    ensures |Splice(d, e)| == |d| + 1
  {
    var a, b, x := d[..e], d[e + 1..], d[e];
    assert d == a + [x] + b;
    SplitPair(x);
    SwapMiddle(a, [x], [Diff(Delete, x.text), Diff(Insert, x.text)], b);
  }

  /** The split of the candidate on top of the stack, and what the scan does
      next: when the run before the candidate held both kinds of edit nothing
      before it can change, so the scan goes on; otherwise it backs up to
      the candidate below, or to the start. */
  function Split<T(==)>(s: Scan<T>, postIns: bool, postDel: bool): (r: Scan<T>)
    requires Valid(s) && s.last != [] && s.pointer < |s.diffs|
    ensures Valid(r) && r.changes
    ensures Text1(r.diffs) == Text1(s.diffs) && Text2(r.diffs) == Text2(s.diffs)
    ensures CountEquals(r.diffs) + 1 == CountEquals(s.diffs)
  {
    SpliceTexts(s.diffs, s.equalities[s.count - 1]);
    var d := Splice(s.diffs, s.equalities[s.count - 1]);
    var count := s.count - 1;
    if s.preIns && s.preDel then
      s.(diffs := d, count := 0, last := [], postIns := true, postDel := true,
         pointer := s.pointer + 1, changes := true)
    else
      var count' := count - 1;
      s.(diffs := d, count := count', last := [], postIns := false, postDel := false,
         pointer := (if count' > 0 then s.equalities[count' - 1] else -1) + 1, changes := true)
  }

  /** One round of the scan's loop at `s.pointer`, `cost` being the edit cost. */
  function Step<T(==)>(s: Scan<T>, cost: nat): (r: Scan<T>)
    requires Valid(s) && s.pointer < |s.diffs|
    ensures Advances(s, r)
  {
    var x := s.diffs[s.pointer];
    if x.op == Equal then
      if |x.text| < cost && (s.postIns || s.postDel) then
        s.(equalities := s.equalities[s.count := s.pointer], count := s.count + 1,
           preIns := s.postIns, preDel := s.postDel, last := x.text,
           postIns := false, postDel := false, pointer := s.pointer + 1)
      else
        s.(count := 0, last := [], postIns := false, postDel := false, pointer := s.pointer + 1)
    else
      var postIns := s.postIns || x.op == Insert;
      var postDel := s.postDel || x.op == Delete;
      if s.last != [] && ((s.preIns && s.preDel && postIns && postDel)
                          || (2 * |s.last| < cost && Ones(s.preIns, s.preDel, postIns, postDel) == 3))
      then SplitFacts(s, postIns, postDel); Split(s, postIns, postDel)
      else EditFacts(s, postIns, postDel); s.(postIns := postIns, postDel := postDel, pointer := s.pointer + 1)
  }

  /** What one round achieves: the invariant holds again, both texts are as
      they were, and either the pointer moved forward over an unchanged
      script or an equality was split and `changes` set. */
  predicate Advances<T(==)>(s: Scan<T>, r: Scan<T>)
  {
    && Valid(r) && Text1(r.diffs) == Text1(s.diffs) && Text2(r.diffs) == Text2(s.diffs)
    && if r.diffs == s.diffs then r.pointer == s.pointer + 1 && r.changes == s.changes
       else r.changes && CountEquals(r.diffs) < CountEquals(s.diffs)
  }

  /** A split keeps the loop's invariant and both texts, and removes an equality. */
  lemma SplitFacts<T>(s: Scan<T>, postIns: bool, postDel: bool)
    requires Valid(s) && s.last != [] && s.pointer < |s.diffs|
    ensures Advances(s, Split(s, postIns, postDel))
  {
    var e := s.equalities[s.count - 1];
    SpliceTexts(s.diffs, e);
    if !(s.preIns && s.preDel) {
      var count' := s.count - 2;
      assert count' > 0 ==> count' - 1 in s.equalities;
    }
    assert |Split(s, postIns, postDel).diffs| != |s.diffs|;
  }

  /** A round at an edit that splits nothing only notes the edit's kind. */
  lemma EditFacts<T>(s: Scan<T>, postIns: bool, postDel: bool)
    requires Valid(s) && s.pointer < |s.diffs|
    ensures Advances(s, s.(postIns := postIns, postDel := postDel, pointer := s.pointer + 1))
  {
  }

  /** The scan run to its end. */
  function Run<T(==)>(s: Scan<T>, cost: nat): (r: Scan<T>)
    requires Valid(s)
    ensures Valid(r) && r.pointer >= |r.diffs|
    decreases CountEquals(s.diffs), |s.diffs| - s.pointer
  {
    if s.pointer >= |s.diffs| then s
    else
      Run(Step(s, cost), cost)
  }

  /** The whole cleanup: the scan, and then the merge cleanup when the scan
      split an equality. */
  function Cleanup<T(==)>(d: seq<Diff<T>>, cost: nat): (r: seq<Diff<T>>)
    ensures Text1(r) == Text1(d) && Text2(r) == Text2(d)
  {
    RunTexts(Start(d), cost);
    var s := Run(Start(d), cost);
    if s.changes then Merge(s.diffs) else s.diffs
  }

  /** The scan keeps both texts; if it never splits, the script is as it was. */
  lemma {:induction false} RunTexts<T>(s: Scan<T>, cost: nat)
    requires Valid(s)
    ensures Text1(Run(s, cost).diffs) == Text1(s.diffs) && Text2(Run(s, cost).diffs) == Text2(s.diffs)
    ensures s.changes ==> Run(s, cost).changes
    ensures !Run(s, cost).changes ==> Run(s, cost).diffs == s.diffs
    decreases CountEquals(s.diffs), |s.diffs| - s.pointer
  {
    if s.pointer < |s.diffs| {
      RunTexts(Step(s, cost), cost);
    }
  }

  /** The efficiency cleanup keeps the before-text and the after-text. */
  lemma CleanupTexts<T>(d: seq<Diff<T>>, cost: nat)
    ensures Text1(Cleanup(d, cost)) == Text1(d) && Text2(Cleanup(d, cost)) == Text2(d)
  {
    var s := Run(Start(d), cost);
    RunTexts(Start(d), cost);
    if s.changes {
      MergeTexts(s.diffs);
    }
  }

  /** The cleanup either leaves the script as it is, or leaves it in the
      shape the merge cleanup produces: no two neighbours of one kind that
      could be joined, and no edit that could slide into the equality beside it. */
  lemma CleanupShape<T>(d: seq<Diff<T>>, cost: nat)
    ensures var r := Cleanup(d, cost); r == d || (Coalesced(r) && Settled(r))
  {
    var s := Run(Start(d), cost);
    RunTexts(Start(d), cost);
    if s.changes {
      MergeShape(s.diffs);
    }
  }

  /** Every equality of the script is at least `cost` long. */
  predicate LongEqualities<T(==)>(d: seq<Diff<T>>, cost: nat)
  {
    forall i :: 0 <= i < |d| && d[i].op == Equal ==> |d[i].text| >= cost
  }

  /** Without a short equality no candidate is ever stacked, so nothing splits. */
  lemma {:induction false} RunLong<T>(s: Scan<T>, cost: nat)
    requires Valid(s) && LongEqualities(s.diffs, cost) && s.last == [] && !s.changes
    ensures Run(s, cost).diffs == s.diffs && !Run(s, cost).changes
    decreases |s.diffs| - s.pointer
  {
    if s.pointer < |s.diffs| {
      var r := Step(s, cost);
      assert r == s.(count := r.count, last := [], postIns := r.postIns, postDel := r.postDel,
                     pointer := s.pointer + 1);
      RunLong(r, cost);
    }
  }

  /** Equalities the edit cost does not exceed are kept: a script whose
      equalities are all that long comes back unchanged. */
  lemma CleanupLong<T>(d: seq<Diff<T>>, cost: nat)
    requires LongEqualities(d, cost)
    ensures Cleanup(d, cost) == d
  {
    RunLong(Start(d), cost);
  }
}
