/** The efficiency cleanup on small scripts, with edit cost 4. */
module EfficiencyExamples {
  import opened Diffs
  import opened Common
  import opened Merges
  import opened Efficiency

  /** The empty script stays empty. */
  lemma NullCase()
    ensures Cleanup<char>([], 4) == []
  {
    CleanupLong<char>([], 4);
  }

  /** An equality as long as the edit cost is kept. */
  lemma NoElimination()
    ensures var d := [Diff(Delete, "ab"), Diff(Insert, "12"), Diff(Equal, "wxyz"), Diff(Delete, "cd"), Diff(Insert, "34")];
            Cleanup(d, 4) == d
  {
    var d := [Diff(Delete, "ab"), Diff(Insert, "12"), Diff(Equal, "wxyz"), Diff(Delete, "cd"), Diff(Insert, "34")];
    assert LongEqualities(d, 4);
    CleanupLong(d, 4);
  }

  /** A script with an equality `x` between a deletion and an insertion on
      each side. */
  function Around(a: string, b: string, x: string, c: string, e: string): seq<Diff<char>>
  {
    [Diff(Delete, a), Diff(Insert, b), Diff(Equal, x), Diff(Delete, c), Diff(Insert, e)]
  }

  /** `Around` once its equality is split. */
  function AroundSplit(a: string, b: string, x: string, c: string, e: string): seq<Diff<char>>
  {
    [Diff(Delete, a), Diff(Insert, b), Diff(Delete, x), Diff(Insert, x), Diff(Delete, c), Diff(Insert, e)]
  }

  /** The first three rounds over `Around`: two edits noted, then `x` stacked. */
  lemma AroundStacked(a: string, b: string, x: string, c: string, e: string, cost: nat)
    requires x != [] && |x| < cost
    ensures var s3 := Scan(Around(a, b, x, c, e), 3, map[0 := 2], 1, x, true, true, false, false, false);
            Valid(s3) && Run(Start(Around(a, b, x, c, e)), cost) == Run(s3, cost)
  {
    var s0 := Start(Around(a, b, x, c, e));
    var s1 := s0.(postDel := true, pointer := 1);
    assert Step(s0, cost) == s1;
    var s2 := s1.(postIns := true, pointer := 2);
    assert Step(s1, cost) == s2;
    var s3 := s2.(equalities := map[0 := 2], count := 1, preIns := true, preDel := true, last := x,
                  postIns := false, postDel := false, pointer := 3);
    assert Step(s2, cost) == s3;
    assert Run(s0, cost) == Run(s1, cost) == Run(s2, cost) == Run(s3, cost);
  }

  /** When `x` is under half the cost, the deletion after it already makes
      three edits around it and it is split there. */
  lemma AroundEarly(a: string, b: string, x: string, c: string, e: string, cost: nat)
    requires x != [] && 2 * |x| < cost
    ensures var s3 := Scan(Around(a, b, x, c, e), 3, map[0 := 2], 1, x, true, true, false, false, false);
            Valid(s3) && Run(s3, cost).changes && Run(s3, cost).diffs == AroundSplit(a, b, x, c, e)
  {
    var s3 := Scan(Around(a, b, x, c, e), 3, map[0 := 2], 1, x, true, true, false, false, false);
    var s4 := Scan(AroundSplit(a, b, x, c, e), 4, map[0 := 2], 0, [], true, true, true, true, true);
    AroundEarlySplit(a, b, x, c, e, cost);
    AroundEarlyRest(a, b, x, c, e, cost);
    assert Run(s3, cost) == Run(s4, cost) == Run(s4.(pointer := 5), cost) == Run(s4.(pointer := 6), cost);
  }

  /** The deletion after `x` splits it. */
  lemma AroundEarlySplit(a: string, b: string, x: string, c: string, e: string, cost: nat)
    requires x != [] && 2 * |x| < cost
    ensures var s3 := Scan(Around(a, b, x, c, e), 3, map[0 := 2], 1, x, true, true, false, false, false);
            Valid(s3) && s3.pointer < |s3.diffs|
            && Step(s3, cost) == Scan(AroundSplit(a, b, x, c, e), 4, map[0 := 2], 0, [], true, true, true, true, true)
  {
    assert Splice(Around(a, b, x, c, e), 2) == AroundSplit(a, b, x, c, e);
  }

  /** After the split the scan passes the two remaining edits. */
  lemma AroundEarlyRest(a: string, b: string, x: string, c: string, e: string, cost: nat)
    ensures var s4 := Scan(AroundSplit(a, b, x, c, e), 4, map[0 := 2], 0, [], true, true, true, true, true);
            Valid(s4) && Step(s4, cost) == s4.(pointer := 5)
            && Valid(s4.(pointer := 5)) && Step(s4.(pointer := 5), cost) == s4.(pointer := 6)
  {
  }

  /** Otherwise the insertion after it makes four, and it is split there. */
  lemma AroundLate(a: string, b: string, x: string, c: string, e: string, cost: nat)
    requires x != [] && cost <= 2 * |x|
    ensures var s3 := Scan(Around(a, b, x, c, e), 3, map[0 := 2], 1, x, true, true, false, false, false);
            Valid(s3) && Run(s3, cost).changes && Run(s3, cost).diffs == AroundSplit(a, b, x, c, e)
  {
    var s3 := Scan(Around(a, b, x, c, e), 3, map[0 := 2], 1, x, true, true, false, false, false);
    var s4 := s3.(postDel := true, pointer := 4);
    var s5 := Scan(AroundSplit(a, b, x, c, e), 5, map[0 := 2], 0, [], true, true, true, true, true);
    AroundLateSplit(a, b, x, c, e, cost);
    assert Step(s5, cost) == s5.(pointer := 6);
    assert Run(s3, cost) == Run(s4, cost) == Run(s5, cost) == Run(s5.(pointer := 6), cost);
  }

  /** The deletion after `x` is noted, and the insertion after it splits `x`. */
  lemma AroundLateSplit(a: string, b: string, x: string, c: string, e: string, cost: nat)
    requires x != [] && cost <= 2 * |x|
    ensures var s3 := Scan(Around(a, b, x, c, e), 3, map[0 := 2], 1, x, true, true, false, false, false);
            var s4 := s3.(postDel := true, pointer := 4);
            Valid(s3) && Step(s3, cost) == s4 && Valid(s4)
            && Step(s4, cost) == Scan(AroundSplit(a, b, x, c, e), 5, map[0 := 2], 0, [], true, true, true, true, true)
  {
    var s3 := Scan(Around(a, b, x, c, e), 3, map[0 := 2], 1, x, true, true, false, false, false);
    assert Step(s3, cost) == s3.(postDel := true, pointer := 4);
    assert Splice(Around(a, b, x, c, e), 2) == AroundSplit(a, b, x, c, e);
  }

  /** The texts of a deletion of `p` followed by an insertion of `q`. */
  lemma DelIns(p: string, q: string)
    ensures Text1([Diff(Delete, p), Diff(Insert, q)]) == p && Text2([Diff(Delete, p), Diff(Insert, q)]) == q
  {
    TextsPair(Diff(Delete, p), Diff(Insert, q));
    TextsSingle(Diff(Delete, p));
    TextsSingle(Diff(Insert, q));
  }

  /** The split script is a run of edits of both kinds, with these texts. */
  lemma AroundSplitTexts(a: string, b: string, x: string, c: string, e: string)
    ensures var r := AroundSplit(a, b, x, c, e);
            && AllEdits(r) && NumOf(r, Delete) != 0 && NumOf(r, Insert) != 0
            && Text1(r) == a + x + c && Text2(r) == b + x + e
  {
    var r := AroundSplit(a, b, x, c, e);
    EditsAt(r);
    NumOfAt(r, 0, Delete);
    NumOfAt(r, 1, Insert);
    var p1, p2, p3 := [Diff(Delete, a), Diff(Insert, b)], [Diff(Delete, x), Diff(Insert, x)], [Diff(Delete, c), Diff(Insert, e)];
    assert r == p1 + p2 + p3;
    TextsAppend(p1, p2);
    TextsAppend(p1 + p2, p3);
    DelIns(a, b);
    DelIns(x, x);
    DelIns(c, e);
  }

  /** A run whose every operation is an edit is a run of edits. */
  lemma {:induction false} EditsAt(run: seq<Diff<char>>)
    requires forall i :: 0 <= i < |run| ==> run[i].op != Equal
    ensures AllEdits(run)
  {
    if run != [] {
      EditsAt(run[1..]);
    }
  }

  /** A run holding an operation of kind `op` counts at least one. */
  lemma {:induction false} NumOfAt(run: seq<Diff<char>>, i: nat, op: Op)
    requires i < |run| && run[i].op == op
    ensures NumOf(run, op) != 0
  {
    if i > 0 {
      NumOfAt(run[1..], i - 1, op);
    }
  }

  /** The merge cleanup joins a run of edits, holding both kinds, whose
      deleted text `td` and inserted text `ti` share no front and no back,
      into one deletion and one insertion. */
  lemma EditsMerge(run: seq<Diff<char>>, td: string, ti: string)
    requires AllEdits(run) && |run| > 1 && NumOf(run, Delete) != 0 && NumOf(run, Insert) != 0
    requires Text1(run) == td && Text2(run) == ti && td != [] && ti != []
    requires CommonPrefix(ti, td) == 0 && CommonSuffix(ti, td) == 0
    ensures Merge(run) == [Diff(Delete, td), Diff(Insert, ti)]
  {
    var dummy: Diff<char> := Diff(Equal, []);
    var r := [Diff(Delete, td), Diff(Insert, ti)];
    PassRun([], [], run, [dummy]);
    assert [] + run == run;
    PassEqual([], run, dummy, []);
    CollapseFactored([], run, dummy);
    NothingShared(td, ti, dummy);
    assert Pass([], [], run + [dummy]) == r + [dummy];
    assert (r + [dummy])[..2] == r;
    assert FirstPass(run) == r;
    assert SecondFrom(r, 1, false) == (r, false);
  }

  /** The merge cleanup joins six edits whose texts share no front and no
      back into one deletion and one insertion. */
  lemma AroundMerge(a: string, b: string, x: string, c: string, e: string)
    requires CommonPrefix(b + x + e, a + x + c) == 0 && CommonSuffix(b + x + e, a + x + c) == 0
    requires a + x + c != [] && b + x + e != []
    ensures Merge(AroundSplit(a, b, x, c, e)) == [Diff(Delete, a + x + c), Diff(Insert, b + x + e)]
  {
    AroundSplitTexts(a, b, x, c, e);
    EditsMerge(AroundSplit(a, b, x, c, e), a + x + c, b + x + e);
  }

  /** An equality shorter than the edit cost with a deletion and an insertion
      on each side is folded into them: one deletion and one insertion remain,
      when their texts share no front and no back. */
  lemma AroundFolded(a: string, b: string, x: string, c: string, e: string, cost: nat)
    requires x != [] && |x| < cost
    requires CommonPrefix(b + x + e, a + x + c) == 0 && CommonSuffix(b + x + e, a + x + c) == 0
    ensures Cleanup(Around(a, b, x, c, e), cost) == [Diff(Delete, a + x + c), Diff(Insert, b + x + e)]
  {
    AroundStacked(a, b, x, c, e, cost);
    if 2 * |x| < cost {
      AroundEarly(a, b, x, c, e, cost);
    } else {
      AroundLate(a, b, x, c, e, cost);
    }
    AroundMerge(a, b, x, c, e);
  }

  /** Four-edit elimination: "xyz" is shorter than the cost 4. */
  lemma FourEdit()
    ensures Cleanup([Diff(Delete, "ab"), Diff(Insert, "12"), Diff(Equal, "xyz"), Diff(Delete, "cd"), Diff(Insert, "34")], 4)
         == [Diff(Delete, "abxyzcd"), Diff(Insert, "12xyz34")]
  {
    assert "ab" + "xyz" + "cd" == "abxyzcd" && "12" + "xyz" + "34" == "12xyz34";
    assert CommonPrefix("12xyz34", "abxyzcd") == 0;
    assert CommonSuffix("12xyz34", "abxyzcd") == 0;
    AroundFolded("ab", "12", "xyz", "cd", "34", 4);
  }

  /** High-cost elimination: with cost 5, "wxyz" goes too. */
  lemma HighCost()
    ensures Cleanup([Diff(Delete, "ab"), Diff(Insert, "12"), Diff(Equal, "wxyz"), Diff(Delete, "cd"), Diff(Insert, "34")], 5)
         == [Diff(Delete, "abwxyzcd"), Diff(Insert, "12wxyz34")]
  {
    assert "ab" + "wxyz" + "cd" == "abwxyzcd" && "12" + "wxyz" + "34" == "12wxyz34";
    assert CommonPrefix("12wxyz34", "abwxyzcd") == 0;
    assert CommonSuffix("12wxyz34", "abwxyzcd") == 0;
    AroundFolded("ab", "12", "wxyz", "cd", "34", 5);
  }

  /** Once the scan's pending candidate is gone, a tail made only of edits
      is passed over without a split. */
  lemma {:induction false} RunEdits(s: Scan<char>, cost: nat)
    requires Valid(s) && s.last == []
    requires forall i :: s.pointer <= i < |s.diffs| ==> s.diffs[i].op != Equal
    ensures Run(s, cost).diffs == s.diffs && Run(s, cost).changes == s.changes
    decreases |s.diffs| - s.pointer
  {
    if s.pointer < |s.diffs| {
      var x := s.diffs[s.pointer];
      var r := s.(postIns := s.postIns || x.op == Insert, postDel := s.postDel || x.op == Delete,
                  pointer := s.pointer + 1);
      assert Step(s, cost) == r;
      EditFacts(s, r.postIns, r.postDel);
      RunEdits(r, cost);
    }
  }

  /** An insertion, an equality `x`, then a deletion and an insertion. */
  function Three(b: string, x: string, c: string, e: string): seq<Diff<char>>
  {
    [Diff(Insert, b), Diff(Equal, x), Diff(Delete, c), Diff(Insert, e)]
  }

  /** `Three` once its equality is split. */
  function ThreeSplit(b: string, x: string, c: string, e: string): seq<Diff<char>>
  {
    [Diff(Insert, b), Diff(Delete, x), Diff(Insert, x), Diff(Delete, c), Diff(Insert, e)]
  }

  /** The first three rounds over `Three`: the insertion noted, `x`
      stacked, the deletion noted. */
  lemma ThreeStacked(b: string, x: string, c: string, e: string, cost: nat)
    requires x != [] && |x| < cost
    ensures var s3 := Scan(Three(b, x, c, e), 3, map[0 := 1], 1, x, true, false, false, true, false);
            Valid(s3) && Run(Start(Three(b, x, c, e)), cost) == Run(s3, cost)
  {
    var s0 := Start(Three(b, x, c, e));
    var s1 := s0.(postIns := true, pointer := 1);
    assert Step(s0, cost) == s1;
    var s2 := s1.(equalities := map[0 := 1], count := 1, preIns := true, preDel := false, last := x,
                  postIns := false, postDel := false, pointer := 2);
    assert Step(s1, cost) == s2;
    var s3 := s2.(postDel := true, pointer := 3);
    assert Step(s2, cost) == s3;
    assert Run(s0, cost) == Run(s1, cost) == Run(s2, cost) == Run(s3, cost);
  }

  /** With `x` under half the cost, the insertion after it makes three edits
      around it: it is split, the scan backs up to the start, and nothing
      else is split. */
  lemma ThreeScan(b: string, x: string, c: string, e: string, cost: nat)
    requires x != [] && 2 * |x| < cost
    ensures Run(Start(Three(b, x, c, e)), cost).changes
    ensures Run(Start(Three(b, x, c, e)), cost).diffs == ThreeSplit(b, x, c, e)
  {
    ThreeStacked(b, x, c, e, cost);
    var d := Three(b, x, c, e);
    var s3 := Scan(d, 3, map[0 := 1], 1, x, true, false, false, true, false);
    assert Splice(d, 1) == ThreeSplit(b, x, c, e);
    var s4 := Scan(ThreeSplit(b, x, c, e), 0, map[0 := 1], -1, [], true, false, false, false, true);
    assert Step(s3, cost) == s4;
    RunEdits(s4, cost);
  }

  /** The split three-edit script is a run of edits of both kinds. */
  lemma ThreeSplitEdits(b: string, x: string, c: string, e: string)
    ensures var r := ThreeSplit(b, x, c, e);
            AllEdits(r) && NumOf(r, Delete) != 0 && NumOf(r, Insert) != 0
  {
    var r := ThreeSplit(b, x, c, e);
    EditsAt(r);
    NumOfAt(r, 1, Delete);
    NumOfAt(r, 0, Insert);
  }

  /** The texts of the split three-edit script. */
  lemma ThreeSplitTexts(b: string, x: string, c: string, e: string)
    ensures Text1(ThreeSplit(b, x, c, e)) == x + c && Text2(ThreeSplit(b, x, c, e)) == b + x + e
  {
    var y0, y1, y2, y3, y4 := Diff(Insert, b), Diff(Delete, x), Diff(Insert, x), Diff(Delete, c), Diff(Insert, e);
    assert ThreeSplit(b, x, c, e) == [y0, y1, y2] + [y3, y4];
    TextsAppend([y0, y1, y2], [y3, y4]);
    TextsTriple(y0, y1, y2);
    TextsPair(y3, y4);
    TextsSingle(y0);
    TextsSingle(y1);
    TextsSingle(y2);
    TextsSingle(y3);
    TextsSingle(y4);
    assert Text1([y0, y1, y2]) == x && Text1([y3, y4]) == c;
    assert Text2([y0, y1, y2]) == b + x && Text2([y3, y4]) == e;
  }

  /** An equality under half the cost with only an insertion before it and a
      deletion and an insertion after it is folded into them. */
  lemma ThreeFolded(b: string, x: string, c: string, e: string, cost: nat)
    requires x != [] && 2 * |x| < cost
    requires CommonPrefix(b + x + e, x + c) == 0 && CommonSuffix(b + x + e, x + c) == 0
    ensures Cleanup(Three(b, x, c, e), cost) == [Diff(Delete, x + c), Diff(Insert, b + x + e)]
  {
    ThreeScan(b, x, c, e, cost);
    ThreeSplitEdits(b, x, c, e);
    ThreeSplitTexts(b, x, c, e);
    EditsMerge(ThreeSplit(b, x, c, e), x + c, b + x + e);
  }

  /** Three-edit elimination: "x" goes although only one edit precedes it. */
  lemma ThreeEdit()
    ensures Cleanup([Diff(Insert, "12"), Diff(Equal, "x"), Diff(Delete, "cd"), Diff(Insert, "34")], 4)
         == [Diff(Delete, "xcd"), Diff(Insert, "12x34")]
  {
    assert "x" + "cd" == "xcd" && "12" + "x" + "34" == "12x34";
    assert CommonPrefix("12x34", "xcd") == 0;
    assert CommonSuffix("12x34", "xcd") == 0;
    ThreeFolded("12", "x", "cd", "34", 4);
  }

  /** Two short equalities, `x` after a deletion and an insertion and `z`
      after an insertion, followed by a deletion and an insertion. */
  function Back(a: string, b: string, x: string, f: string, z: string, c: string, e: string): seq<Diff<char>>
  {
    [Diff(Delete, a), Diff(Insert, b), Diff(Equal, x), Diff(Insert, f), Diff(Equal, z), Diff(Delete, c), Diff(Insert, e)]
  }

  /** `Back` once `z` is split. */
  function BackHalf(a: string, b: string, x: string, f: string, z: string, c: string, e: string): seq<Diff<char>>
  {
    [Diff(Delete, a), Diff(Insert, b), Diff(Equal, x), Diff(Insert, f), Diff(Delete, z), Diff(Insert, z),
     Diff(Delete, c), Diff(Insert, e)]
  }

  /** `Back` once both equalities are split. */
  function BackSplit(a: string, b: string, x: string, f: string, z: string, c: string, e: string): seq<Diff<char>>
  {
    [Diff(Delete, a), Diff(Insert, b), Diff(Delete, x), Diff(Insert, x), Diff(Insert, f), Diff(Delete, z),
     Diff(Insert, z), Diff(Delete, c), Diff(Insert, e)]
  }

  /** The first three rounds over `Back`: two edits noted, then `x` stacked. */
  lemma BackStacked(a: string, b: string, x: string, f: string, z: string, c: string, e: string, cost: nat)
    requires x != [] && |x| < cost
    ensures var s3 := Scan(Back(a, b, x, f, z, c, e), 3, map[0 := 2], 1, x, true, true, false, false, false);
            Valid(s3) && Run(Start(Back(a, b, x, f, z, c, e)), cost) == Run(s3, cost)
  {
    var s0 := Start(Back(a, b, x, f, z, c, e));
    var s1 := s0.(postDel := true, pointer := 1);
    assert Step(s0, cost) == s1;
    var s2 := s1.(postIns := true, pointer := 2);
    assert Step(s1, cost) == s2;
    var s3 := s2.(equalities := map[0 := 2], count := 1, preIns := true, preDel := true, last := x,
                  postIns := false, postDel := false, pointer := 3);
    assert Step(s2, cost) == s3;
    assert Run(s0, cost) == Run(s1, cost) == Run(s2, cost) == Run(s3, cost);
  }

  /** The next two: `x` is not under half the cost, so the lone insertion
      after it splits nothing; then `z` is stacked above it. */
  lemma BackSecond(a: string, b: string, x: string, f: string, z: string, c: string, e: string, cost: nat)
    requires x != [] && cost <= 2 * |x| && z != [] && |z| < cost
    ensures var d := Back(a, b, x, f, z, c, e);
            var s3 := Scan(d, 3, map[0 := 2], 1, x, true, true, false, false, false);
            var s5 := Scan(d, 5, map[0 := 2][1 := 4], 2, z, true, false, false, false, false);
            Valid(s3) && Valid(s5) && Run(s3, cost) == Run(s5, cost)
  {
    var d := Back(a, b, x, f, z, c, e);
    var s3 := Scan(d, 3, map[0 := 2], 1, x, true, true, false, false, false);
    var s4 := s3.(postIns := true, pointer := 4);
    assert Step(s3, cost) == s4;
    var s5 := s4.(equalities := map[0 := 2][1 := 4], count := 2, preIns := true, preDel := false, last := z,
                  postIns := false, postDel := false, pointer := 5);
    assert Step(s4, cost) == s5;
    assert Run(s3, cost) == Run(s4, cost) == Run(s5, cost);
  }

  /** The deletion after `z` makes only two edits around it. */
  lemma BackNoteDelete(a: string, b: string, x: string, f: string, z: string, c: string, e: string, cost: nat)
    requires z != []
    ensures var s5 := Scan(Back(a, b, x, f, z, c, e), 5, map[0 := 2][1 := 4], 2, z, true, false, false, false, false);
            Valid(s5) && Valid(s5.(postDel := true, pointer := 6))
            && Run(s5, cost) == Run(s5.(postDel := true, pointer := 6), cost)
  {
    var s5 := Scan(Back(a, b, x, f, z, c, e), 5, map[0 := 2][1 := 4], 2, z, true, false, false, false, false);
    assert Step(s5, cost) == s5.(postDel := true, pointer := 6);
  }

  /** The insertion after that makes three, and `z` is under half the cost:
      it is split, and since only an insertion preceded it the scan backs
      up past `x` to the start. */
  lemma BackSplitLast(a: string, b: string, x: string, f: string, z: string, c: string, e: string, cost: nat)
    requires z != [] && 2 * |z| < cost
    ensures var s6 := Scan(Back(a, b, x, f, z, c, e), 6, map[0 := 2][1 := 4], 2, z, true, false, false, true, false);
            var s7 := Scan(BackHalf(a, b, x, f, z, c, e), 0, map[0 := 2][1 := 4], 0, [], true, false, false, false, true);
            Valid(s6) && Valid(s7) && Run(s6, cost) == Run(s7, cost)
  {
    var d := Back(a, b, x, f, z, c, e);
    var s6 := Scan(d, 6, map[0 := 2][1 := 4], 2, z, true, false, false, true, false);
    assert Splice(d, 4) == BackHalf(a, b, x, f, z, c, e);
    var s7 := Scan(BackHalf(a, b, x, f, z, c, e), 0, map[0 := 2][1 := 4], 0, [], true, false, false, false, true);
    assert Step(s6, cost) == s7;
  }

  /** From the start again: two edits noted, then `x` stacked anew. */
  lemma BackRestart(a: string, b: string, x: string, f: string, z: string, c: string, e: string, cost: nat)
    requires x != [] && |x| < cost
    ensures var s7 := Scan(BackHalf(a, b, x, f, z, c, e), 0, map[0 := 2][1 := 4], 0, [], true, false, false, false, true);
            var s10 := Scan(BackHalf(a, b, x, f, z, c, e), 3, map[0 := 2][1 := 4][0 := 2], 1, x, true, true, false, false, true);
            Valid(s7) && Valid(s10) && Run(s7, cost) == Run(s10, cost)
  {
    var s7 := Scan(BackHalf(a, b, x, f, z, c, e), 0, map[0 := 2][1 := 4], 0, [], true, false, false, false, true);
    var s8 := s7.(postDel := true, pointer := 1);
    assert Step(s7, cost) == s8;
    var s9 := s8.(postIns := true, pointer := 2);
    assert Step(s8, cost) == s9;
    var s10 := s9.(equalities := map[0 := 2][1 := 4][0 := 2], count := 1, preIns := true, preDel := true, last := x,
                   postIns := false, postDel := false, pointer := 3);
    assert Step(s9, cost) == s10;
    assert Run(s7, cost) == Run(s8, cost) == Run(s9, cost) == Run(s10, cost);
  }

  /** The insertion after `x` splits nothing. */
  lemma BackNoteInsert(a: string, b: string, x: string, f: string, z: string, c: string, e: string, cost: nat)
    requires x != [] && cost <= 2 * |x|
    ensures var s10 := Scan(BackHalf(a, b, x, f, z, c, e), 3, map[0 := 2][1 := 4][0 := 2], 1, x, true, true, false, false, true);
            Valid(s10) && Valid(s10.(postIns := true, pointer := 4))
            && Run(s10, cost) == Run(s10.(postIns := true, pointer := 4), cost)
  {
    var s10 := Scan(BackHalf(a, b, x, f, z, c, e), 3, map[0 := 2][1 := 4][0 := 2], 1, x, true, true, false, false, true);
    assert Step(s10, cost) == s10.(postIns := true, pointer := 4);
  }

  /** The deletion after it, which was `z`, makes four edits around `x`, so
      `x` is split. */
  lemma BackSplitFirst(a: string, b: string, x: string, f: string, z: string, c: string, e: string, cost: nat)
    requires x != []
    ensures var s11 := Scan(BackHalf(a, b, x, f, z, c, e), 4, map[0 := 2][1 := 4][0 := 2], 1, x, true, true, true, false, true);
            var s12 := Scan(BackSplit(a, b, x, f, z, c, e), 5, map[0 := 2][1 := 4][0 := 2], 0, [], true, true, true, true, true);
            Valid(s11) && Valid(s12) && Run(s11, cost) == Run(s12, cost)
  {
    var d := BackHalf(a, b, x, f, z, c, e);
    var m := map[0 := 2][1 := 4][0 := 2];
    var s11 := Scan(d, 4, m, 1, x, true, true, true, false, true);
    assert Splice(d, 2) == BackSplit(a, b, x, f, z, c, e);
    var s12 := Scan(BackSplit(a, b, x, f, z, c, e), 5, m, 0, [], true, true, true, true, true);
    assert Step(s11, cost) == s12;
  }

  /** The edits after the second split change nothing more. */
  lemma BackTail(a: string, b: string, x: string, f: string, z: string, c: string, e: string, cost: nat)
    ensures var s12 := Scan(BackSplit(a, b, x, f, z, c, e), 5, map[0 := 2][1 := 4][0 := 2], 0, [], true, true, true, true, true);
            Valid(s12) && Run(s12, cost).changes && Run(s12, cost).diffs == BackSplit(a, b, x, f, z, c, e)
  {
    RunEdits(Scan(BackSplit(a, b, x, f, z, c, e), 5, map[0 := 2][1 := 4][0 := 2], 0, [], true, true, true, true, true), cost);
  }

  /** The whole scan over `Back`: `z` is split first, the scan backs up, and
      then `x` is split; the edits after it change nothing. */
  lemma BackScan(a: string, b: string, x: string, f: string, z: string, c: string, e: string, cost: nat)
    requires x != [] && |x| < cost <= 2 * |x| && z != [] && 2 * |z| < cost
    ensures Run(Start(Back(a, b, x, f, z, c, e)), cost).changes
    ensures Run(Start(Back(a, b, x, f, z, c, e)), cost).diffs == BackSplit(a, b, x, f, z, c, e)
  {
    BackStacked(a, b, x, f, z, c, e, cost);
    BackSecond(a, b, x, f, z, c, e, cost);
    BackNoteDelete(a, b, x, f, z, c, e, cost);
    BackSplitLast(a, b, x, f, z, c, e, cost);
    BackRestart(a, b, x, f, z, c, e, cost);
    BackNoteInsert(a, b, x, f, z, c, e, cost);
    BackSplitFirst(a, b, x, f, z, c, e, cost);
    BackTail(a, b, x, f, z, c, e, cost);
  }

  /** The split backpass script is a run of edits of both kinds. */
  lemma BackSplitEdits(a: string, b: string, x: string, f: string, z: string, c: string, e: string)
    ensures var r := BackSplit(a, b, x, f, z, c, e);
            AllEdits(r) && NumOf(r, Delete) != 0 && NumOf(r, Insert) != 0
  {
    var r := BackSplit(a, b, x, f, z, c, e);
    EditsAt(r);
    NumOfAt(r, 0, Delete);
    NumOfAt(r, 1, Insert);
  }

  /** The texts of the split backpass script. */
  lemma BackSplitTexts(a: string, b: string, x: string, f: string, z: string, c: string, e: string)
    ensures Text1(BackSplit(a, b, x, f, z, c, e)) == a + x + z + c
    ensures Text2(BackSplit(a, b, x, f, z, c, e)) == b + x + f + z + e
  {
    var p1, p2, p3 := [Diff(Delete, a), Diff(Insert, b)], [Diff(Delete, x), Diff(Insert, x)], [Diff(Insert, f)];
    var p4, p5 := [Diff(Delete, z), Diff(Insert, z)], [Diff(Delete, c), Diff(Insert, e)];
    assert BackSplit(a, b, x, f, z, c, e) == p1 + p2 + p3 + p4 + p5;
    TextsAppend(p1, p2);
    TextsAppend(p1 + p2, p3);
    TextsAppend(p1 + p2 + p3, p4);
    TextsAppend(p1 + p2 + p3 + p4, p5);
    DelIns(a, b);
    DelIns(x, x);
    DelIns(z, z);
    DelIns(c, e);
    TextsSingle(Diff(Insert, f));
    assert Text1(p1 + p2 + p3) == a + x;
  }

  /** Two short equalities, the later one under half the cost, fold into the
      edits around them: one deletion and one insertion remain, when their
      texts share no front and no back. */
  lemma BackFolded(a: string, b: string, x: string, f: string, z: string, c: string, e: string, cost: nat)
    requires x != [] && |x| < cost <= 2 * |x| && z != [] && 2 * |z| < cost
    requires CommonPrefix(b + x + f + z + e, a + x + z + c) == 0 && CommonSuffix(b + x + f + z + e, a + x + z + c) == 0
    ensures Cleanup(Back(a, b, x, f, z, c, e), cost) == [Diff(Delete, a + x + z + c), Diff(Insert, b + x + f + z + e)]
  {
    BackScan(a, b, x, f, z, c, e, cost);
    BackSplitEdits(a, b, x, f, z, c, e);
    BackSplitTexts(a, b, x, f, z, c, e);
    EditsMerge(BackSplit(a, b, x, f, z, c, e), a + x + z + c, b + x + f + z + e);
  }

  /** Backpass elimination: splitting "z" backs the scan up to "xy", which
      the deletion after it then also splits. */
  lemma Backpass()
    ensures Cleanup([Diff(Delete, "ab"), Diff(Insert, "12"), Diff(Equal, "xy"), Diff(Insert, "34"), Diff(Equal, "z"),
                     Diff(Delete, "cd"), Diff(Insert, "56")], 4)
         == [Diff(Delete, "abxyzcd"), Diff(Insert, "12xy34z56")]
  {
    assert "ab" + "xy" + "z" + "cd" == "abxyzcd" && "12" + "xy" + "34" + "z" + "56" == "12xy34z56";
    assert CommonPrefix("12xy34z56", "abxyzcd") == 0;
    assert CommonSuffix("12xy34z56", "abxyzcd") == 0;
    BackFolded("ab", "12", "xy", "34", "z", "cd", "56", 4);
  }
}
