/** The merge cleanup on small scripts. */
module MergeExamples {
  import opened Diffs
  import opened Common
  import opened Merges

  lemma NullCase()
    ensures Merge<char>([]) == []
  {
    var dummy: Diff<char> := Diff(Equal, []);
    assert [] + [dummy] == [dummy];
    assert Flush([], [], dummy) == [dummy];
    assert Pass([], [], [dummy]) == [dummy];
    assert FirstPass<char>([]) == [];
    assert SecondFrom<char>([], 1, false) == ([], false);
  }

  /** A round of the cleanup that slides an edit starts it over on the result. */
  lemma MergeAgain(d: seq<Diff<char>>, d1: seq<Diff<char>>, r: seq<Diff<char>>)
    requires FirstPass(d) == d1 && SecondFrom(d1, 1, false) == (r, true)
    ensures Merge(d) == Merge(r)
  {
  }

  /** A round of the cleanup that slides nothing ends it. */
  lemma MergeSettles(d: seq<Diff<char>>, d1: seq<Diff<char>>)
    requires FirstPass(d) == d1 && !SecondFrom(d1, 1, false).1
    ensures Merge(d) == d1
  {
  }

  /** An insertion ending with the equality before it slides left. */
  lemma SlideLeft()
    ensures Merge([Diff(Equal, "a"), Diff(Insert, "ba"), Diff(Equal, "c")]) == [Diff(Insert, "ab"), Diff(Equal, "ac")]
  {
    var d := [Diff(Equal, "a"), Diff(Insert, "ba"), Diff(Equal, "c")];
    var r := [Diff(Insert, "ab"), Diff(Equal, "ac")];
    FlankedFirst("a", Diff(Insert, "ba"), "c");
    SlideLeftParts();
    assert SecondFrom(d, 1, false) == (r, true);
    MergeAgain(d, d, r);
    EditEqualSettled(Diff(Insert, "ab"), "ac");
  }

  lemma SlideLeftParts()
    ensures EndsWith("ba", "a")
    ensures var d := [Diff(Equal, "a"), Diff(Insert, "ba"), Diff(Equal, "c")];
      d[..0] + [Diff(Insert, "a" + "ba"[..|"ba"| - |"a"|]), Diff(Equal, "a" + "c")] + d[3..]
      == [Diff(Insert, "ab"), Diff(Equal, "ac")]
  {
    assert "ba"[1..] == "a" && "ba"[..1] == "b";
    assert "a" + "b" == "ab" && "a" + "c" == "ac";
  }

  /** The shared front of a run goes into the equality before it and the
      shared back into the equality after it. */
  lemma FactorFirst()
    ensures FirstPass([Diff(Equal, "x"), Diff(Delete, "a"), Diff(Insert, "abc"), Diff(Delete, "dc"), Diff(Equal, "y")])
         == [Diff(Equal, "xa"), Diff(Delete, "d"), Diff(Insert, "b"), Diff(Equal, "cy")]
  {
    var dummy: Diff<char> := Diff(Equal, []);
    var x, p, q, r, y := Diff(Equal, "x"), Diff(Delete, "a"), Diff(Insert, "abc"), Diff(Delete, "dc"), Diff(Equal, "y");
    var d := [x, p, q, r, y];
    var out := [Diff(Equal, "xa"), Diff(Delete, "d"), Diff(Insert, "b"), Diff(Equal, "cy")];
    assert d + [dummy] == [x] + ([p] + ([q] + ([r] + ([y] + [dummy]))));
    assert Flush([], [], x) == [x];
    PassEqual([], [], x, [p] + ([q] + ([r] + ([y] + [dummy]))));
    FactorPass();
    assert Flush(out, [], dummy) == out by {
      assert out[3].text + [] == out[3].text && out[..3] + [out[3]] == out;
    }
    PassEqual(out, [], dummy, []);
    assert out + [] == out;
  }

  /** The pass gathering the run of `FactorFirst` and dealing with it. */
  lemma FactorPass()
    ensures var dummy: Diff<char> := Diff(Equal, []);
      Pass([Diff(Equal, "x")], [], [Diff(Delete, "a")] + ([Diff(Insert, "abc")] + ([Diff(Delete, "dc")] + ([Diff(Equal, "y")] + [dummy]))))
      == Pass([Diff(Equal, "xa"), Diff(Delete, "d"), Diff(Insert, "b"), Diff(Equal, "cy")], [], [dummy])
  {
    var dummy: Diff<char> := Diff(Equal, []);
    var x, p, q, r, y := Diff(Equal, "x"), Diff(Delete, "a"), Diff(Insert, "abc"), Diff(Delete, "dc"), Diff(Equal, "y");
    PassEdit([x], [], p, [q] + ([r] + ([y] + [dummy])));
    PassEdit([x], [] + [p], q, [r] + ([y] + [dummy]));
    PassEdit([x], [] + [p] + [q], r, [y] + [dummy]);
    assert [] + [p] + [q] + [r] == [p, q, r];
    FactorRun();
    PassEqual([x], [p, q, r], y, [dummy]);
  }

  /** The counts and texts of the run of `FactorFirst`. */
  lemma FactorRunTexts()
    ensures var run := [Diff(Delete, "a"), Diff(Insert, "abc"), Diff(Delete, "dc")];
      NumOf(run, Delete) == 2 && NumOf(run, Insert) == 1 && Text1(run) == "adc" && Text2(run) == "abc"
  {
    var p, q, r := Diff(Delete, "a"), Diff(Insert, "abc"), Diff(Delete, "dc");
    var run := [p, q, r];
    assert run[1..] == [q, r] && run[1..][1..] == [r];
    TextsSingle(p);
    TextsSingle(q);
    TextsSingle(r);
    TextsAppend([p], [q, r]);
    TextsAppend([q], [r]);
    assert [p] + [q, r] == run && [q] + [r] == [q, r];
    assert "a" + "dc" == "adc";
  }

  /** Factoring the deleted "adc" against the inserted "abc". */
  lemma FactorValue()
    ensures Factored([Diff(Equal, "x")], "adc", "abc", Diff(Equal, "y"))
         == [Diff(Equal, "xa"), Diff(Delete, "d"), Diff(Insert, "b"), Diff(Equal, "cy")]
  {
    assert CommonPrefix("abc", "adc") == 1 by {
      assert "abc"[..2] != "adc"[..2] by {
        assert "abc"[..2][1] == 'b';
      }
    }
    assert "abc"[..1] == "a" && "adc"[1..] == "dc" && "abc"[1..] == "bc";
    assert ShareBefore([Diff(Equal, "x")], "a") == [Diff(Equal, "xa")] by {
      assert "x" + "a" == "xa";
    }
    FactorBackValue();
  }

  lemma FactorBackValue()
    ensures FactoredBack([Diff(Equal, "xa")], "dc", "bc", Diff(Equal, "y"))
         == [Diff(Equal, "xa"), Diff(Delete, "d"), Diff(Insert, "b"), Diff(Equal, "cy")]
  {
    assert CommonSuffix("bc", "dc") == 1;
    assert "dc"[..1] == "d" && "bc"[..1] == "b" && "bc"[1..] == "c" && "c" + "y" == "cy";
    assert Collapsed("d", "b") == [Diff(Delete, "d"), Diff(Insert, "b")];
  }

  /** The run of `FactorFirst` reaching its closing equality. */
  lemma FactorRun()
    ensures Flush([Diff(Equal, "x")], [Diff(Delete, "a"), Diff(Insert, "abc"), Diff(Delete, "dc")], Diff(Equal, "y"))
         == [Diff(Equal, "xa"), Diff(Delete, "d"), Diff(Insert, "b"), Diff(Equal, "cy")]
  {
    var run := [Diff(Delete, "a"), Diff(Insert, "abc"), Diff(Delete, "dc")];
    FactorRunTexts();
    CollapseFactored([Diff(Equal, "x")], run, Diff(Equal, "y"));
    FactorValue();
  }

  /** The factored script has nothing left to slide. */
  lemma FactorMerge()
    ensures Merge([Diff(Equal, "x"), Diff(Delete, "a"), Diff(Insert, "abc"), Diff(Delete, "dc"), Diff(Equal, "y")])
         == [Diff(Equal, "xa"), Diff(Delete, "d"), Diff(Insert, "b"), Diff(Equal, "cy")]
  {
    var out := [Diff(Equal, "xa"), Diff(Delete, "d"), Diff(Insert, "b"), Diff(Equal, "cy")];
    FactorFirst();
    assert SecondFrom(out, 1, false) == SecondFrom(out, 2, false);
    assert SecondFrom(out, 2, false) == SecondFrom(out, 3, false);
  }

  /** The counts and texts of a run of one deletion and one insertion. */
  lemma PairRun(td: string, ti: string)
    ensures var run := [Diff(Delete, td), Diff(Insert, ti)];
      AllEdits(run) && NumOf(run, Delete) == 1 && NumOf(run, Insert) == 1 && Text1(run) == td && Text2(run) == ti
  {
    var p, q := Diff(Delete, td), Diff(Insert, ti);
    RunGrow([], p);
    assert [] + [p] == [p];
    RunGrow([p], q);
    assert [p] + [q] == [p, q];
  }

  /** A deletion and an insertion sharing no front and no back, closed by the
      equality `x`, are written out as they are. */
  lemma FlushPair(out: seq<Diff<char>>, td: string, ti: string, x: Diff<char>)
    requires td != [] && ti != [] && CommonPrefix(ti, td) == 0 && CommonSuffix(ti, td) == 0
    ensures Flush(out, [Diff(Delete, td), Diff(Insert, ti)], x) == out + [Diff(Delete, td), Diff(Insert, ti), x]
  {
    var run := [Diff(Delete, td), Diff(Insert, ti)];
    PairRun(td, ti);
    CollapseFactored(out, run, x);
    assert Factored(out, td, ti, x) == FactoredBack(out, td, ti, x);
    FactoredBackFront(out, td, ti, x);
    NothingShared(td, ti, x);
  }

  /** The first pass over an equality followed by a run that ends the script. */
  lemma FirstPassTrailingRun(p: string, run: seq<Diff<char>>, o: seq<Diff<char>>)
    requires AllEdits(run) && Flush([Diff(Equal, p)], run, Diff(Equal, [])) == o + [Diff(Equal, [])]
    ensures FirstPass([Diff(Equal, p)] + run) == o
  {
    var dummy: Diff<char> := Diff(Equal, []);
    PassEqualRun(p, run);
    PassEqual([Diff(Equal, p)], run, dummy, []);
    assert o + [dummy] + [] == o + [dummy];
    assert (o + [dummy])[..|o + [dummy]| - 1] == o;
  }

  /** The first pass over an equality gathering the run after it. */
  lemma PassEqualRun(p: string, run: seq<Diff<char>>)
    requires AllEdits(run)
    ensures var dummy: Diff<char> := Diff(Equal, []);
      Pass([], [], [Diff(Equal, p)] + run + [dummy]) == Pass([Diff(Equal, p)], run, [dummy])
  {
    var dummy: Diff<char> := Diff(Equal, []);
    var a := Diff(Equal, p);
    assert [a] + run + [dummy] == [a] + (run + [dummy]);
    assert Flush([], [], a) == [a];
    PassEqual([], [], a, run + [dummy]);
    PassRun([a], [], run, [dummy]);
    assert [] + run == run;
  }

  /** A script already in normal form is left unchanged. */
  lemma NoChange()
    ensures Merge([Diff(Equal, "a"), Diff(Delete, "b"), Diff(Insert, "c")]) == [Diff(Equal, "a"), Diff(Delete, "b"), Diff(Insert, "c")]
  {
    var d := [Diff(Equal, "a"), Diff(Delete, "b"), Diff(Insert, "c")];
    NoChangeFirst();
    assert SecondFrom(d, 1, false) == (d, false);
    MergeSettles(d, d);
  }

  lemma NoChangeFirst()
    ensures FirstPass([Diff(Equal, "a"), Diff(Delete, "b"), Diff(Insert, "c")]) == [Diff(Equal, "a"), Diff(Delete, "b"), Diff(Insert, "c")]
  {
    var run := [Diff(Delete, "b"), Diff(Insert, "c")];
    PairRun("b", "c");
    NoChangeParts();
    FlushPair([Diff(Equal, "a")], "b", "c", Diff(Equal, []));
    FirstPassTrailingRun("a", run, [Diff(Equal, "a"), Diff(Delete, "b"), Diff(Insert, "c")]);
  }

  lemma NoChangeParts()
    ensures CommonPrefix("c", "b") == 0 && CommonSuffix("c", "b") == 0
    ensures [Diff(Equal, "a")] + [Diff(Delete, "b"), Diff(Insert, "c"), Diff(Equal, [])]
         == [Diff(Equal, "a"), Diff(Delete, "b"), Diff(Insert, "c")] + [Diff(Equal, [])]
    ensures [Diff(Equal, "a")] + [Diff(Delete, "b"), Diff(Insert, "c")] == [Diff(Equal, "a"), Diff(Delete, "b"), Diff(Insert, "c")]
  {
  }

  /** Adjacent equalities are joined into one. */
  lemma MergeEqualities()
    ensures Merge([Diff(Equal, "a"), Diff(Equal, "b"), Diff(Equal, "c")]) == [Diff(Equal, "abc")]
  {
    assert "a" + "b" + "c" == "abc";
    ThreeEqualities("a", "b", "c");
  }

  /** Three equalities, the first not empty, merge into one. */
  lemma ThreeEqualities(p: string, q: string, t: string)
    requires p != []
    ensures Merge([Diff(Equal, p), Diff(Equal, q), Diff(Equal, t)]) == [Diff(Equal, p + q + t)]
  {
    var r := [Diff(Equal, p + q + t)];
    ThreeEqualitiesFirst(p, q, t);
    assert SecondFrom(r, 1, false) == (r, false);
  }

  /** The first pass alone joins the three equalities. */
  lemma ThreeEqualitiesFirst(p: string, q: string, t: string)
    requires p != []
    ensures FirstPass([Diff(Equal, p), Diff(Equal, q), Diff(Equal, t)]) == [Diff(Equal, p + q + t)]
  {
    ThreeEqualitiesPass(p, q, t);
    assert [Diff(Equal, p + q + t)][0].text != [];
  }

  /** The pass itself, the dummy equality included. */
  lemma ThreeEqualitiesPass(p: string, q: string, t: string)
    ensures Pass([], [], [Diff(Equal, p), Diff(Equal, q), Diff(Equal, t)] + [Diff(Equal, [])]) == [Diff(Equal, p + q + t)]
  {
    var dummy: Diff<char> := Diff(Equal, []);
    var a, b, c := Diff(Equal, p), Diff(Equal, q), Diff(Equal, t);
    var rest := [c] + [dummy];
    assert [a, b, c] + [dummy] == [a] + ([b] + rest);
    StartJoins(p, q, rest);
    EndJoins(p + q, t);
  }

  /** The first two equalities read join into one. */
  lemma StartJoins(p: string, q: string, rest: seq<Diff<char>>)
    ensures Pass([], [], [Diff(Equal, p)] + ([Diff(Equal, q)] + rest)) == Pass([Diff(Equal, p + q)], [], rest)
  {
    assert Flush([], [], Diff(Equal, p)) == [Diff(Equal, p)];
    PassEqual([], [], Diff(Equal, p), [Diff(Equal, q)] + rest);
    EqualJoins(p, q, rest);
  }

  /** A last equality and the dummy join the equality written before them. */
  lemma EndJoins(s: string, t: string)
    ensures Pass([Diff(Equal, s)], [], [Diff(Equal, t)] + [Diff(Equal, [])]) == [Diff(Equal, s + t)]
  {
    EqualJoins(s, t, [Diff(Equal, [])]);
    EqualJoins(s + t, [], []);
    assert s + t + [] == s + t;
  }

  /** An equality read while the only thing written is an equality, with
      nothing pending, joins it. */
  lemma EqualJoins(s: string, u: string, rest: seq<Diff<char>>)
    ensures Pass([Diff(Equal, s)], [], [Diff(Equal, u)] + rest) == Pass([Diff(Equal, s + u)], [], rest)
  {
    PassEqual([Diff(Equal, s)], [], Diff(Equal, u), rest);
    assert Flush([Diff(Equal, s)], [], Diff(Equal, u)) == [Diff(Equal, s + u)];
  }

  /** Three edits of one kind `op` form a run holding none of the other kind,
      whose texts are their concatenation. */
  lemma SameRun(op: Op, u: string, v: string, w: string)
    requires op != Equal
    ensures var run := [Diff(op, u), Diff(op, v), Diff(op, w)];
      AllEdits(run) && NumOf(run, if op == Delete then Insert else Delete) == 0 && |run| == 3
      && Text1(run) == (if op == Delete then u + v + w else [])
      && Text2(run) == (if op == Insert then u + v + w else [])
  {
    var x, y, z := Diff(op, u), Diff(op, v), Diff(op, w);
    SamePair(op, u, v);
    RunGrow([x, y], z);
    assert [x, y] + [z] == [x, y, z];
  }

  /** A run of edits of one kind `op` is joined into one edit. */
  lemma MergeSame(op: Op, u: string, v: string, w: string)
    requires op != Equal && u + v + w != []
    ensures Merge([Diff(op, u), Diff(op, v), Diff(op, w)]) == [Diff(op, u + v + w)]
  {
    var run := [Diff(op, u), Diff(op, v), Diff(op, w)];
    var r := [Diff(op, u + v + w)];
    SameRun(op, u, v, w);
    assert Flush([], run, Diff(Equal, [])) == r + [Diff(Equal, [])];
    FirstPassWholeRun(run, r);
    assert SecondFrom(r, 1, false) == (r, false);
    MergeSettles(run, r);
  }

  /** The first pass over a script that is one run of edits, which `Flush`
      turns into `o` followed by the dummy equality. */
  lemma FirstPassWholeRun(run: seq<Diff<char>>, o: seq<Diff<char>>)
    requires AllEdits(run) && Flush([], run, Diff(Equal, [])) == o + [Diff(Equal, [])]
    ensures FirstPass(run) == o
  {
    var dummy: Diff<char> := Diff(Equal, []);
    PassRun([], [], run, [dummy]);
    assert [] + run == run;
    PassEqual([], run, dummy, []);
    assert o + [dummy] + [] == o + [dummy];
    assert (o + [dummy])[..|o + [dummy]| - 1] == o;
  }

  lemma MergeDeletions()
    ensures Merge([Diff(Delete, "a"), Diff(Delete, "b"), Diff(Delete, "c")]) == [Diff(Delete, "abc")]
  {
    assert "a" + "b" + "c" == "abc";
    MergeSame(Delete, "a", "b", "c");
  }

  lemma MergeInsertions()
    ensures Merge([Diff(Insert, "a"), Diff(Insert, "b"), Diff(Insert, "c")]) == [Diff(Insert, "abc")]
  {
    assert "a" + "b" + "c" == "abc";
    MergeSame(Insert, "a", "b", "c");
  }

  /** A run alternating deletions and insertions. */
  lemma Alternating(u: string, v: string, w: string, z: string)
    ensures var run := [Diff(Delete, u), Diff(Insert, v), Diff(Delete, w), Diff(Insert, z)];
      AllEdits(run) && NumOf(run, Delete) == 2 && NumOf(run, Insert) == 2 && Text1(run) == u + w && Text2(run) == v + z
  {
    var p, q, r, s := Diff(Delete, u), Diff(Insert, v), Diff(Delete, w), Diff(Insert, z);
    PairRun(u, v);
    RunGrow([p, q], r);
    assert [p, q] + [r] == [p, q, r];
    RunGrow([p, q, r], s);
    assert [p, q, r] + [s] == [p, q, r, s];
  }

  /** The run of `Interweave`: two deletions and two insertions. */
  lemma InterweaveRun()
    ensures var run := [Diff(Delete, "a"), Diff(Insert, "b"), Diff(Delete, "c"), Diff(Insert, "d")];
      AllEdits(run) && NumOf(run, Delete) == 2 && NumOf(run, Insert) == 2 && Text1(run) == "ac" && Text2(run) == "bd"
  {
    Alternating("a", "b", "c", "d");
    assert "a" + "c" == "ac" && "b" + "d" == "bd";
  }

  /** The run of `Interweave` reaching the first equality. */
  lemma InterweaveFlush()
    ensures Flush([], [Diff(Delete, "a"), Diff(Insert, "b"), Diff(Delete, "c"), Diff(Insert, "d")], Diff(Equal, "e"))
         == [Diff(Delete, "ac"), Diff(Insert, "bd"), Diff(Equal, "e")]
  {
    InterweaveRun();
    InterweaveCommon();
    FlushUnshared([Diff(Delete, "a"), Diff(Insert, "b"), Diff(Delete, "c"), Diff(Insert, "d")], Diff(Equal, "e"));
  }

  /** A run of both kinds whose deleted and inserted texts share no front and
      no back collapses into one deletion and one insertion. */
  lemma FlushUnshared(run: seq<Diff<char>>, x: Diff<char>)
    requires |run| > 1 && NumOf(run, Delete) != 0 && NumOf(run, Insert) != 0
    requires Text1(run) != [] && Text2(run) != []
    requires CommonPrefix(Text2(run), Text1(run)) == 0 && CommonSuffix(Text2(run), Text1(run)) == 0
    ensures Flush([], run, x) == [Diff(Delete, Text1(run)), Diff(Insert, Text2(run)), x]
  {
    CollapseFactored([], run, x);
    NothingShared(Text1(run), Text2(run), x);
  }

  lemma InterweaveCommon()
    ensures CommonPrefix("bd", "ac") == 0 && CommonSuffix("bd", "ac") == 0
  {
  }

  /** The first pass over a run that `Flush` turns into `o` and the
      equality `x`, followed by a second equality `y`. */
  lemma FirstPassTwoEqual(run: seq<Diff<char>>, o: seq<Diff<char>>, x: Diff<char>, y: Diff<char>, d: seq<Diff<char>>, r: seq<Diff<char>>)
    requires AllEdits(run) && x.op == Equal && y.op == Equal && x.text + y.text != []
    requires Flush([], run, x) == o + [x]
    requires d == run + [x, y] && r == o + [Diff(Equal, x.text + y.text)]
    ensures FirstPass(d) == r
  {
    FirstPassRunTwoEqual(run, o, x, y);
  }

  /** `FirstPassTwoEqual` with the script and its result written out. */
  lemma FirstPassRunTwoEqual(run: seq<Diff<char>>, o: seq<Diff<char>>, x: Diff<char>, y: Diff<char>)
    requires AllEdits(run) && x.op == Equal && y.op == Equal && x.text + y.text != []
    requires Flush([], run, x) == o + [x]
    ensures FirstPass(run + [x, y]) == o + [Diff(Equal, x.text + y.text)]
  {
    var dummy: Diff<char> := Diff(Equal, []);
    var xy := Diff(Equal, x.text + y.text);
    PassRunToEqual(run, o + [x], x, [y] + [dummy]);
    assert run + [x, y] + [dummy] == run + ([x] + ([y] + [dummy]));
    JoinEqual(o, x, y);
    PassEqual(o + [x], [], y, [dummy]);
    PassDummy(o + [xy]);
  }

  /** The first pass gathers a run and deals with the equality `x` after it. */
  lemma PassRunToEqual(run: seq<Diff<char>>, o: seq<Diff<char>>, x: Diff<char>, rest: seq<Diff<char>>)
    requires AllEdits(run) && x.op == Equal && Flush([], run, x) == o
    ensures Pass([], [], run + ([x] + rest)) == Pass(o, [], rest)
  {
    PassRun([], [], run, [x] + rest);
    assert [] + run == run;
    PassEqual([], run, x, rest);
  }

  /** An equality straight after an equality joins it. */
  lemma JoinEqual(o: seq<Diff<char>>, x: Diff<char>, y: Diff<char>)
    requires x.op == Equal
    ensures Flush(o + [x], [], y) == o + [Diff(Equal, x.text + y.text)]
  {
    assert (o + [x])[..|o + [x]| - 1] == o;
  }

  /** The first pass over the script of `Interweave`. */
  lemma InterweaveFirst()
    ensures FirstPass([Diff(Delete, "a"), Diff(Insert, "b"), Diff(Delete, "c"), Diff(Insert, "d"), Diff(Equal, "e"), Diff(Equal, "f")])
         == [Diff(Delete, "ac"), Diff(Insert, "bd"), Diff(Equal, "ef")]
  {
    var run := [Diff(Delete, "a"), Diff(Insert, "b"), Diff(Delete, "c"), Diff(Insert, "d")];
    InterweaveRun();
    InterweaveFlush();
    InterweaveParts();
    FirstPassTwoEqual(run, [Diff(Delete, "ac"), Diff(Insert, "bd")], Diff(Equal, "e"), Diff(Equal, "f"),
                      [Diff(Delete, "a"), Diff(Insert, "b"), Diff(Delete, "c"), Diff(Insert, "d"), Diff(Equal, "e"), Diff(Equal, "f")],
                      [Diff(Delete, "ac"), Diff(Insert, "bd"), Diff(Equal, "ef")]);
  }

  lemma InterweaveParts()
    ensures [Diff(Delete, "ac"), Diff(Insert, "bd")] + [Diff(Equal, "e")] == [Diff(Delete, "ac"), Diff(Insert, "bd"), Diff(Equal, "e")]
    ensures [Diff(Delete, "ac"), Diff(Insert, "bd")] + [Diff(Equal, "e" + "f")] == [Diff(Delete, "ac"), Diff(Insert, "bd"), Diff(Equal, "ef")]
    ensures [Diff(Delete, "a"), Diff(Insert, "b"), Diff(Delete, "c"), Diff(Insert, "d")] + [Diff(Equal, "e"), Diff(Equal, "f")]
         == [Diff(Delete, "a"), Diff(Insert, "b"), Diff(Delete, "c"), Diff(Insert, "d"), Diff(Equal, "e"), Diff(Equal, "f")]
  {
    assert "e" + "f" == "ef";
  }

  /** Interleaved deletions and insertions are gathered, and the equalities after them joined. */
  lemma Interweave()
    ensures Merge([Diff(Delete, "a"), Diff(Insert, "b"), Diff(Delete, "c"), Diff(Insert, "d"), Diff(Equal, "e"), Diff(Equal, "f")])
         == [Diff(Delete, "ac"), Diff(Insert, "bd"), Diff(Equal, "ef")]
  {
    var r := [Diff(Delete, "ac"), Diff(Insert, "bd"), Diff(Equal, "ef")];
    InterweaveFirst();
    assert SecondFrom(r, 1, false) == (r, false);
  }

  /** Factoring the deleted "adc" against the inserted "abc" with nothing before them. */
  lemma PrefixSuffixValue()
    ensures Factored([], "adc", "abc", Diff(Equal, []))
         == [Diff(Equal, "a"), Diff(Delete, "d"), Diff(Insert, "b"), Diff(Equal, "c")]
  {
    PrefixSuffixCommon();
    PrefixSuffixBack();
    assert ShareBefore<char>([], "a") == [Diff(Equal, "a")];
    assert [Diff(Equal, "a")] + [Diff(Delete, "d"), Diff(Insert, "b"), Diff(Equal, "c")]
        == [Diff(Equal, "a"), Diff(Delete, "d"), Diff(Insert, "b"), Diff(Equal, "c")];
  }

  /** "abc" and "adc" share the front "a". */
  lemma PrefixSuffixCommon()
    ensures CommonPrefix("abc", "adc") == 1
    ensures "abc"[..1] == "a" && "adc"[1..] == "dc" && "abc"[1..] == "bc"
  {
    assert "abc"[..2] != "adc"[..2] by {
      assert "abc"[..2][1] == 'b';
    }
  }

  /** The back "c" shared by "dc" and "bc" moves into the dummy equality. */
  lemma PrefixSuffixBack()
    ensures FactoredBack<char>([Diff(Equal, "a")], "dc", "bc", Diff(Equal, []))
         == [Diff(Equal, "a")] + [Diff(Delete, "d"), Diff(Insert, "b"), Diff(Equal, "c")]
  {
    FactoredBackFront<char>([Diff(Equal, "a")], "dc", "bc", Diff(Equal, []));
    assert CommonSuffix("bc", "dc") == 1;
    assert "dc"[..1] == "d" && "bc"[..1] == "b" && "bc"[1..] == "c" && "c" + [] == "c";
    assert Collapsed("d", "b") == [Diff(Delete, "d"), Diff(Insert, "b")];
  }

  /** The first pass over a script that is one run of edits. */
  lemma FirstPassRun(run: seq<Diff<char>>, r: seq<Diff<char>>)
    requires AllEdits(run) && Flush([], run, Diff(Equal, [])) == r && r != [] && r[|r| - 1].text != []
    ensures FirstPass(run) == r
  {
    var dummy: Diff<char> := Diff(Equal, []);
    PassRun([], [], run, [dummy]);
    assert [] + run == run;
    PassEqual([], run, dummy, []);
    assert r + [] == r;
  }

  /** The first pass over the script of `PrefixSuffix`. */
  lemma PrefixSuffixFirst()
    ensures FirstPass([Diff(Delete, "a"), Diff(Insert, "abc"), Diff(Delete, "dc")])
         == [Diff(Equal, "a"), Diff(Delete, "d"), Diff(Insert, "b"), Diff(Equal, "c")]
  {
    var run := [Diff(Delete, "a"), Diff(Insert, "abc"), Diff(Delete, "dc")];
    var r := [Diff(Equal, "a"), Diff(Delete, "d"), Diff(Insert, "b"), Diff(Equal, "c")];
    PrefixSuffixFlush();
    assert AllEdits(run);
    FirstPassRun(run, r);
  }

  lemma PrefixSuffixFlush()
    ensures Flush([], [Diff(Delete, "a"), Diff(Insert, "abc"), Diff(Delete, "dc")], Diff(Equal, []))
         == [Diff(Equal, "a"), Diff(Delete, "d"), Diff(Insert, "b"), Diff(Equal, "c")]
  {
    FactorRunTexts();
    CollapseFactored([], [Diff(Delete, "a"), Diff(Insert, "abc"), Diff(Delete, "dc")], Diff(Equal, []));
    PrefixSuffixValue();
  }

  /** The shared front and back of the deleted and inserted texts become equalities. */
  lemma PrefixSuffix()
    ensures Merge([Diff(Delete, "a"), Diff(Insert, "abc"), Diff(Delete, "dc")])
         == [Diff(Equal, "a"), Diff(Delete, "d"), Diff(Insert, "b"), Diff(Equal, "c")]
  {
    var r := [Diff(Equal, "a"), Diff(Delete, "d"), Diff(Insert, "b"), Diff(Equal, "c")];
    PrefixSuffixFirst();
    assert SecondFrom(r, 1, false) == SecondFrom(r, 2, false);
    assert SecondFrom(r, 2, false) == SecondFrom(r, 3, false);
  }

  /** The first pass leaves a single edit between two equalities alone. */
  lemma FlankedFirst(p: string, y: Diff<char>, s: string)
    requires y.op != Equal && s != []
    ensures FirstPass([Diff(Equal, p), y, Diff(Equal, s)]) == [Diff(Equal, p), y, Diff(Equal, s)]
  {
    var dummy: Diff<char> := Diff(Equal, []);
    var a, c := Diff(Equal, p), Diff(Equal, s);
    assert [a, y, c] + [dummy] == [a] + ([y] + ([c] + [dummy]));
    assert Flush([], [], a) == [a];
    PassEqual([], [], a, [y] + ([c] + [dummy]));
    PassLoneEdit([a], y, c, [dummy]);
    assert [a] + [y, c] == [a, y, c];
    PassDummy([a, y, c]);
  }

  /** The first pass leaves an edit followed by an equality alone. */
  lemma EditEqualFirst(y: Diff<char>, s: string)
    requires y.op != Equal && s != []
    ensures FirstPass([y, Diff(Equal, s)]) == [y, Diff(Equal, s)]
  {
    var dummy: Diff<char> := Diff(Equal, []);
    var c := Diff(Equal, s);
    assert [y, c] + [dummy] == [y] + ([c] + [dummy]);
    PassLoneEdit([], y, c, [dummy]);
    assert [] + [y, c] == [y, c];
    PassDummy([y, c]);
  }

  /** An edit followed by an equality is left alone. */
  lemma EditEqualSettled(y: Diff<char>, s: string)
    requires y.op != Equal && s != []
    ensures Merge([y, Diff(Equal, s)]) == [y, Diff(Equal, s)]
  {
    var d := [y, Diff(Equal, s)];
    EditEqualFirst(y, s);
    assert SecondFrom(d, 1, false) == (d, false);
    MergeSettles(d, d);
  }

  /** An equality followed by an edit is left alone. */
  lemma EqualEditSettled(p: string, y: Diff<char>)
    requires y.op != Equal && y.text != []
    ensures Merge([Diff(Equal, p), y]) == [Diff(Equal, p), y]
  {
    var dummy: Diff<char> := Diff(Equal, []);
    var a := Diff(Equal, p);
    var d := [a, y];
    assert d + [dummy] == [a] + ([y] + [dummy]);
    assert Flush([], [], a) == [a];
    PassEqual([], [], a, [y] + [dummy]);
    PassEdit([a], [], y, [dummy]);
    assert Flush([a], [] + [y], dummy) == d + [dummy];
    PassEqual([a], [] + [y], dummy, []);
    assert d + [dummy] + [] == d + [dummy];
    assert FirstPass(d) == d;
    assert SecondFrom(d, 1, false) == (d, false);
  }

  /** An insertion starting with the equality after it slides right. */
  lemma SlideRight()
    ensures Merge([Diff(Equal, "c"), Diff(Insert, "ab"), Diff(Equal, "a")]) == [Diff(Equal, "ca"), Diff(Insert, "ba")]
  {
    var d := [Diff(Equal, "c"), Diff(Insert, "ab"), Diff(Equal, "a")];
    var r := [Diff(Equal, "ca"), Diff(Insert, "ba")];
    FlankedFirst("c", Diff(Insert, "ab"), "a");
    SlideRightParts();
    assert SecondFrom(d, 1, false) == (r, true);
    EqualEditSettled("ca", Diff(Insert, "ba"));
  }

  lemma SlideRightParts()
    ensures !EndsWith("ab", "c") && StartsWith("ab", "a")
    ensures [Diff(Equal, "c"), Diff(Insert, "ab"), Diff(Equal, "a")][..0] + [Diff(Equal, "c" + "a"), Diff(Insert, "ab"[|"a"|..] + "a")]
      + [Diff(Equal, "c"), Diff(Insert, "ab"), Diff(Equal, "a")][3..] == [Diff(Equal, "ca"), Diff(Insert, "ba")]
  {
    assert "ab"[1..] == "b";
    assert "ab"[1..][0] == 'b';
    assert "ab"[..1] == "a";
    assert "b" + "a" == "ba" && "c" + "a" == "ca";
  }

  /** The first pass over a run closed by the equality `x`, when `Flush` ends
      what it writes with an equality holding text. */
  lemma PassRunEqual(run: seq<Diff<char>>, o: seq<Diff<char>>, x: Diff<char>)
    requires AllEdits(run) && x.op == Equal && Flush([], run, x) == o
    requires o != [] && o[|o| - 1].op == Equal && o[|o| - 1].text != []
    ensures FirstPass(run + [x]) == o
  {
    var dummy: Diff<char> := Diff(Equal, []);
    PassToEqual(run, x);
    PassEqual([], run, x, [dummy]);
    FlushDummy(o);
    PassEqual(o, [], dummy, []);
    assert o + [] == o;
  }

  /** The first pass gathering a run up to the equality after it. */
  lemma PassToEqual(run: seq<Diff<char>>, x: Diff<char>)
    requires AllEdits(run)
    ensures var dummy: Diff<char> := Diff(Equal, []);
      Pass([], [], run + [x] + [dummy]) == Pass([], run, [x] + [dummy])
  {
    var dummy: Diff<char> := Diff(Equal, []);
    assert run + [x] + [dummy] == run + ([x] + [dummy]);
    PassRun([], [], run, [x] + [dummy]);
    assert [] + run == run;
  }

  /** The dummy equality at the end of the first pass joins a last equality unchanged. */
  lemma FlushDummy(o: seq<Diff<char>>)
    requires o != [] && o[|o| - 1].op == Equal
    ensures Flush(o, [], Diff(Equal, [])) == o
  {
    assert o[|o| - 1].text + [] == o[|o| - 1].text;
    assert o[..|o| - 1] + [o[|o| - 1]] == o;
  }

  /** Factoring the deleted "b" against the inserted "ab": the shared back
      moves into the equality and the deletion vanishes. */
  lemma EmptyMergeValue()
    ensures Factored([], "b", "ab", Diff(Equal, "c")) == [Diff(Insert, "a"), Diff(Equal, "bc")]
  {
    assert CommonPrefix("ab", "b") == 0 by {
      assert "ab"[0] != "b"[0];
    }
    assert "b"[0..] == "b" && "ab"[0..] == "ab";
    assert CommonSuffix("ab", "b") == 1;
    assert "b"[..0] == [] && "ab"[..1] == "a" && "ab"[1..] == "b" && "b" + "c" == "bc";
    assert Collapsed([], "a") == [Diff(Insert, "a")];
  }

  lemma EmptyMergeFlush()
    ensures Flush([], [Diff(Delete, "b"), Diff(Insert, "ab")], Diff(Equal, "c")) == [Diff(Insert, "a"), Diff(Equal, "bc")]
  {
    PairRun("b", "ab");
    CollapseFactored([], [Diff(Delete, "b"), Diff(Insert, "ab")], Diff(Equal, "c"));
    EmptyMergeValue();
  }

  /** A deletion that is wholly the shared back of the insertion disappears. */
  lemma EmptyMerge()
    ensures Merge([Diff(Delete, "b"), Diff(Insert, "ab"), Diff(Equal, "c")]) == [Diff(Insert, "a"), Diff(Equal, "bc")]
  {
    var run := [Diff(Delete, "b"), Diff(Insert, "ab")];
    var r := [Diff(Insert, "a"), Diff(Equal, "bc")];
    PairRun("b", "ab");
    EmptyMergeFlush();
    PassRunEqual(run, r, Diff(Equal, "c"));
    EmptyMergeParts();
    assert SecondFrom(r, 1, false) == (r, false);
  }

  lemma EmptyMergeParts()
    ensures [Diff(Delete, "b"), Diff(Insert, "ab")] + [Diff(Equal, "c")] == [Diff(Delete, "b"), Diff(Insert, "ab"), Diff(Equal, "c")]
  {
  }

  /** An empty equality at the start is absorbed by sliding the edit over it. */
  lemma EmptyEquality()
    ensures Merge([Diff(Equal, ""), Diff(Insert, "a"), Diff(Equal, "b")]) == [Diff(Insert, "a"), Diff(Equal, "b")]
  {
    var d := [Diff(Equal, ""), Diff(Insert, "a"), Diff(Equal, "b")];
    var r := [Diff(Insert, "a"), Diff(Equal, "b")];
    FlankedFirst("", Diff(Insert, "a"), "b");
    EmptyEqualityParts();
    assert SecondFrom(d, 1, false) == (r, true);
    EditEqualSettled(Diff(Insert, "a"), "b");
  }

  lemma EmptyEqualityParts()
    ensures EndsWith("a", "")
    ensures [Diff(Equal, ""), Diff(Insert, "a"), Diff(Equal, "b")][..0] + [Diff(Insert, "" + "a"[..|"a"| - |""|]), Diff(Equal, "" + "b")]
      + [Diff(Equal, ""), Diff(Insert, "a"), Diff(Equal, "b")][3..] == [Diff(Insert, "a"), Diff(Equal, "b")]
  {
    assert "a"[..1] == "a" && "" + "a" == "a" && "" + "b" == "b";
  }

  /** The first pass leaves two edits between three equalities as they are. */
  lemma FirstPassFlanked2(p: string, y: Diff<char>, q: string, z: Diff<char>, s: string)
    requires s != [] && y.op != Equal && z.op != Equal
    ensures var d := [Diff(Equal, p), y, Diff(Equal, q), z, Diff(Equal, s)];
            FirstPass(d) == d
  {
    var e1, e2, e3 := Diff(Equal, p), Diff(Equal, q), Diff(Equal, s);
    var d := [e1, y, e2, z, e3];
    Flanked2Front(e1, y, e2, z, e3);
    Flanked2Back([e1, y, e2], z, e3);
    assert [e1, y, e2] + [z, e3] == d;
    PassDummy(d);
  }

  /** The first pass over an equality, a lone edit and an equality. */
  lemma Flanked2Front(e1: Diff<char>, y: Diff<char>, e2: Diff<char>, z: Diff<char>, e3: Diff<char>)
    requires e1.op == Equal && y.op != Equal && e2.op == Equal
    ensures Pass([], [], [e1, y, e2, z, e3] + [Diff(Equal, [])]) == Pass([e1, y, e2], [], [z] + ([e3] + [Diff(Equal, [])]))
  {
    var dummy: Diff<char> := Diff(Equal, []);
    var rest := [z] + ([e3] + [dummy]);
    assert [e1, y, e2, z, e3] + [dummy] == [e1] + ([y] + ([e2] + rest));
    assert Flush([], [], e1) == [e1];
    PassEqual([], [], e1, [y] + ([e2] + rest));
    PassLoneEdit([e1], y, e2, rest);
    assert [e1] + [y, e2] == [e1, y, e2];
  }

  /** The first pass over a lone edit and the equality closing the script. */
  lemma Flanked2Back(out: seq<Diff<char>>, z: Diff<char>, e3: Diff<char>)
    requires z.op != Equal && e3.op == Equal
    ensures Pass(out, [], [z] + ([e3] + [Diff(Equal, [])])) == Pass(out + [z, e3], [], [Diff(Equal, [])])
  {
    PassLoneEdit(out, z, e3, [Diff(Equal, [])]);
  }

  /** The first pass over a lone edit and the equality after it copies both. */
  lemma PassLoneEdit(out: seq<Diff<char>>, y: Diff<char>, e: Diff<char>, rest: seq<Diff<char>>)
    requires y.op != Equal && e.op == Equal
    ensures Pass(out, [], [y] + ([e] + rest)) == Pass(out + [y, e], [], rest)
  {
    PassEdit(out, [], y, [e] + rest);
    PassEqual(out, [] + [y], e, rest);
    assert out + ([] + [y]) + [e] == out + [y, e];
  }

  /** The first pass ends on the dummy equality, which a last equality absorbs. */
  lemma PassDummy(d: seq<Diff<char>>)
    requires d != [] && d[|d| - 1].op == Equal && d[|d| - 1].text != []
    ensures DropEmptyLast(Pass(d, [], [Diff(Equal, [])])) == d
  {
    var dummy: Diff<char> := Diff(Equal, []);
    FlushDummy(d);
    assert [dummy] == [dummy] + [];
    PassEqual(d, [], dummy, []);
    assert d + [] == d;
  }

  /** Two edits of one kind `op` form a run holding none of the other kind. */
  lemma SamePair(op: Op, u: string, v: string)
    requires op != Equal
    ensures var run := [Diff(op, u), Diff(op, v)];
      AllEdits(run) && NumOf(run, if op == Delete then Insert else Delete) == 0 && |run| == 2
      && Text1(run) == (if op == Delete then u + v else [])
      && Text2(run) == (if op == Insert then u + v else [])
  {
    var x, y := Diff(op, u), Diff(op, v);
    RunGrow([], x);
    assert [] + [x] == [x];
    RunGrow([x], y);
    assert [x] + [y] == [x, y];
  }

  /** The first pass over a run between two equalities, when `Flush` ends
      what it writes with an equality holding text. */
  lemma FirstPassAround(p: string, run: seq<Diff<char>>, s: string, o: seq<Diff<char>>)
    requires AllEdits(run) && Flush([Diff(Equal, p)], run, Diff(Equal, s)) == o
    requires o != [] && o[|o| - 1].op == Equal && o[|o| - 1].text != []
    ensures FirstPass([Diff(Equal, p)] + run + [Diff(Equal, s)]) == o
  {
    var dummy: Diff<char> := Diff(Equal, []);
    PassAround(p, run, s);
    PassEqual([Diff(Equal, p)], run, Diff(Equal, s), [dummy]);
    FlushDummy(o);
    PassEqual(o, [], dummy, []);
    assert o + [] == o;
  }

  /** The first pass reaching the equality that closes a run. */
  lemma PassAround(p: string, run: seq<Diff<char>>, s: string)
    requires AllEdits(run)
    ensures var dummy: Diff<char> := Diff(Equal, []);
      Pass([], [], [Diff(Equal, p)] + run + [Diff(Equal, s)] + [dummy]) == Pass([Diff(Equal, p)], run, [Diff(Equal, s)] + [dummy])
  {
    var dummy: Diff<char> := Diff(Equal, []);
    var a, c := Diff(Equal, p), Diff(Equal, s);
    assert [a] + run + [c] + [dummy] == [a] + (run + ([c] + [dummy]));
    assert Flush([], [], a) == [a];
    PassEqual([], [], a, run + ([c] + [dummy]));
    PassRun([a], [], run, [c] + [dummy]);
    assert [] + run == run;
  }

  /** Two deletions between two equalities collapse into one. */
  lemma FlushDeletions(p: string, u: string, v: string, s: string)
    requires u + v != []
    ensures Flush([Diff(Equal, p)], [Diff(Delete, u), Diff(Delete, v)], Diff(Equal, s))
         == [Diff(Equal, p), Diff(Delete, u + v), Diff(Equal, s)]
  {
    SamePair(Delete, u, v);
    assert Collapsed(u + v, []) == [Diff(Delete, u + v)];
  }

  /** One round of the recursive slide to the left. */
  lemma SlideLeftRecursiveRound1()
    ensures Merge([Diff(Equal, "a"), Diff(Delete, "b"), Diff(Equal, "c"), Diff(Delete, "ac"), Diff(Equal, "x")])
         == Merge([Diff(Equal, "a"), Diff(Delete, "b"), Diff(Delete, "ca"), Diff(Equal, "cx")])
  {
    var d := [Diff(Equal, "a"), Diff(Delete, "b"), Diff(Equal, "c"), Diff(Delete, "ac"), Diff(Equal, "x")];
    var d2 := [Diff(Equal, "a"), Diff(Delete, "b"), Diff(Delete, "ca"), Diff(Equal, "cx")];
    FirstPassFlanked2("a", Diff(Delete, "b"), "c", Diff(Delete, "ac"), "x");
    SlideLeftRecursiveParts1();
    assert SecondFrom(d, 1, false) == SecondFrom(d, 2, false);
    assert SecondFrom(d, 2, false) == SecondFrom(d, 3, false);
    assert SecondFrom(d, 3, false) == SecondFrom(d2, 4, true);
    MergeAgain(d, d, d2);
  }

  lemma SlideLeftRecursiveParts1()
    ensures !EndsWith("b", "a") && !StartsWith("b", "c") && EndsWith("ac", "c")
    ensures var d := [Diff(Equal, "a"), Diff(Delete, "b"), Diff(Equal, "c"), Diff(Delete, "ac"), Diff(Equal, "x")];
      d[..2] + [Diff(Delete, "c" + "ac"[..|"ac"| - |"c"|]), Diff(Equal, "c" + "x")] + d[5..]
      == [Diff(Equal, "a"), Diff(Delete, "b"), Diff(Delete, "ca"), Diff(Equal, "cx")]
  {
    assert "b"[0] == 'b';
    assert "ac"[1..] == "c" && "ac"[..1] == "a";
    assert "c" + "a" == "ca" && "c" + "x" == "cx";
  }

  /** The second round: the two deletions collapse and slide left again. */
  lemma SlideLeftRecursiveRound2()
    ensures Merge([Diff(Equal, "a"), Diff(Delete, "b"), Diff(Delete, "ca"), Diff(Equal, "cx")])
         == Merge([Diff(Delete, "abc"), Diff(Equal, "acx")])
  {
    var d2 := [Diff(Equal, "a"), Diff(Delete, "b"), Diff(Delete, "ca"), Diff(Equal, "cx")];
    var d3 := [Diff(Equal, "a"), Diff(Delete, "bca"), Diff(Equal, "cx")];
    var r := [Diff(Delete, "abc"), Diff(Equal, "acx")];
    SlideLeftRecursiveFirst2();
    SlideLeftRecursiveParts2();
    assert SecondFrom(d3, 1, false) == (r, true);
    MergeAgain(d2, d3, r);
  }

  lemma SlideLeftRecursiveFirst2()
    ensures FirstPass([Diff(Equal, "a"), Diff(Delete, "b"), Diff(Delete, "ca"), Diff(Equal, "cx")])
         == [Diff(Equal, "a"), Diff(Delete, "bca"), Diff(Equal, "cx")]
  {
    SamePair(Delete, "b", "ca");
    FlushDeletions("a", "b", "ca", "cx");
    SlideLeftRecursiveParts2();
    FirstPassAround("a", [Diff(Delete, "b"), Diff(Delete, "ca")], "cx", [Diff(Equal, "a"), Diff(Delete, "bca"), Diff(Equal, "cx")]);
  }

  lemma SlideLeftRecursiveParts2()
    ensures "b" + "ca" == "bca" && EndsWith("bca", "a")
    ensures [Diff(Equal, "a")] + [Diff(Delete, "b"), Diff(Delete, "ca")] + [Diff(Equal, "cx")]
         == [Diff(Equal, "a"), Diff(Delete, "b"), Diff(Delete, "ca"), Diff(Equal, "cx")]
    ensures var d3 := [Diff(Equal, "a"), Diff(Delete, "bca"), Diff(Equal, "cx")];
      d3[..0] + [Diff(Delete, "a" + "bca"[..|"bca"| - |"a"|]), Diff(Equal, "a" + "cx")] + d3[3..]
      == [Diff(Delete, "abc"), Diff(Equal, "acx")]
  {
    assert "bca"[2..] == "a" && "bca"[..2] == "bc";
    assert "a" + "bc" == "abc" && "a" + "cx" == "acx";
  }

  /** An edit slides left twice, picking up the edit before it on the way. */
  lemma SlideLeftRecursive()
    ensures Merge([Diff(Equal, "a"), Diff(Delete, "b"), Diff(Equal, "c"), Diff(Delete, "ac"), Diff(Equal, "x")])
         == [Diff(Delete, "abc"), Diff(Equal, "acx")]
  {
    SlideLeftRecursiveRound1();
    SlideLeftRecursiveRound2();
    EditEqualSettled(Diff(Delete, "abc"), "acx");
  }

  /** One round of the recursive slide to the right. */
  lemma SlideRightRecursiveRound1()
    ensures Merge([Diff(Equal, "x"), Diff(Delete, "ca"), Diff(Equal, "c"), Diff(Delete, "b"), Diff(Equal, "a")])
         == Merge([Diff(Equal, "xc"), Diff(Delete, "ac"), Diff(Delete, "b"), Diff(Equal, "a")])
  {
    var d := [Diff(Equal, "x"), Diff(Delete, "ca"), Diff(Equal, "c"), Diff(Delete, "b"), Diff(Equal, "a")];
    var d2 := [Diff(Equal, "xc"), Diff(Delete, "ac"), Diff(Delete, "b"), Diff(Equal, "a")];
    FirstPassFlanked2("x", Diff(Delete, "ca"), "c", Diff(Delete, "b"), "a");
    SlideRightRecursiveParts1();
    assert SecondFrom(d, 1, false) == SecondFrom(d2, 2, true);
    assert SecondFrom(d2, 2, true) == SecondFrom(d2, 3, true);
    MergeAgain(d, d, d2);
  }

  lemma SlideRightRecursiveParts1()
    ensures !EndsWith("ca", "x") && StartsWith("ca", "c")
    ensures var d := [Diff(Equal, "x"), Diff(Delete, "ca"), Diff(Equal, "c"), Diff(Delete, "b"), Diff(Equal, "a")];
      d[..0] + [Diff(Equal, "x" + "c"), Diff(Delete, "ca"[|"c"|..] + "c")] + d[3..]
      == [Diff(Equal, "xc"), Diff(Delete, "ac"), Diff(Delete, "b"), Diff(Equal, "a")]
  {
    assert "ca"[1..] == "a" && "ca"[..1] == "c";
    assert "ca"[1..][0] == 'a';
    assert "x" + "c" == "xc" && "a" + "c" == "ac";
  }

  /** The second round: the two deletions collapse and slide right again. */
  lemma SlideRightRecursiveRound2()
    ensures Merge([Diff(Equal, "xc"), Diff(Delete, "ac"), Diff(Delete, "b"), Diff(Equal, "a")])
         == Merge([Diff(Equal, "xca"), Diff(Delete, "cba")])
  {
    var d2 := [Diff(Equal, "xc"), Diff(Delete, "ac"), Diff(Delete, "b"), Diff(Equal, "a")];
    var d3 := [Diff(Equal, "xc"), Diff(Delete, "acb"), Diff(Equal, "a")];
    var r := [Diff(Equal, "xca"), Diff(Delete, "cba")];
    SlideRightRecursiveFirst2();
    SlideRightRecursiveParts2();
    assert SecondFrom(d3, 1, false) == (r, true);
    MergeAgain(d2, d3, r);
  }

  lemma SlideRightRecursiveFirst2()
    ensures FirstPass([Diff(Equal, "xc"), Diff(Delete, "ac"), Diff(Delete, "b"), Diff(Equal, "a")])
         == [Diff(Equal, "xc"), Diff(Delete, "acb"), Diff(Equal, "a")]
  {
    SamePair(Delete, "ac", "b");
    FlushDeletions("xc", "ac", "b", "a");
    SlideRightRecursiveParts2();
    FirstPassAround("xc", [Diff(Delete, "ac"), Diff(Delete, "b")], "a", [Diff(Equal, "xc"), Diff(Delete, "acb"), Diff(Equal, "a")]);
  }

  lemma SlideRightRecursiveParts2()
    ensures "ac" + "b" == "acb" && !EndsWith("acb", "xc") && StartsWith("acb", "a")
    ensures [Diff(Equal, "xc")] + [Diff(Delete, "ac"), Diff(Delete, "b")] + [Diff(Equal, "a")]
         == [Diff(Equal, "xc"), Diff(Delete, "ac"), Diff(Delete, "b"), Diff(Equal, "a")]
    ensures var d3 := [Diff(Equal, "xc"), Diff(Delete, "acb"), Diff(Equal, "a")];
      d3[..0] + [Diff(Equal, "xc" + "a"), Diff(Delete, "acb"[|"a"|..] + "a")] + d3[3..]
      == [Diff(Equal, "xca"), Diff(Delete, "cba")]
  {
    assert "acb"[1..] == "cb" && "acb"[..1] == "a" && "acb"[1..][0] == 'c';
    assert "xc" + "a" == "xca" && "cb" + "a" == "cba";
  }

  /** An edit slides right twice, picking up the edit after it on the way. */
  lemma SlideRightRecursive()
    ensures Merge([Diff(Equal, "x"), Diff(Delete, "ca"), Diff(Equal, "c"), Diff(Delete, "b"), Diff(Equal, "a")])
         == [Diff(Equal, "xca"), Diff(Delete, "cba")]
  {
    SlideRightRecursiveRound1();
    SlideRightRecursiveRound2();
    EqualEditSettled("xca", Diff(Delete, "cba"));
  }

  /** An empty equality between two edits that the first pass cannot join is
      kept: neither pass removes it. */
  lemma EmptyEqualityBetween(x: Diff<char>, y: Diff<char>)
    requires x.op != Equal && y.op != Equal
    ensures Merge([x, Diff(Equal, []), y]) == [x, Diff(Equal, []), y]
  {
    var e: Diff<char> := Diff(Equal, []);
    var d := [x, e, y];
    EmptyEqualityFirst(x, y);
    assert SecondFrom(d, 1, false) == SecondFrom(d, 2, false) == (d, false);
    MergeSettles(d, d);
  }

  lemma EmptyEqualityFirst(x: Diff<char>, y: Diff<char>)
    requires x.op != Equal && y.op != Equal
    ensures FirstPass([x, Diff(Equal, []), y]) == [x, Diff(Equal, []), y]
  {
    var e: Diff<char> := Diff(Equal, []);
    assert [x, e, y] + [e] == [x] + ([e] + ([y] + ([e] + [])));
    PassEdit([], [], x, [e] + ([y] + ([e] + [])));
    assert [] + [x] == [x];
    PassEqual([], [x], e, [y] + ([e] + []));
    assert Flush([], [x], e) == [x, e];
    PassEdit([x, e], [], y, [e] + []);
    assert [] + [y] == [y];
    PassEqual([x, e], [y], e, []);
    assert Flush([x, e], [y], e) == [x, e, y, e];
    assert Pass([x, e, y, e], [], []) == [x, e, y, e];
    assert [x, e, y, e][..3] == [x, e, y];
  }

  /** tests/diff_test.js:323-326 drop an empty equality that the first pass
      joins to its neighbours; between two insertions it stays. */
  lemma EmptyEqualityKept()
    ensures Merge([Diff(Insert, "a"), Diff(Equal, ""), Diff(Insert, "b")]) == [Diff(Insert, "a"), Diff(Equal, ""), Diff(Insert, "b")]
  {
    EmptyEqualityBetween(Diff(Insert, "a"), Diff(Insert, "b"));
  }
}
