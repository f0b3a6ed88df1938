/** The top-level diff and the bisection on small texts. The deadline plays no
    part in the examples of the diff that never reach the bisection, so they
    hold whatever `expired` is. */
module EngineExamples {
  import opened Diffs
  import opened Common
  import opened Merges
  import opened Engine
  import opened MergeExamples

  /** The bisection of "cat" and "map" before the deadline. */
  lemma BisectNormal()
    ensures Bisect("cat", "map", false)
         == [Diff(Delete, "c"), Diff(Insert, "m"), Diff(Equal, "a"), Diff(Delete, "t"), Diff(Insert, "p")]
  {
    assert Lcs("at", "map") == 1 && Lcs("cat", "ap") == 1;
    assert Lcs("t", "map") == 0 && Lcs("at", "ap") == 1;
    assert Lcs("", "p") == 0 && Lcs("t", "") == 0;
    assert Walk("t", "p") == [Diff(Delete, "t"), Diff(Insert, "p")];
    assert Walk("at", "ap") == [Diff(Equal, "a"), Diff(Delete, "t"), Diff(Insert, "p")];
    assert Walk("at", "map") == [Diff(Insert, "m"), Diff(Equal, "a"), Diff(Delete, "t"), Diff(Insert, "p")];
  }

  /** The bisection of "cat" and "map" once the deadline has passed. */
  lemma BisectTimeout()
    ensures Bisect("cat", "map", true) == [Diff(Delete, "cat"), Diff(Insert, "map")]
  {
  }

  /** Two empty texts give the empty diff. */
  lemma MainNull(expired: bool)
    ensures DiffMain("", "", expired) == []
  {
    DiffMainSame("", expired);
  }

  /** Two equal texts give one equality. */
  lemma MainEquality(expired: bool)
    ensures DiffMain("abc", "abc", expired) == [Diff(Equal, "abc")]
  {
    DiffMainSame("abc", expired);
  }

  /** One edit between two equalities that it neither ends nor starts with is
      left alone by the merge cleanup. */
  lemma MergeFlanked(p: string, y: Diff<char>, s: string)
    requires p != [] && s != [] && y.op != Equal
    requires !EndsWith(y.text, p) && !StartsWith(y.text, s)
    ensures Merge([Diff(Equal, p), y, Diff(Equal, s)]) == [Diff(Equal, p), y, Diff(Equal, s)]
  {
    var dummy: Diff<char> := Diff(Equal, []);
    var e1, e2 := Diff(Equal, p), Diff(Equal, s);
    var d := [e1, y, e2];
    assert d + [dummy] == [e1] + ([y] + ([e2] + [dummy]));
    assert Flush([], [], e1) == [e1];
    PassEqual([], [], e1, [y] + ([e2] + [dummy]));
    PassEdit([e1], [], y, [e2] + [dummy]);
    assert Flush([e1], [] + [y], e2) == d;
    PassEqual([e1], [] + [y], e2, [dummy]);
    assert Flush(d, [], dummy) == d by {
      assert s + [] == s && d[..2] + [e2] == d;
    }
    PassEqual(d, [], dummy, []);
    assert d + [] == d;
    assert FirstPass(d) == d;
    assert SecondFrom(d, 2, false) == (d, false);
    assert SecondFrom(d, 1, false) == (d, false);
  }

  /** Two edits between three equalities, none of which slides, are left alone. */
  lemma MergeFlanked2(p: string, y: Diff<char>, q: string, z: Diff<char>, s: string)
    requires p != [] && q != [] && s != [] && y.op != Equal && z.op != Equal
    requires !EndsWith(y.text, p) && !StartsWith(y.text, q)
    requires !EndsWith(z.text, q) && !StartsWith(z.text, s)
    ensures var d := [Diff(Equal, p), y, Diff(Equal, q), z, Diff(Equal, s)];
            Merge(d) == d
  {
    var d := [Diff(Equal, p), y, Diff(Equal, q), z, Diff(Equal, s)];
    FirstPassFlanked2(p, y, q, z, s);
    assert SecondFrom(d, 4, false) == (d, false);
    assert SecondFrom(d, 3, false) == (d, false);
    assert SecondFrom(d, 2, false) == (d, false);
    assert SecondFrom(d, 1, false) == (d, false);
  }

  /** The pieces of a text made of a front `p`, a middle `m` and a back `s`. */
  lemma Parts(p: string, m: string, s: string)
    ensures var t := p + m + s;
            t[..|p|] == p && t[|p|..] == m + s && t[|t| - |s|..] == s && t[|p|..|t| - |s|] == m
  {
    var t := p + m + s;
    assert t == p + (m + s);
  }

  /** Texts made of a common prefix `p`, middles `m1` and `m2` and a common
      suffix `s`, where `p` and `s` are the longest such, are diffed by
      putting `p` and `s` around the middle. */
  lemma MainOfParts(p: string, m1: string, m2: string, s: string, expired: bool)
    requires p + m1 + s != p + m2 + s
    requires CommonPrefix(p + m1 + s, p + m2 + s) == |p| && CommonSuffix(m1 + s, m2 + s) == |s|
    ensures DiffMain(p + m1 + s, p + m2 + s, expired) == Merge(Wrap(p, Compute(m1, m2, expired), s))
  {
    var a, b := p + m1 + s, p + m2 + s;
    Parts(p, m1, s);
    Parts(p, m2, s);
    UnmergedParts(a, b, p, m1, m2, s, expired);
  }

  /** Both a prefix and a suffix are put back. */
  lemma WrapBoth(p: string, d: seq<Diff<char>>, s: string)
    requires p != [] && s != []
    ensures Wrap(p, d, s) == [Diff(Equal, p)] + d + [Diff(Equal, s)]
  {
  }

  /** One edit between the common prefix and suffix that it neither ends nor
      starts with stays between them. */
  lemma MergeWrapped(p: string, y: Diff<char>, s: string)
    requires p != [] && s != [] && y.op != Equal && !EndsWith(y.text, p) && !StartsWith(y.text, s)
    ensures Merge(Wrap(p, [y], s)) == [Diff(Equal, p), y, Diff(Equal, s)]
  {
    WrapBoth(p, [y], s);
    assert [Diff(Equal, p)] + [y] + [Diff(Equal, s)] == [Diff(Equal, p), y, Diff(Equal, s)];
    MergeFlanked(p, y, s);
  }

  /** Two edits around an equality between the common prefix and suffix,
      none of them sliding, stay where they are. */
  lemma MergeWrapped2(p: string, y: Diff<char>, q: string, z: Diff<char>, s: string)
    requires p != [] && q != [] && s != [] && y.op != Equal && z.op != Equal
    requires !EndsWith(y.text, p) && !StartsWith(y.text, q) && !EndsWith(z.text, q) && !StartsWith(z.text, s)
    ensures Merge(Wrap(p, [y, Diff(Equal, q), z], s)) == [Diff(Equal, p), y, Diff(Equal, q), z, Diff(Equal, s)]
  {
    WrapBoth(p, [y, Diff(Equal, q), z], s);
    assert [Diff(Equal, p)] + [y, Diff(Equal, q), z] + [Diff(Equal, s)] == [Diff(Equal, p), y, Diff(Equal, q), z, Diff(Equal, s)];
    MergeFlanked2(p, y, q, z, s);
  }

  /** The whole of `b` inserted. */
  lemma ComputeInsertion(b: string, expired: bool)
    ensures Compute([], b, expired) == [Diff(Insert, b)]
  {
  }

  /** The whole of `a` deleted. */
  lemma ComputeDeletion(a: string, expired: bool)
    requires a != []
    ensures Compute(a, [], expired) == [Diff(Delete, a)]
  {
  }

  /** A shorter text found inside a longer one. */
  lemma ComputeInside(long: string, short: string, i: nat, expired: bool)
    requires short != [] && |short| < |long| && IndexOf(long, short) == i
    ensures i + |short| <= |long|
    ensures Compute(short, long, expired) == Inside(long, short, i, Insert)
    ensures Compute(long, short, expired) == Inside(long, short, i, Delete)
  {
  }

  /** Where "b" is in "123b456". */
  lemma FindB()
    ensures IndexOf("123b456", "b") == 3
  {
    var s := "123b456";
    assert s[0] == '1' && s[1] == '2' && s[2] == '3' && s[3] == 'b';
    assert s[0..1][0] == '1' && s[1..2][0] == '2' && s[2..3][0] == '3' && s[3..4] == "b";
    assert !OccursAt(s, "b", 0) && !OccursAt(s, "b", 1) && !OccursAt(s, "b", 2) && OccursAt(s, "b", 3);
    assert IndexFrom(s, "b", 3) == 3;
    assert IndexFrom(s, "b", 2) == 3;
    assert IndexFrom(s, "b", 1) == 3;
  }

  /** How "abc" and "ab123c" split into a common prefix, middles and a common suffix. */
  lemma InsertionParts()
    ensures "ab" + "" + "c" == "abc" && "ab" + "123" + "c" == "ab123c" && "" + "c" == "c" && "123" + "c" == "123c"
    ensures CommonPrefix("abc", "ab123c") == 2 && CommonSuffix("c", "123c") == 1
    ensures !EndsWith("123", "ab") && !StartsWith("123", "c")
  {
    assert CommonPrefix("abc", "ab123c") == 2;
  }

  /** Simple insertion: "123" is inserted between "ab" and "c". */
  lemma MainInsertion(expired: bool)
    ensures DiffMain("abc", "ab123c", expired) == [Diff(Equal, "ab"), Diff(Insert, "123"), Diff(Equal, "c")]
  {
    var p, m1, m2, s := "ab", "", "123", "c";
    InsertionParts();
    ComputeInsertion(m2, expired);
    MainOfParts(p, m1, m2, s, expired);
    MergeWrapped(p, Diff(Insert, m2), s);
  }

  /** How "a123bc" and "abc" split. */
  lemma DeletionParts()
    ensures "a" + "123" + "bc" == "a123bc" && "a" + "" + "bc" == "abc" && "123" + "bc" == "123bc" && "" + "bc" == "bc"
    ensures CommonPrefix("a123bc", "abc") == 1 && CommonSuffix("123bc", "bc") == 2
    ensures !EndsWith("123", "a") && !StartsWith("123", "bc")
  {
    DeletionStrings();
    DeletionCommon();
  }

  lemma DeletionStrings()
    ensures "a" + "123" + "bc" == "a123bc" && "a" + "" + "bc" == "abc" && "123" + "bc" == "123bc" && "" + "bc" == "bc"
  {
  }

  lemma DeletionCommon()
    ensures CommonPrefix("a123bc", "abc") == 1 && CommonSuffix("123bc", "bc") == 2
    ensures !EndsWith("123", "a") && !StartsWith("123", "bc")
  {
    DeletionPrefix();
    DeletionSuffix();
    DeletionEnds();
  }

  lemma DeletionPrefix()
    ensures CommonPrefix("a123bc", "abc") == 1
  {
  }

  lemma DeletionSuffix()
    ensures CommonSuffix("123bc", "bc") == 2
  {
  }

  lemma DeletionEnds()
    ensures !EndsWith("123", "a") && !StartsWith("123", "bc")
  {
    assert "123"[2..][0] == '3' && "123"[..2][0] == '1';
  }

  /** Simple deletion: "123" is deleted between "a" and "bc". */
  lemma MainDeletion(expired: bool)
    ensures DiffMain("a123bc", "abc", expired) == [Diff(Equal, "a"), Diff(Delete, "123"), Diff(Equal, "bc")]
  {
    var p, m1, m2, s := "a", "123", "", "bc";
    DeletionParts();
    ComputeDeletion(m1, expired);
    MainOfParts(p, m1, m2, s, expired);
    MergeWrapped(p, Diff(Delete, m1), s);
  }

  /** How "abc" and "a123b456c" split, either way round. */
  lemma TwoEditParts()
    ensures "a" + "b" + "c" == "abc" && "a" + "123b456" + "c" == "a123b456c" && "b" + "c" == "bc" && "123b456" + "c" == "123b456c"
    ensures CommonPrefix("abc", "a123b456c") == 1 && CommonSuffix("bc", "123b456c") == 1
    ensures CommonPrefix("a123b456c", "abc") == 1 && CommonSuffix("123b456c", "bc") == 1
    ensures !EndsWith("123", "a") && !StartsWith("123", "b") && !EndsWith("456", "b") && !StartsWith("456", "c")
    ensures "123b456"[..3] == "123" && "123b456"[3 + 1..] == "456"
  {
    TwoEditJoins();
    TwoEditPrefixes();
    TwoEditSuffixes();
    TwoEditEnds();
  }

  lemma TwoEditJoins()
    ensures "a" + "b" + "c" == "abc" && "a" + "123b456" + "c" == "a123b456c" && "b" + "c" == "bc" && "123b456" + "c" == "123b456c"
    ensures "123b456"[..3] == "123" && "123b456"[3 + 1..] == "456"
  {
  }

  lemma TwoEditPrefixes()
    ensures CommonPrefix("abc", "a123b456c") == 1 && CommonPrefix("a123b456c", "abc") == 1
  {
  }

  lemma TwoEditSuffixes()
    ensures CommonSuffix("bc", "123b456c") == 1 && CommonSuffix("123b456c", "bc") == 1
  {
  }

  lemma TwoEditEnds()
    ensures !EndsWith("123", "a") && !StartsWith("123", "b") && !EndsWith("456", "b") && !StartsWith("456", "c")
  {
    assert "123"[..1][0] == '1' && "456"[..1][0] == '4';
  }

  /** Two insertions: the shorter middle "b" is found inside the longer one. */
  lemma MainTwoInsertions(expired: bool)
    ensures DiffMain("abc", "a123b456c", expired)
         == [Diff(Equal, "a"), Diff(Insert, "123"), Diff(Equal, "b"), Diff(Insert, "456"), Diff(Equal, "c")]
  {
    var p, m1, m2, s := "a", "b", "123b456", "c";
    var y, z := Diff(Insert, "123"), Diff(Insert, "456");
    TwoEditParts();
    FindB();
    ComputeInside(m2, m1, 3, expired);
    MainOfParts(p, m1, m2, s, expired);
    MergeWrapped2(p, y, m1, z, s);
  }

  /** Two deletions, the mirror image of two insertions. */
  lemma MainTwoDeletions(expired: bool)
    ensures DiffMain("a123b456c", "abc", expired)
         == [Diff(Equal, "a"), Diff(Delete, "123"), Diff(Equal, "b"), Diff(Delete, "456"), Diff(Equal, "c")]
  {
    var p, m1, m2, s := "a", "123b456", "b", "c";
    var y, z := Diff(Delete, "123"), Diff(Delete, "456");
    TwoEditParts();
    FindB();
    ComputeInside(m1, m2, 3, expired);
    MainOfParts(p, m1, m2, s, expired);
    MergeWrapped2(p, y, m2, z, s);
  }

  /** A deletion and an insertion that share no front and no back are left
      alone by the merge cleanup. */
  lemma MergePair(td: string, ti: string)
    requires td != [] && ti != [] && CommonPrefix(ti, td) == 0 && CommonSuffix(ti, td) == 0
    ensures Merge([Diff(Delete, td), Diff(Insert, ti)]) == [Diff(Delete, td), Diff(Insert, ti)]
  {
    var dummy: Diff<char> := Diff(Equal, []);
    var r := [Diff(Delete, td), Diff(Insert, ti)];
    PassPair(td, ti);
    assert (r + [dummy])[..2] == r;
    assert FirstPass(r) == r;
    assert SecondFrom(r, 1, false) == (r, false);
  }

  /** A deletion then an insertion form a run of edits with one of each,
      carrying their texts. */
  lemma PairRun(td: string, ti: string)
    ensures var r := [Diff(Delete, td), Diff(Insert, ti)];
            AllEdits(r) && NumOf(r, Delete) == 1 && NumOf(r, Insert) == 1 && Text1(r) == td && Text2(r) == ti
  {
    var x, y := Diff(Delete, td), Diff(Insert, ti);
    RunGrow([], x);
    assert [] + [x] == [x];
    RunGrow([x], y);
    assert [x] + [y] == [x, y];
  }

  /** The first pass over a deletion and an insertion that share nothing. */
  lemma PassPair(td: string, ti: string)
    requires td != [] && ti != [] && CommonPrefix(ti, td) == 0 && CommonSuffix(ti, td) == 0
    ensures var r := [Diff(Delete, td), Diff(Insert, ti)];
            Pass([], [], r + [Diff(Equal, [])]) == r + [Diff(Equal, [])]
  {
    var dummy: Diff<char> := Diff(Equal, []);
    var x, y := Diff(Delete, td), Diff(Insert, ti);
    var r := [x, y];
    PairRun(td, ti);
    PassRun([], [], r, [dummy]);
    assert [] + r == r;
    PassEqual([], r, dummy, []);
    CollapseFactored([], r, dummy);
    NothingShared(td, ti, dummy);
  }

  /** A one-character text not found in the other, no shorter, text. */
  lemma ComputeSingle(a: string, b: string, expired: bool)
    requires |a| == 1 && |b| >= 1 && IndexOf(b, a) == -1
    ensures Compute(a, b, expired) == [Diff(Delete, a), Diff(Insert, b)]
  {
  }

  /** How "a" and "b" compare: nothing shared, neither inside the other. */
  lemma SimpleParts()
    ensures [] + "a" + [] == "a" && [] + "b" + [] == "b" && "a" + [] == "a" && "b" + [] == "b"
    ensures CommonPrefix("a", "b") == 0 && CommonSuffix("a", "b") == 0 && CommonPrefix("b", "a") == 0 && CommonSuffix("b", "a") == 0
    ensures IndexOf("b", "a") == -1
  {
    assert "b"[0..1][0] == 'b';
    assert !OccursAt("b", "a", 0);
  }

  /** Two one-character texts with nothing in common: a deletion and an insertion. */
  lemma MainSimple(expired: bool)
    ensures DiffMain("a", "b", expired) == [Diff(Delete, "a"), Diff(Insert, "b")]
  {
    var a, b, e := "a", "b", "";
    SimpleParts();
    MainOfParts(e, a, b, e, expired);
    ComputeSingle(a, b, expired);
    assert Wrap(e, [Diff(Delete, a), Diff(Insert, b)], e) == [Diff(Delete, a), Diff(Insert, b)];
    MergePair(a, b);
  }
}
