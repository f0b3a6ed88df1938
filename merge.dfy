/** The merge cleanup (`diff_cleanupMerge`) as functions over the script.

    A first pass walks the script with a dummy empty equality appended. It
    gathers each run of edits up to the next equality and rewrites a run of
    two or more edits as one deletion and one insertion. The text the deletion
    and the insertion share at the front goes into the equality before the
    run; the text they share at the back goes into the equality after it. An
    equality that directly follows an equality is appended to it. A second
    pass slides a single edit that sits between two equalities over one of
    them when the edit's text ends with the equality before it or starts with
    the equality after it. Whenever the second pass slid something, the whole
    cleanup runs again. */
module Merges {
  import opened Diffs
  import opened Common

  /** Every operation of a pending run is an edit. */
  predicate AllEdits<T>(run: seq<Diff<T>>)
  {
    run == [] || (run[0].op != Equal && AllEdits(run[1..]))
  }

  /** The last operation of a run of edits is an edit. */
  lemma {:induction false} LastEdit<T>(run: seq<Diff<T>>)
    requires AllEdits(run) && run != []
    ensures run[|run| - 1].op != Equal
  {
    if |run| > 1 {
      LastEdit(run[1..]);
      assert run[1..][|run| - 2] == run[|run| - 1];
    }
  }

  /** A run stays a run of edits when the pass adds an edit to it. */
  lemma {:induction false} AllEditsAppend<T>(run: seq<Diff<T>>, y: Diff<T>)
    requires AllEdits(run) && y.op != Equal
    ensures AllEdits(run + [y])
  {
    if run == [] {
      assert run + [y] == [y] && [y][1..] == [];
    } else {
      assert (run + [y])[1..] == run[1..] + [y];
      AllEditsAppend(run[1..], y);
    }
  }

  /** How many operations of kind `op` a run holds (the pass's two counters). */
  function NumOf<T>(run: seq<Diff<T>>, op: Op): nat
  {
    if run == [] then 0 else (if run[0].op == op then 1 else 0) + NumOf(run[1..], op)
  }

  /** The script with `s` appended to the text of its last operation. */
  function ExtendLast<T>(d: seq<Diff<T>>, s: seq<T>): seq<Diff<T>>
    requires d != []
  {
    d[..|d| - 1] + [Diff(d[|d| - 1].op, d[|d| - 1].text + s)]
  }

  /** Puts the shared front `s` of a run into the equality before it, or into a
      new equality at the very start when nothing precedes the run. */
  function ShareBefore<T>(out: seq<Diff<T>>, s: seq<T>): seq<Diff<T>>
  {
    if out != [] && out[|out| - 1].op == Equal then ExtendLast(out, s)
    else [Diff(Equal, s)] + out
  }

  /** The deletion and the insertion a run collapses into; an empty one is dropped. */
  function Collapsed<T>(td: seq<T>, ti: seq<T>): seq<Diff<T>>
  {
    (if td != [] then [Diff(Delete, td)] else []) + (if ti != [] then [Diff(Insert, ti)] else [])
  }

  /** A run holding both deletions and insertions, with deleted text `td` and
      inserted text `ti`, reaching the equality `x`: the shared front moves
      before the run, then the shared back moves into `x`. */
  function Factored<T(==)>(out: seq<Diff<T>>, td: seq<T>, ti: seq<T>, x: Diff<T>): seq<Diff<T>>
  {
    var c := CommonPrefix(ti, td);
    FactoredBack(if c == 0 then out else ShareBefore(out, ti[..c]), td[c..], ti[c..], x)
  }

  /** The second half of `Factored`: the shared back of the deleted text `td`
      and the inserted text `ti` moves to the front of the equality `x`. */
  function FactoredBack<T(==)>(out: seq<Diff<T>>, td: seq<T>, ti: seq<T>, x: Diff<T>): seq<Diff<T>>
  {
    var k := CommonSuffix(ti, td);
    out + Collapsed(td[..|td| - k], ti[..|ti| - k]) + [if k == 0 then x else Diff(x.op, ti[|ti| - k..] + x.text)]
  }

  /** `FactoredBack` written out: after `out`, the collapsed remainder `c` of
      the two texts, then the equality `e` with their shared back in front. */
  lemma FactoredBackPieces<T>(out: seq<Diff<T>>, td: seq<T>, ti: seq<T>, x: Diff<T>, k: nat, c: seq<Diff<T>>, e: Diff<T>)
    requires k == CommonSuffix(ti, td)
    requires c == Collapsed(td[..|td| - k], ti[..|ti| - k])
    requires e == if k == 0 then x else Diff(x.op, ti[|ti| - k..] + x.text)
    ensures FactoredBack(out, td, ti, x) == out + c + [e]
  {
  }

  /** What `FactoredBack` writes after `out` does not depend on `out`. */
  lemma FactoredBackFront<T>(out: seq<Diff<T>>, td: seq<T>, ti: seq<T>, x: Diff<T>)
    ensures FactoredBack(out, td, ti, x) == out + FactoredBack([], td, ti, x)
  {
  }

  /** What the first pass has written once it has dealt with the equality `x`
      that ends the pending run `run`, `out` being what it had written before
      the run. */
  function Flush<T(==)>(out: seq<Diff<T>>, run: seq<Diff<T>>, x: Diff<T>): (r: seq<Diff<T>>)
    ensures r != [] && (x.op == Equal ==> r[|r| - 1].op == Equal)
  {
    if |run| > 1 then
      if NumOf(run, Delete) != 0 && NumOf(run, Insert) != 0 then Factored(out, Text1(run), Text2(run), x)
      else out + Collapsed(Text1(run), Text2(run)) + [x]
    else if |run| == 1 then out + run + [x]
    else if out != [] && out[|out| - 1].op == Equal then ExtendLast(out, x.text)
    else out + [x]
  }

  /** The first pass from a state: `out` written, `run` pending, `rest` unread. */
  function Pass<T(==)>(out: seq<Diff<T>>, run: seq<Diff<T>>, rest: seq<Diff<T>>): seq<Diff<T>>
    decreases |rest|
  {
    if rest == [] then out + run
    else if rest[0].op != Equal then Pass(out, run + [rest[0]], rest[1..])
    else Pass(Flush(out, run, rest[0]), [], rest[1..])
  }

  /** One step of the pass over an edit, and over an equality. */
  lemma PassEdit<T>(out: seq<Diff<T>>, run: seq<Diff<T>>, y: Diff<T>, rest: seq<Diff<T>>)
    requires y.op != Equal
    ensures Pass(out, run, [y] + rest) == Pass(out, run + [y], rest)
  {
    assert ([y] + rest)[1..] == rest;
  }

  lemma PassEqual<T>(out: seq<Diff<T>>, run: seq<Diff<T>>, y: Diff<T>, rest: seq<Diff<T>>)
    requires y.op == Equal
    ensures Pass(out, run, [y] + rest) == Pass(Flush(out, run, y), [], rest)
  {
    assert ([y] + rest)[1..] == rest;
  }

  /** The pass gathers a whole run of edits into its pending run. */
  lemma {:induction false} PassRun<T>(out: seq<Diff<T>>, run: seq<Diff<T>>, edits: seq<Diff<T>>, rest: seq<Diff<T>>)
    requires AllEdits(edits)
    ensures Pass(out, run, edits + rest) == Pass(out, run + edits, rest)
    decreases |edits|
  {
    if edits == [] {
      assert edits + rest == rest && run + edits == run;
    } else {
      assert edits + rest == [edits[0]] + (edits[1..] + rest);
      PassEdit(out, run, edits[0], edits[1..] + rest);
      PassRun(out, run + [edits[0]], edits[1..], rest);
      assert run + [edits[0]] + edits[1..] == run + edits;
    }
  }

  /** The script without its last operation when that one carries no text. */
  function DropEmptyLast<T>(d: seq<Diff<T>>): seq<Diff<T>>
  {
    if d != [] && d[|d| - 1].text == [] then d[..|d| - 1] else d
  }

  /** The first pass over a whole script, with the dummy equality added and
      removed. It keeps the before-text and the after-text. */
  function FirstPass<T(==)>(d: seq<Diff<T>>): (r: seq<Diff<T>>)
    ensures Text1(r) == Text1(d) && Text2(r) == Text2(d)
  {
    var dummy: Diff<T> := Diff(Equal, []);
    TextsAppend(d, [dummy]);
    TextsSingle(dummy);
    PassTexts([], [], d + [dummy]);
    DropEmptyLastTexts(Pass([], [], d + [dummy]));
    DropEmptyLast(Pass([], [], d + [dummy]))
  }

  /** `e` ends with `p`. The source compares the last `|p|` characters of `e`
      with `p`, which fails when `p` is the longer. */
  predicate EndsWith<T(==)>(e: seq<T>, p: seq<T>)
  {
    |p| <= |e| && e[|e| - |p|..] == p
  }

  /** `e` starts with `n`. */
  predicate StartsWith<T(==)>(e: seq<T>, n: seq<T>)
  {
    |n| <= |e| && e[..|n|] == n
  }

  /** The second pass from position `i`, `changes` telling whether it has slid
      an edit yet. Returns the script and the flag. */
  function SecondFrom<T(==)>(d: seq<Diff<T>>, i: nat, changes: bool): (r: (seq<Diff<T>>, bool))
    requires 1 <= i
    ensures |r.0| <= |d| && (|r.0| == |d| ==> r.0 == d)
    ensures r.1 == (changes || |r.0| < |d|)
    decreases |d| - i
  {
    if i + 1 >= |d| then (d, changes)
    else if d[i - 1].op == Equal && d[i + 1].op == Equal then
      var p, e, n := d[i - 1].text, d[i].text, d[i + 1].text;
      if EndsWith(e, p) then
        SecondFrom(d[..i - 1] + [Diff(d[i].op, p + e[..|e| - |p|]), Diff(Equal, p + n)] + d[i + 2..], i + 1, true)
      else if StartsWith(e, n) then
        SecondFrom(d[..i - 1] + [Diff(Equal, p + n), Diff(d[i].op, e[|n|..] + n)] + d[i + 2..], i + 1, true)
      else SecondFrom(d, i + 1, changes)
    else SecondFrom(d, i + 1, changes)
  }

  /** The whole cleanup: both passes, repeated while the second one slides.
      It keeps the before-text and the after-text. */
  function Merge<T(==)>(d: seq<Diff<T>>): (r: seq<Diff<T>>)
    ensures Text1(r) == Text1(d) && Text2(r) == Text2(d)
    decreases EditLen(d), |d|
  {
    var d1 := FirstPass(d);
    var s := SecondFrom(d1, 1, false);
    SecondTexts(d1, 1, false);
    if s.1 then (MergeDecreases(d); Merge(s.0)) else s.0
  }

  // ---------------------------------------------------------------------------
  // Small facts about runs and scripts

  /** Regroupings of concatenations the text lemmas below need. */
  lemma Assoc<T>(a: seq<T>, b: seq<T>, c: seq<T>)
    ensures (a + b) + c == a + (b + c)
  {
  }

  lemma Regroup<T>(o: seq<T>, m: seq<T>, s: seq<T>, x: seq<T>)
    ensures (o + m) + (s + x) == (o + (m + s)) + x
  {
  }

  lemma AppendEmpty<T>(a: seq<T>, p: seq<T>)
    requires p == []
    ensures a + p == a
  {
  }

  /** A sequence is its first elements followed by its last `k` elements. */
  lemma Split2<T>(s: seq<T>, k: nat)
    requires k <= |s|
    ensures s == s[..|s| - k] + s[|s| - k..]
  {
  }

  /** A sequence that starts like `a` is `a`'s first `c` elements and the rest. */
  lemma SharedFront<T>(a: seq<T>, b: seq<T>, c: nat)
    requires c <= |a| && c <= |b| && a[..c] == b[..c]
    ensures a == a[..c] + a[c..] && b == a[..c] + b[c..]
  {
    assert b == b[..c] + b[c..];
  }

  lemma Regroup4<T>(o: seq<T>, r: seq<T>, y: seq<T>, t: seq<T>)
    ensures (o + (r + y)) + t == (o + r) + (y + t)
  {
  }

  lemma {:induction false} NumOfAppend<T>(run: seq<Diff<T>>, x: Diff<T>, op: Op)
    ensures NumOf(run + [x], op) == NumOf(run, op) + (if x.op == op then 1 else 0)
  {
    if run == [] {
      assert run + [x] == [x];
    } else {
      assert (run + [x])[1..] == run[1..] + [x];
      NumOfAppend(run[1..], x, op);
    }
  }

  /** What the pass's counters and texts become when an edit joins the run. */
  lemma RunGrow<T>(run: seq<Diff<T>>, y: Diff<T>)
    requires AllEdits(run) && y.op != Equal
    ensures AllEdits(run + [y])
    ensures NumOf(run + [y], Delete) == NumOf(run, Delete) + (if y.op == Delete then 1 else 0)
    ensures NumOf(run + [y], Insert) == NumOf(run, Insert) + (if y.op == Insert then 1 else 0)
    ensures Text1(run + [y]) == Text1(run) + (if y.op == Delete then y.text else [])
    ensures Text2(run + [y]) == Text2(run) + (if y.op == Insert then y.text else [])
  {
    AllEditsAppend(run, y);
    NumOfAppend(run, y, Delete);
    NumOfAppend(run, y, Insert);
    TextsAppend(run, [y]);
    TextsSingle(y);
  }

  /** A run of edits without deletions deletes nothing; without insertions it
      inserts nothing; in any case its edit length is what it deletes and inserts. */
  lemma {:induction false} RunTexts<T>(run: seq<Diff<T>>)
    requires AllEdits(run)
    ensures NumOf(run, Delete) == 0 ==> Text1(run) == []
    ensures NumOf(run, Insert) == 0 ==> Text2(run) == []
    ensures EditLen(run) == |Text1(run)| + |Text2(run)|
  {
    if run != [] {
      RunTexts(run[1..]);
    }
  }

  lemma CollapsedTexts<T>(td: seq<T>, ti: seq<T>)
    ensures Text1(Collapsed(td, ti)) == td && Text2(Collapsed(td, ti)) == ti
    ensures EditLen(Collapsed(td, ti)) == |td| + |ti|
    ensures |Collapsed(td, ti)| <= 2
  {
    var a: seq<Diff<T>> := if td != [] then [Diff(Delete, td)] else [];
    var b: seq<Diff<T>> := if ti != [] then [Diff(Insert, ti)] else [];
    TextsAppend(a, b);
    CountsAppend(a, b);
  }

  /** Appending to a final equality adds to both texts and to no edit. */
  lemma ExtendLastTexts<T>(d: seq<Diff<T>>, s: seq<T>)
    requires d != [] && d[|d| - 1].op == Equal
    ensures Text1(ExtendLast(d, s)) == Text1(d) + s && Text2(ExtendLast(d, s)) == Text2(d) + s
    ensures EditLen(ExtendLast(d, s)) == EditLen(d) && |ExtendLast(d, s)| == |d|
  {
    var a, y := d[..|d| - 1], d[|d| - 1];
    var y' := Diff(y.op, y.text + s);
    assert d == a + [y];
    assert ExtendLast(d, s) == a + [y'];
    TextsSingle(y);
    TextsSingle(y');
    TextsAppend(a, [y]);
    TextsAppend(a, [y']);
    CountsAppend(a, [y]);
    CountsAppend(a, [y']);
    Assoc(Text1(a), y.text, s);
    Assoc(Text2(a), y.text, s);
  }

  /** Moving the shared front before the run adds it to both texts, at the end
      when the run follows an equality or nothing. */
  lemma ShareBeforeTexts<T>(out: seq<Diff<T>>, s: seq<T>)
    requires out == [] || out[|out| - 1].op == Equal
    ensures Text1(ShareBefore(out, s)) == Text1(out) + s && Text2(ShareBefore(out, s)) == Text2(out) + s
    ensures EditLen(ShareBefore(out, s)) == EditLen(out)
    ensures ShareBefore(out, s)[|ShareBefore(out, s)| - 1].op == Equal
  {
    if out != [] {
      ExtendLastTexts(out, s);
    } else {
      TextsSingle(Diff(Equal, s));
    }
  }

  // ---------------------------------------------------------------------------
  // The first pass keeps both texts

  /** Moving the shared back into the equality keeps the texts. */
  lemma FactoredBackTexts<T>(out: seq<Diff<T>>, td: seq<T>, ti: seq<T>, x: Diff<T>)
    requires x.op == Equal
    ensures Text1(FactoredBack(out, td, ti, x)) == Text1(out) + td + x.text
    ensures Text2(FactoredBack(out, td, ti, x)) == Text2(out) + ti + x.text
  {
    var k := CommonSuffix(ti, td);
    var x1 := if k == 0 then x else Diff(x.op, ti[|ti| - k..] + x.text);
    var ti2, td2, sfx := ti[..|ti| - k], td[..|td| - k], ti[|ti| - k..];
    var mid := Collapsed(td2, ti2);
    assert FactoredBack(out, td, ti, x) == out + mid + [x1];
    Split2(ti, k);
    Split2(td, k);
    if k == 0 {
      AppendEmpty(x.text, sfx);
    }
    assert x1.text == sfx + x.text;
    CollapsedTexts(td2, ti2);
    TextsSingle(x1);
    TextsAppend(out, mid);
    TextsAppend(out + mid, [x1]);
    Regroup(Text1(out), td2, sfx, x.text);
    Regroup(Text2(out), ti2, sfx, x.text);
  }

  /** The factored form of a run carries the same texts as the run and the equality. */
  lemma FactoredTexts<T>(out: seq<Diff<T>>, td: seq<T>, ti: seq<T>, x: Diff<T>)
    requires x.op == Equal && (out == [] || out[|out| - 1].op == Equal)
    ensures Text1(Factored(out, td, ti, x)) == Text1(out) + td + x.text
    ensures Text2(Factored(out, td, ti, x)) == Text2(out) + ti + x.text
  {
    var c := CommonPrefix(ti, td);
    var out1 := if c == 0 then out else ShareBefore(out, ti[..c]);
    var p := ti[..c];
    SharedFront(ti, td, c);
    if c != 0 {
      ShareBeforeTexts(out, p);
    } else {
      AppendEmpty(Text1(out), p);
      AppendEmpty(Text2(out), p);
    }
    FactoredBackTexts(out1, td[c..], ti[c..], x);
    Assoc(Text1(out), p, td[c..]);
    Assoc(Text2(out), p, ti[c..]);
  }

  /** `FlushTexts` for a run of two or more edits. */
  lemma CollapseTexts<T>(out: seq<Diff<T>>, run: seq<Diff<T>>, x: Diff<T>)
    requires x.op == Equal && (out == [] || out[|out| - 1].op == Equal) && |run| > 1
    ensures Text1(Flush(out, run, x)) == Text1(out) + Text1(run) + x.text
    ensures Text2(Flush(out, run, x)) == Text2(out) + Text2(run) + x.text
  {
    if NumOf(run, Delete) != 0 && NumOf(run, Insert) != 0 {
      FactoredTexts(out, Text1(run), Text2(run), x);
    } else {
      var mid := Collapsed(Text1(run), Text2(run));
      TextsSingle(x);
      CollapsedTexts(Text1(run), Text2(run));
      TextsAppend(out, mid);
      TextsAppend(out + mid, [x]);
    }
  }

  /** `FlushTexts` for a run of one edit. */
  lemma FlushOneTexts<T>(out: seq<Diff<T>>, run: seq<Diff<T>>, x: Diff<T>)
    requires x.op == Equal && |run| == 1
    ensures Text1(Flush(out, run, x)) == Text1(out) + Text1(run) + x.text
    ensures Text2(Flush(out, run, x)) == Text2(out) + Text2(run) + x.text
  {
    assert Flush(out, run, x) == out + run + [x];
    TextsSingle(x);
    TextsAppend(out, run);
    TextsAppend(out + run, [x]);
  }

  /** `FlushTexts` for an equality reaching the equality before it. */
  lemma FlushJoinTexts<T>(out: seq<Diff<T>>, x: Diff<T>)
    requires x.op == Equal && out != [] && out[|out| - 1].op == Equal
    ensures Text1(Flush(out, [], x)) == Text1(out) + x.text
    ensures Text2(Flush(out, [], x)) == Text2(out) + x.text
  {
    assert Flush(out, [], x) == ExtendLast(out, x.text);
    ExtendLastTexts(out, x.text);
  }

  /** Dealing with an equality keeps both texts. */
  lemma FlushTexts<T>(out: seq<Diff<T>>, run: seq<Diff<T>>, x: Diff<T>)
    requires x.op == Equal && (out == [] || out[|out| - 1].op == Equal)
    ensures Text1(Flush(out, run, x)) == Text1(out) + Text1(run) + x.text
    ensures Text2(Flush(out, run, x)) == Text2(out) + Text2(run) + x.text
  {
    if |run| > 1 {
      CollapseTexts(out, run, x);
    } else if |run| == 1 {
      FlushOneTexts(out, run, x);
    } else if out != [] {
      assert run == [];
      FlushJoinTexts(out, x);
    } else {
      assert run == [] && Flush(out, run, x) == [x];
      TextsSingle(x);
    }
  }

  /** The pass from any state it can reach writes the texts of what it has
      written, what is pending and what is left, in that order. */
  lemma {:induction false} PassTexts<T>(out: seq<Diff<T>>, run: seq<Diff<T>>, rest: seq<Diff<T>>)
    requires out == [] || out[|out| - 1].op == Equal
    ensures Text1(Pass(out, run, rest)) == Text1(out) + Text1(run) + Text1(rest)
    ensures Text2(Pass(out, run, rest)) == Text2(out) + Text2(run) + Text2(rest)
    decreases |rest|
  {
    if rest == [] {
      TextsAppend(out, run);
    } else if rest[0].op != Equal {
      var y := rest[0];
      TextsAppend(run, [y]);
      TextsSingle(y);
      PassTexts(out, run + [y], rest[1..]);
      Regroup4(Text1(out), Text1(run), Text1([y]), Text1(rest[1..]));
      Regroup4(Text2(out), Text2(run), Text2([y]), Text2(rest[1..]));
    } else {
      var y := rest[0];
      var f := Flush(out, run, y);
      FlushTexts(out, run, y);
      PassTexts(f, [], rest[1..]);
      assert Text1(f) + Text1<T>([]) == Text1(f) && Text2(f) + Text2<T>([]) == Text2(f);
      Assoc(Text1(out) + Text1(run), y.text, Text1(rest[1..]));
      Assoc(Text2(out) + Text2(run), y.text, Text2(rest[1..]));
    }
  }

  lemma DropEmptyLastTexts<T>(d: seq<Diff<T>>)
    ensures Text1(DropEmptyLast(d)) == Text1(d) && Text2(DropEmptyLast(d)) == Text2(d)
    ensures EditLen(DropEmptyLast(d)) == EditLen(d)
  {
    if d != [] && d[|d| - 1].text == [] {
      var a := d[..|d| - 1];
      assert d == a + [d[|d| - 1]];
      TextsAppend(a, [d[|d| - 1]]);
      CountsAppend(a, [d[|d| - 1]]);
      TextsSingle(d[|d| - 1]);
    }
  }

  /** The first pass keeps the before-text and the after-text. */
  lemma FirstPassTexts<T>(d: seq<Diff<T>>)
    ensures Text1(FirstPass(d)) == Text1(d) && Text2(FirstPass(d)) == Text2(d)
  {
    var dummy: Diff<T> := Diff(Equal, []);
    TextsAppend(d, [dummy]);
    TextsSingle(dummy);
    PassTexts([], [], d + [dummy]);
    DropEmptyLastTexts(Pass([], [], d + [dummy]));
  }

  // ---------------------------------------------------------------------------
  // The cleanup terminates: the first pass never adds edited text and, when it
  // moves none into equalities, never lengthens the script; every slide of the
  // second pass removes an operation.

  lemma ShareBeforeEditLen<T>(out: seq<Diff<T>>, s: seq<T>)
    ensures EditLen(ShareBefore(out, s)) == EditLen(out)
  {
    if out != [] && out[|out| - 1].op == Equal {
      ExtendLastTexts(out, s);
    } else {
      CountsAppend([Diff(Equal, s)], out);
      TextsSingle(Diff(Equal, s));
    }
  }

  /** Moving the shared back out of the edits takes it out twice; when there
      is none, the run just collapses. */
  lemma FactoredBackMeasure<T>(out: seq<Diff<T>>, td: seq<T>, ti: seq<T>, x: Diff<T>)
    requires x.op == Equal
    ensures EditLen(FactoredBack(out, td, ti, x)) <= EditLen(out) + |td| + |ti|
    ensures EditLen(FactoredBack(out, td, ti, x)) == EditLen(out) + |td| + |ti|
      ==> FactoredBack(out, td, ti, x) == out + Collapsed(td, ti) + [x]
  {
    var k := CommonSuffix(ti, td);
    var x1 := if k == 0 then x else Diff(x.op, ti[|ti| - k..] + x.text);
    var ti2, td2 := ti[..|ti| - k], td[..|td| - k];
    var mid := Collapsed(td2, ti2);
    assert FactoredBack(out, td, ti, x) == out + mid + [x1];
    CollapsedTexts(td2, ti2);
    TextsSingle(x1);
    CountsAppend(out, mid);
    CountsAppend(out + mid, [x1]);
    if k == 0 {
      assert ti2 == ti && td2 == td;
    }
  }

  /** Factoring moves twice the shared text out of the edits; when there is
      none, the run just collapses. */
  lemma FactoredMeasure<T>(out: seq<Diff<T>>, td: seq<T>, ti: seq<T>, x: Diff<T>)
    requires x.op == Equal
    ensures EditLen(Factored(out, td, ti, x)) <= EditLen(out) + |td| + |ti|
    ensures EditLen(Factored(out, td, ti, x)) == EditLen(out) + |td| + |ti|
      ==> Factored(out, td, ti, x) == out + Collapsed(td, ti) + [x]
  {
    var c := CommonPrefix(ti, td);
    var out1 := if c == 0 then out else ShareBefore(out, ti[..c]);
    if c != 0 {
      ShareBeforeEditLen(out, ti[..c]);
    } else {
      assert ti[c..] == ti && td[c..] == td;
    }
    FactoredBackMeasure(out1, td[c..], ti[c..], x);
  }

  /** Appending an equality adds no edited text, and dropping it again when it
      is empty gives the script back. */
  lemma AppendEqual<T>(a: seq<Diff<T>>, x: Diff<T>)
    requires x.op == Equal
    ensures EditLen(a + [x]) == EditLen(a)
    ensures x.text == [] ==> DropEmptyLast(a + [x]) == a
  {
    CountsAppend(a, [x]);
    TextsSingle(x);
    assert (a + [x])[..|a + [x]| - 1] == a;
  }

  /** A run collapsed without factoring, before the equality `x`. */
  lemma PlainMeasure<T>(out: seq<Diff<T>>, td: seq<T>, ti: seq<T>, x: Diff<T>)
    requires x.op == Equal
    ensures EditLen(out + Collapsed(td, ti) + [x]) == EditLen(out) + |td| + |ti|
    ensures |out + Collapsed(td, ti) + [x]| <= |out| + 3
    ensures x.text == [] ==> |DropEmptyLast(out + Collapsed(td, ti) + [x])| <= |out| + 2
  {
    CollapsedTexts(td, ti);
    CountsAppend(out, Collapsed(td, ti));
    AppendEqual(out + Collapsed(td, ti), x);
  }

  /** `FlushMeasure` for a run of two or more edits. */
  lemma CollapseMeasure<T>(out: seq<Diff<T>>, run: seq<Diff<T>>, x: Diff<T>)
    requires AllEdits(run) && x.op == Equal && |run| > 1
    ensures EditLen(Flush(out, run, x)) <= EditLen(out) + EditLen(run)
    ensures EditLen(Flush(out, run, x)) == EditLen(out) + EditLen(run)
      ==> (|Flush(out, run, x)| <= |out| + |run| + 1
        && (x.text == [] ==> |DropEmptyLast(Flush(out, run, x))| <= |out| + |run|))
  {
    var td, ti := Text1(run), Text2(run);
    var plain := out + Collapsed(td, ti) + [x];
    RunTexts(run);
    PlainMeasure(out, td, ti, x);
    if NumOf(run, Delete) != 0 && NumOf(run, Insert) != 0 {
      FactoredMeasure(out, td, ti, x);
      CollapseFactored(out, run, x);
    } else {
      assert Flush(out, run, x) == plain;
    }
  }

  /** A run holding both kinds of edit is factored. */
  lemma CollapseFactored<T>(out: seq<Diff<T>>, run: seq<Diff<T>>, x: Diff<T>)
    requires |run| > 1 && NumOf(run, Delete) != 0 && NumOf(run, Insert) != 0
    ensures Flush(out, run, x) == Factored(out, Text1(run), Text2(run), x)
  {
  }

  /** Dealing with an equality never adds edited text; when it moves none into
      equalities it adds at most that equality, which goes again when it is the
      empty dummy. */
  lemma FlushMeasure<T>(out: seq<Diff<T>>, run: seq<Diff<T>>, x: Diff<T>)
    requires AllEdits(run) && x.op == Equal
    ensures EditLen(Flush(out, run, x)) <= EditLen(out) + EditLen(run)
    ensures EditLen(Flush(out, run, x)) == EditLen(out) + EditLen(run)
      ==> (|Flush(out, run, x)| <= |out| + |run| + 1
        && (x.text == [] ==> |DropEmptyLast(Flush(out, run, x))| <= |out| + |run|))
  {
    if |run| > 1 {
      CollapseMeasure(out, run, x);
    } else if |run| == 1 {
      CountsAppend(out, run);
      AppendEqual(out + run, x);
    } else if out != [] && out[|out| - 1].op == Equal {
      assert EditLen(run) == 0;
      ExtendLastTexts(out, x.text);
    } else {
      assert EditLen(run) == 0;
      AppendEqual(out, x);
    }
  }

  /** The first pass from any state, with the dummy equality at the end. */
  lemma {:induction false} PassMeasure<T>(out: seq<Diff<T>>, run: seq<Diff<T>>, rest: seq<Diff<T>>)
    requires AllEdits(run)
    ensures var r := Pass(out, run, rest + [Diff(Equal, [])]);
      EditLen(r) <= EditLen(out) + EditLen(run) + EditLen(rest)
      && (EditLen(r) == EditLen(out) + EditLen(run) + EditLen(rest)
        ==> |DropEmptyLast(r)| <= |out| + |run| + |rest|)
    decreases |rest|
  {
    var dummy: Diff<T> := Diff(Equal, []);
    var all := rest + [dummy];
    if rest == [] {
      assert all == [dummy] && all[1..] == [];
      FlushMeasure(out, run, dummy);
      assert Flush(out, run, dummy) + [] == Flush(out, run, dummy);
    } else {
      var y := rest[0];
      assert all[0] == y && all[1..] == rest[1..] + [dummy];
      if y.op != Equal {
        CountsAppend(run, [y]);
        TextsSingle(y);
        AllEditsAppend(run, y);
        PassMeasure(out, run + [y], rest[1..]);
      } else {
        FlushMeasure(out, run, y);
        PassMeasure(Flush(out, run, y), [], rest[1..]);
      }
    }
  }

  /** The first pass never adds edited text and, when it moves none into
      equalities, does not lengthen the script. */
  lemma FirstPassMeasure<T>(d: seq<Diff<T>>)
    ensures EditLen(FirstPass(d)) <= EditLen(d)
    ensures EditLen(FirstPass(d)) == EditLen(d) ==> |FirstPass(d)| <= |d|
  {
    PassMeasure([], [], d);
    DropEmptyLastTexts(Pass([], [], d + [Diff(Equal, [])]));
  }

  /** Replacing a middle part by one with the same texts and edit length keeps
      those of the whole. */
  lemma ReplaceMiddle<T>(a: seq<Diff<T>>, m1: seq<Diff<T>>, m2: seq<Diff<T>>, b: seq<Diff<T>>)
    requires Text1(m1) == Text1(m2) && Text2(m1) == Text2(m2) && EditLen(m1) == EditLen(m2)
    ensures Text1(a + m1 + b) == Text1(a + m2 + b) && Text2(a + m1 + b) == Text2(a + m2 + b)
    ensures EditLen(a + m1 + b) == EditLen(a + m2 + b)
  {
    TextsAppend(a, m1);
    TextsAppend(a + m1, b);
    TextsAppend(a, m2);
    TextsAppend(a + m2, b);
    CountsAppend(a, m1);
    CountsAppend(a + m1, b);
    CountsAppend(a, m2);
    CountsAppend(a + m2, b);
  }

  /** A deletion and an insertion that share no front and no back are left as they are. */
  lemma NothingShared<T>(td: seq<T>, ti: seq<T>, x: Diff<T>)
    requires td != [] && ti != [] && CommonPrefix(ti, td) == 0 && CommonSuffix(ti, td) == 0
    ensures Factored([], td, ti, x) == [Diff(Delete, td), Diff(Insert, ti)] + [x]
  {
    assert td[0..] == td && ti[0..] == ti;
    assert td[..|td| - 0] == td && ti[..|ti| - 0] == ti;
    assert Collapsed(td, ti) == [Diff(Delete, td), Diff(Insert, ti)];
    assert [] + Collapsed(td, ti) == Collapsed(td, ti);
  }

  lemma TextsPair<T>(x: Diff<T>, y: Diff<T>)
    ensures Text1([x, y]) == Text1([x]) + Text1([y]) && Text2([x, y]) == Text2([x]) + Text2([y])
    ensures EditLen([x, y]) == EditLen([x]) + EditLen([y])
  {
    assert [x, y] == [x] + [y];
    TextsAppend([x], [y]);
    CountsAppend([x], [y]);
  }

  lemma TextsTriple<T>(x: Diff<T>, y: Diff<T>, z: Diff<T>)
    ensures Text1([x, y, z]) == Text1([x]) + (Text1([y]) + Text1([z]))
    ensures Text2([x, y, z]) == Text2([x]) + (Text2([y]) + Text2([z]))
    ensures EditLen([x, y, z]) == EditLen([x]) + EditLen([y]) + EditLen([z])
  {
    assert [x, y, z] == [x] + [y, z];
    TextsAppend([x], [y, z]);
    CountsAppend([x], [y, z]);
    TextsPair(y, z);
  }

  /** One side of a slide to the left: `keep` tells whether the edit's text
      belongs to that side. */
  lemma SideLeft<T>(p: seq<T>, e: seq<T>, n: seq<T>, keep: bool)
    requires EndsWith(e, p)
    ensures p + ((if keep then e else []) + n) == (if keep then p + e[..|e| - |p|] else []) + (p + n)
  {
    var f := e[..|e| - |p|];
    assert e == f + p;
    if keep {
      assert p + ((f + p) + n) == (p + f) + (p + n);
    } else {
      assert p + ([] + n) == [] + (p + n);
    }
  }

  /** One side of a slide to the right. */
  lemma SideRight<T>(p: seq<T>, e: seq<T>, n: seq<T>, keep: bool)
    requires StartsWith(e, n)
    ensures p + ((if keep then e else []) + n) == (p + n) + (if keep then e[|n|..] + n else [])
  {
    var g := e[|n|..];
    assert e == n + g;
    if keep {
      assert p + ((n + g) + n) == (p + n) + (g + n);
    } else {
      assert p + ([] + n) == (p + n) + [];
    }
  }

  /** Sliding an edit left over the equality before it keeps the texts. */
  lemma SlideLeftTexts<T>(p: seq<T>, y: Diff<T>, n: seq<T>)
    requires EndsWith(y.text, p)
    ensures var e := y.text;
      var m1 := [Diff(Equal, p), y, Diff(Equal, n)];
      var m2 := [Diff(y.op, p + e[..|e| - |p|]), Diff(Equal, p + n)];
      Text1(m1) == Text1(m2) && Text2(m1) == Text2(m2) && EditLen(m1) == EditLen(m2)
  {
    var e := y.text;
    var y2 := Diff(y.op, p + e[..|e| - |p|]);
    var m1 := [Diff(Equal, p), y, Diff(Equal, n)];
    var m2 := [y2, Diff(Equal, p + n)];
    TextsTriple(Diff(Equal, p), y, Diff(Equal, n));
    TextsPair(y2, Diff(Equal, p + n));
    TextsSingle(Diff(Equal, p));
    TextsSingle(Diff(Equal, n));
    TextsSingle(Diff(Equal, p + n));
    TextsSingle(y);
    TextsSingle(y2);
    assert Text1(m1) == Text1(m2) by {
      SideLeft(p, e, n, y.op != Insert);
    }
    assert Text2(m1) == Text2(m2) by {
      SideLeft(p, e, n, y.op != Delete);
    }
  }

  /** Sliding an edit right over the equality after it keeps the texts. */
  lemma SlideRightTexts<T>(p: seq<T>, y: Diff<T>, n: seq<T>)
    requires StartsWith(y.text, n)
    ensures var e := y.text;
      var m1 := [Diff(Equal, p), y, Diff(Equal, n)];
      var m2 := [Diff(Equal, p + n), Diff(y.op, e[|n|..] + n)];
      Text1(m1) == Text1(m2) && Text2(m1) == Text2(m2) && EditLen(m1) == EditLen(m2)
  {
    var e := y.text;
    var y2 := Diff(y.op, e[|n|..] + n);
    var m1 := [Diff(Equal, p), y, Diff(Equal, n)];
    var m2 := [Diff(Equal, p + n), y2];
    TextsTriple(Diff(Equal, p), y, Diff(Equal, n));
    TextsPair(Diff(Equal, p + n), y2);
    TextsSingle(Diff(Equal, p));
    TextsSingle(Diff(Equal, n));
    TextsSingle(Diff(Equal, p + n));
    TextsSingle(y);
    TextsSingle(y2);
    assert Text1(m1) == Text1(m2) by {
      SideRight(p, e, n, y.op != Insert);
    }
    assert Text2(m1) == Text2(m2) by {
      SideRight(p, e, n, y.op != Delete);
    }
  }

  /** The second pass keeps both texts and the edit length. */
  lemma {:induction false} SecondTexts<T>(d: seq<Diff<T>>, i: nat, changes: bool)
    requires 1 <= i
    ensures var r := SecondFrom(d, i, changes).0;
      Text1(r) == Text1(d) && Text2(r) == Text2(d) && EditLen(r) == EditLen(d)
    decreases |d| - i, 1
  {
    if i + 1 >= |d| {
    } else if d[i - 1].op == Equal && d[i + 1].op == Equal && EndsWith(d[i].text, d[i - 1].text) {
      SecondTextsLeft(d, i, changes);
    } else if d[i - 1].op == Equal && d[i + 1].op == Equal && StartsWith(d[i].text, d[i + 1].text) {
      SecondTextsRight(d, i, changes);
    } else {
      SecondTexts(d, i + 1, changes);
    }
  }

  /** The sliding pass keeps the texts when it slides an edit left at `i`. */
  lemma {:induction false} SecondTextsLeft<T>(d: seq<Diff<T>>, i: nat, changes: bool)
    requires 1 <= i && i + 1 < |d| && d[i - 1].op == Equal && d[i + 1].op == Equal
    requires EndsWith(d[i].text, d[i - 1].text)
    ensures var r := SecondFrom(d, i, changes).0;
      Text1(r) == Text1(d) && Text2(r) == Text2(d) && EditLen(r) == EditLen(d)
    decreases |d| - i, 0
  {
    var p, e, n := d[i - 1].text, d[i].text, d[i + 1].text;
    var a, b := d[..i - 1], d[i + 2..];
    assert d == a + [Diff(Equal, p), d[i], Diff(Equal, n)] + b;
    var m2 := [Diff(d[i].op, p + e[..|e| - |p|]), Diff(Equal, p + n)];
    SlideLeftTexts(p, d[i], n);
    ReplaceMiddle(a, [Diff(Equal, p), d[i], Diff(Equal, n)], m2, b);
    SecondTexts(a + m2 + b, i + 1, true);
  }

  /** The sliding pass keeps the texts when it slides an edit right at `i`. */
  lemma {:induction false} SecondTextsRight<T>(d: seq<Diff<T>>, i: nat, changes: bool)
    requires 1 <= i && i + 1 < |d| && d[i - 1].op == Equal && d[i + 1].op == Equal
    requires !EndsWith(d[i].text, d[i - 1].text) && StartsWith(d[i].text, d[i + 1].text)
    ensures var r := SecondFrom(d, i, changes).0;
      Text1(r) == Text1(d) && Text2(r) == Text2(d) && EditLen(r) == EditLen(d)
    decreases |d| - i, 0
  {
    var p, e, n := d[i - 1].text, d[i].text, d[i + 1].text;
    var a, b := d[..i - 1], d[i + 2..];
    assert d == a + [Diff(Equal, p), d[i], Diff(Equal, n)] + b;
    var m2 := [Diff(Equal, p + n), Diff(d[i].op, e[|n|..] + n)];
    SlideRightTexts(p, d[i], n);
    ReplaceMiddle(a, [Diff(Equal, p), d[i], Diff(Equal, n)], m2, b);
    SecondTexts(a + m2 + b, i + 1, true);
  }

  /** Each round of the cleanup that slides something makes the script
      smaller: less edited text, or as much in fewer operations. */
  lemma MergeDecreases<T>(d: seq<Diff<T>>)
    ensures var s := SecondFrom(FirstPass(d), 1, false);
      s.1 ==> EditLen(s.0) < EditLen(d) || (EditLen(s.0) == EditLen(d) && |s.0| < |d|)
  {
    FirstPassMeasure(d);
    SecondTexts(FirstPass(d), 1, false);
  }

  /** The merge cleanup keeps the before-text and the after-text. */
  lemma {:induction false} MergeTexts<T>(d: seq<Diff<T>>)
    ensures Text1(Merge(d)) == Text1(d) && Text2(Merge(d)) == Text2(d)
    decreases EditLen(d), |d|
  {
    var d1 := FirstPass(d);
    var s := SecondFrom(d1, 1, false);
    FirstPassTexts(d);
    SecondTexts(d1, 1, false);
    if s.1 {
      MergeDecreases(d);
      MergeTexts(s.0);
    }
  }

  // ---------------------------------------------------------------------------
  // The shape of a merged script

  /** Two neighbouring operations as the merge leaves them: one of them is an
      equality, or they are a deletion followed by an insertion that share
      neither their first nor their last element. */
  predicate Fits<T(==)>(a: Diff<T>, b: Diff<T>)
  {
    a.op == Equal || b.op == Equal
    || (a.op == Delete && b.op == Insert && a.text != [] && b.text != []
        && a.text[0] != b.text[0] && a.text[|a.text| - 1] != b.text[|b.text| - 1])
  }

  /** Every pair of neighbours fits: no two deletions or two insertions in a
      row, no insertion before a deletion, nothing left to factor. */
  predicate Coalesced<T(==)>(d: seq<Diff<T>>)
  {
    forall i, j :: 0 <= i < |d| && j == i + 1 && j < |d| ==> Fits(d[i], d[j])
  }

  /** No single edit between two equalities ends with the equality before it
      or starts with the equality after it: the second pass has nothing to slide. */
  predicate Settled<T(==)>(d: seq<Diff<T>>)
  {
    forall i, j, k ::
      0 <= i < |d| && j == i + 1 && k == j + 1 && k < |d| && d[i].op == Equal && d[k].op == Equal ==>
        !EndsWith(d[j].text, d[i].text) && !StartsWith(d[j].text, d[k].text)
  }

  lemma CoalescedJoin<T>(a: seq<Diff<T>>, b: seq<Diff<T>>)
    requires Coalesced(a) && Coalesced(b)
    requires a == [] || b == [] || Fits(a[|a| - 1], b[0])
    ensures Coalesced(a + b)
  {
    var d := a + b;
    forall i, j | 0 <= i && j == i + 1 && j < |d|
      ensures Fits(d[i], d[j])
    {
      if j < |a| {
        assert d[i] == a[i] && d[j] == a[j];
      } else if i >= |a| {
        assert d[i] == b[i - |a|] && d[j] == b[j - |a|];
      } else {
        assert d[i] == a[|a| - 1] && d[j] == b[0];
      }
    }
  }

  lemma CoalescedPrefix<T>(d: seq<Diff<T>>, n: nat)
    requires Coalesced(d) && n <= |d|
    ensures Coalesced(d[..n])
  {
    var e := d[..n];
    forall i, j | 0 <= i && j == i + 1 && j < |e|
      ensures Fits(e[i], e[j])
    {
      assert e[i] == d[i] && e[j] == d[j];
    }
  }

  /** A script of at most one operation is coalesced. */
  lemma CoalescedShort<T>(d: seq<Diff<T>>)
    requires |d| <= 1
    ensures Coalesced(d)
  {
  }

  lemma ExtendLastCoalesced<T>(d: seq<Diff<T>>, s: seq<T>)
    requires Coalesced(d) && d != [] && d[|d| - 1].op == Equal
    ensures Coalesced(ExtendLast(d, s)) && ExtendLast(d, s)[|d| - 1].op == Equal
  {
    var a := d[..|d| - 1];
    CoalescedPrefix(d, |d| - 1);
    CoalescedJoin(a, [Diff(Equal, s)]);
    CoalescedJoin(a, [Diff(Equal, d[|d| - 1].text + s)]);
  }

  lemma ShareBeforeCoalesced<T>(out: seq<Diff<T>>, s: seq<T>)
    requires Coalesced(out) && (out == [] || out[|out| - 1].op == Equal)
    ensures var r := ShareBefore(out, s); Coalesced(r) && r != [] && r[|r| - 1].op == Equal
  {
    if out != [] {
      ExtendLastCoalesced(out, s);
    } else {
      assert ShareBefore(out, s) == [Diff(Equal, s)];
    }
  }

  /** What remains of a run after factoring, followed by the equality, after
      what was written before. */
  lemma CollapsedCoalesced<T>(out: seq<Diff<T>>, td: seq<T>, ti: seq<T>, x: Diff<T>)
    requires Coalesced(out) && (out == [] || out[|out| - 1].op == Equal) && x.op == Equal
    requires td == [] || ti == [] || (td[0] != ti[0] && td[|td| - 1] != ti[|ti| - 1])
    ensures Coalesced(out + Collapsed(td, ti) + [x])
  {
    var mid := Collapsed(td, ti);
    if td != [] && ti != [] {
      assert mid == [Diff(Delete, td), Diff(Insert, ti)];
      assert Fits(mid[0], mid[1]);
    } else {
      assert |mid| <= 1;
    }
    CoalescedJoin(out, mid);
    CoalescedJoin(out + mid, [x]);
  }

  lemma FactoredBackCoalesced<T>(out: seq<Diff<T>>, td: seq<T>, ti: seq<T>, x: Diff<T>)
    requires Coalesced(out) && (out == [] || out[|out| - 1].op == Equal) && x.op == Equal
    requires td == [] || ti == [] || td[0] != ti[0]
    ensures Coalesced(FactoredBack(out, td, ti, x))
  {
    var k := CommonSuffix(ti, td);
    var x1 := if k == 0 then x else Diff(x.op, ti[|ti| - k..] + x.text);
    var td2, ti2 := td[..|td| - k], ti[..|ti| - k];
    if td2 != [] && ti2 != [] {
      assert td2[0] == td[0] && ti2[0] == ti[0];
      assert td2[|td2| - 1] == td[|td| - k - 1] && ti2[|ti2| - 1] == ti[|ti| - k - 1];
    }
    CollapsedCoalesced(out, td2, ti2, x1);
  }

  lemma FactoredCoalesced<T>(out: seq<Diff<T>>, td: seq<T>, ti: seq<T>, x: Diff<T>)
    requires Coalesced(out) && (out == [] || out[|out| - 1].op == Equal) && x.op == Equal
    ensures Coalesced(Factored(out, td, ti, x))
  {
    var c := CommonPrefix(ti, td);
    if c != 0 {
      ShareBeforeCoalesced(out, ti[..c]);
    }
    var td1, ti1 := td[c..], ti[c..];
    if td1 != [] && ti1 != [] {
      assert td1[0] == td[c] && ti1[0] == ti[c];
    }
    FactoredBackCoalesced(if c == 0 then out else ShareBefore(out, ti[..c]), td1, ti1, x);
  }

  /** Dealing with an equality keeps what is written coalesced. */
  lemma FlushCoalesced<T>(out: seq<Diff<T>>, run: seq<Diff<T>>, x: Diff<T>)
    requires Coalesced(out) && (out == [] || out[|out| - 1].op == Equal)
    requires AllEdits(run) && x.op == Equal
    ensures Coalesced(Flush(out, run, x))
  {
    if |run| > 1 {
      if NumOf(run, Delete) != 0 && NumOf(run, Insert) != 0 {
        CollapseFactored(out, run, x);
        FactoredCoalesced(out, Text1(run), Text2(run), x);
      } else {
        RunTexts(run);
        CollapsedCoalesced(out, Text1(run), Text2(run), x);
      }
    } else if |run| == 1 {
      CoalescedJoin(out, run);
      CoalescedJoin(out + run, [x]);
    } else if out != [] {
      ExtendLastCoalesced(out, x.text);
    } else {
      assert Flush(out, run, x) == [x];
    }
  }

  /** The first pass from any state, with the dummy equality at the end,
      writes a coalesced script. */
  lemma {:induction false} PassCoalesced<T>(out: seq<Diff<T>>, run: seq<Diff<T>>, rest: seq<Diff<T>>)
    requires Coalesced(out) && (out == [] || out[|out| - 1].op == Equal) && AllEdits(run)
    ensures Coalesced(Pass(out, run, rest + [Diff(Equal, [])]))
    decreases |rest|
  {
    var dummy: Diff<T> := Diff(Equal, []);
    var all := rest + [dummy];
    if rest == [] {
      assert all == [dummy] && all[1..] == [];
      FlushCoalesced(out, run, dummy);
      assert Flush(out, run, dummy) + [] == Flush(out, run, dummy);
    } else {
      var y := rest[0];
      assert all[0] == y && all[1..] == rest[1..] + [dummy];
      if y.op != Equal {
        AllEditsAppend(run, y);
        PassCoalesced(out, run + [y], rest[1..]);
      } else {
        FlushCoalesced(out, run, y);
        PassCoalesced(Flush(out, run, y), [], rest[1..]);
      }
    }
  }

  lemma FirstPassCoalesced<T>(d: seq<Diff<T>>)
    ensures Coalesced(FirstPass(d))
  {
    var r := Pass([], [], d + [Diff(Equal, [])]);
    PassCoalesced([], [], d);
    if r != [] && r[|r| - 1].text == [] {
      CoalescedPrefix(r, |r| - 1);
    }
  }

  /** A second pass that reports no change has met no edit it could slide. */
  lemma {:induction false} SecondQuiet<T>(d: seq<Diff<T>>, i: nat, changes: bool)
    requires 1 <= i && !SecondFrom(d, i, changes).1
    ensures forall j, k ::
              i <= j && k == j + 1 && k < |d| && d[j - 1].op == Equal && d[k].op == Equal ==>
                !EndsWith(d[j].text, d[j - 1].text) && !StartsWith(d[j].text, d[k].text)
    decreases |d| - i
  {
    if i + 1 < |d| {
      SecondQuiet(d, i + 1, changes);
    }
  }

  /** What the whole cleanup returns is coalesced and has nothing left to slide. */
  lemma {:induction false} MergeShape<T>(d: seq<Diff<T>>)
    ensures Coalesced(Merge(d)) && Settled(Merge(d))
    decreases EditLen(d), |d|
  {
    var d1 := FirstPass(d);
    var s := SecondFrom(d1, 1, false);
    if s.1 {
      MergeDecreases(d);
      MergeShape(s.0);
    } else {
      FirstPassCoalesced(d);
      SecondQuiet(d1, 1, false);
      assert s.0 == d1;
    }
  }

  /** No operation carries empty text. */
  predicate NoneEmpty<T>(d: seq<Diff<T>>)
  {
    forall i :: 0 <= i < |d| ==> d[i].text != []
  }

  /** No two equalities stand next to each other. */
  predicate EqualsApart<T>(d: seq<Diff<T>>)
  {
    forall i, j :: 0 <= i < |d| && j == i + 1 && j < |d| ==> d[i].op != Equal || d[j].op != Equal
  }

  /** A script the cleanup has nothing to do on: coalesced, settled, no
      empty operation and no two equalities in a row. */
  predicate Normal<T(==)>(d: seq<Diff<T>>)
  {
    Coalesced(d) && Settled(d) && NoneEmpty(d) && EqualsApart(d)
  }

  /** What the pass over `d` and the dummy equality writes when it changes
      nothing: `d` itself, with the dummy merged into a final equality or
      kept after a final edit. */
  function Ended<T>(d: seq<Diff<T>>): seq<Diff<T>>
  {
    if d != [] && d[|d| - 1].op == Equal then d else d + [Diff(Equal, [])]
  }

  /** A deletion and an insertion that share no first and no last element
      come out of `Factored` as they went in. */
  lemma FactoredNothingShared<T>(out: seq<Diff<T>>, td: seq<T>, ti: seq<T>, x: Diff<T>)
    requires td != [] && ti != [] && td[0] != ti[0] && td[|td| - 1] != ti[|ti| - 1]
    ensures Factored(out, td, ti, x) == out + [Diff(Delete, td), Diff(Insert, ti)] + [x]
  {
    assert CommonPrefix(ti, td) == 0;
    assert CommonSuffix(ti, td) == 0;
    assert td[0..] == td && ti[0..] == ti;
    FactoredBackPieces(out, td, ti, x, 0, Collapsed(td[..|td| - 0], ti[..|ti| - 0]), x);
    assert td[..|td| - 0] == td && ti[..|ti| - 0] == ti;
  }

  /** In a coalesced script two edits in a row are a deletion, then an insertion. */
  lemma EditPair<T>(d: seq<Diff<T>>, k: nat)
    requires Coalesced(d) && k + 1 < |d| && d[k].op != Equal && d[k + 1].op != Equal
    ensures d[k].op == Delete && d[k + 1].op == Insert
  {
    assert Fits(d[k], d[k + 1]);
  }

  /** In a coalesced script no run of edits is longer than two. */
  lemma RunShort<T>(d: seq<Diff<T>>, j: nat, i: nat)
    requires Coalesced(d) && j <= i <= |d|
    requires forall k :: j <= k < i ==> d[k].op != Equal
    ensures i - j <= 2
  {
    if i - j > 2 {
      EditPair(d, j);
      EditPair(d, j + 1);
      assert false;
    }
  }

  /** In a coalesced script with no empty operation, a run of edits that
      starts after an equality (or at the start) is one edit, or a deletion
      and an insertion sharing no first and no last element; the pass
      writes it back unchanged before the equality `x` that ends it. */
  lemma FlushNormal<T>(d: seq<Diff<T>>, j: nat, i: nat, x: Diff<T>)
    requires Coalesced(d) && NoneEmpty(d) && j < i <= |d|
    requires forall k :: j <= k < i ==> d[k].op != Equal
    ensures Flush(d[..j], d[j..i], x) == d[..i] + [x]
  {
    var out, run := d[..j], d[j..i];
    assert d[..i] == out + run;
    RunShort(d, j, i);
    if i - j == 1 {
      assert run == [d[j]];
    } else {
      assert Fits(d[j], d[j + 1]);
      assert run == [d[j], d[j + 1]];
      FlushFitting(out, d[j], d[j + 1], x);
    }
  }

  /** A deletion and an insertion that fit are flushed unchanged. */
  lemma FlushFitting<T>(out: seq<Diff<T>>, a: Diff<T>, b: Diff<T>, x: Diff<T>)
    requires a.op == Delete && b.op == Insert && Fits(a, b)
    ensures Flush(out, [a, b], x) == out + [a, b] + [x]
  {
    FittingRun(a, b);
    FactoredNothingShared(out, a.text, b.text, x);
    assert [Diff(Delete, a.text), Diff(Insert, b.text)] == [a, b];
  }

  /** A deletion then an insertion: a run with one of each kind, carrying
      their texts. */
  lemma FittingRun<T>(a: Diff<T>, b: Diff<T>)
    requires a.op == Delete && b.op == Insert
    ensures NumOf([a, b], Delete) != 0 && NumOf([a, b], Insert) != 0
    ensures Text1([a, b]) == a.text && Text2([a, b]) == b.text
  {
    TextsPair(a, b);
    TextsSingle(a);
    TextsSingle(b);
    assert [a, b] == [a] + [b];
    NumOfAppend([a], b, Delete);
    NumOfAppend([a], b, Insert);
    assert [a][1..] == [];
  }

  /** At the end of a normal script the dummy equality closes the pending
      edits `d[j..]`, or joins the final equality. */
  lemma PassNormalEnd<T>(d: seq<Diff<T>>, j: nat)
    requires Coalesced(d) && NoneEmpty(d) && j <= |d|
    requires j == 0 || d[j - 1].op == Equal
    requires forall k :: j <= k < |d| ==> d[k].op != Equal
    ensures Pass(d[..j], d[j..|d|], d[|d|..] + [Diff(Equal, [])]) == Ended(d)
  {
    var dummy: Diff<T> := Diff(Equal, []);
    var out, run := d[..j], d[j..|d|];
    assert d[|d|..] + [dummy] == [dummy] + [];
    PassEqual(out, run, dummy, []);
    if j < |d| {
      FlushNormal(d, j, |d|, dummy);
      assert d[..|d|] == d;
    } else if j > 0 {
      assert out == d && d[j - 1].text + [] == d[j - 1].text;
      assert ExtendLast(out, []) == d;
    }
  }

  /** An equality `d[i]` after the pending edits `d[j..i]` is written after
      them unchanged. */
  lemma FlushNormalEqual<T>(d: seq<Diff<T>>, j: nat, i: nat)
    requires Coalesced(d) && NoneEmpty(d) && EqualsApart(d) && j <= i < |d| && d[i].op == Equal
    requires j == 0 || d[j - 1].op == Equal
    requires forall k :: j <= k < i ==> d[k].op != Equal
    ensures Flush(d[..j], d[j..i], d[i]) == d[..i + 1]
  {
    if j < i {
      FlushNormal(d, j, i, d[i]);
      assert d[..i] + [d[i]] == d[..i + 1];
    } else {
      assert d[..j] == [] && d[j..i] == [] && d[..i + 1] == [d[i]];
    }
  }

  /** One round of the pass at the edit `d[i]`: it joins the pending edits. */
  lemma PassNormalEdit<T>(d: seq<Diff<T>>, j: nat, i: nat)
    requires j <= i < |d| && d[i].op != Equal
    ensures Pass(d[..j], d[j..i], d[i..] + [Diff(Equal, [])])
         == Pass(d[..j], d[j..i + 1], d[i + 1..] + [Diff(Equal, [])])
  {
    var rest := d[i + 1..] + [Diff(Equal, [])];
    assert d[i..] + [Diff(Equal, [])] == [d[i]] + rest;
    PassEdit(d[..j], d[j..i], d[i], rest);
    assert d[j..i] + [d[i]] == d[j..i + 1];
  }

  /** One round of the pass at the equality `d[i]` of a normal script: the
      pending edits and the equality are written back as they were. */
  lemma PassNormalEqual<T>(d: seq<Diff<T>>, j: nat, i: nat)
    requires Coalesced(d) && NoneEmpty(d) && EqualsApart(d) && j <= i < |d| && d[i].op == Equal
    requires j == 0 || d[j - 1].op == Equal
    requires forall k :: j <= k < i ==> d[k].op != Equal
    ensures Pass(d[..j], d[j..i], d[i..] + [Diff(Equal, [])])
         == Pass(d[..i + 1], d[i + 1..i + 1], d[i + 1..] + [Diff(Equal, [])])
  {
    var rest := d[i + 1..] + [Diff(Equal, [])];
    assert d[i..] + [Diff(Equal, [])] == [d[i]] + rest;
    PassEqual(d[..j], d[j..i], d[i], rest);
    FlushNormalEqual(d, j, i);
    assert d[i + 1..i + 1] == [];
  }

  /** The pass over a normal script, from a state where `d[..j]` is written,
      the edits `d[j..i]` are pending and `d[j - 1]`, if any, is an
      equality, writes `d` back. */
  lemma {:induction false} PassNormal<T>(d: seq<Diff<T>>, j: nat, i: nat)
    requires Coalesced(d) && NoneEmpty(d) && EqualsApart(d) && j <= i <= |d|
    requires j == 0 || d[j - 1].op == Equal
    requires forall k :: j <= k < i ==> d[k].op != Equal
    ensures Pass(d[..j], d[j..i], d[i..] + [Diff(Equal, [])]) == Ended(d)
    decreases |d| - i, 2
  {
    if i == |d| {
      PassNormalEnd(d, j);
    } else if d[i].op != Equal {
      PassNormalAtEdit(d, j, i);
    } else {
      PassNormalAtEqual(d, j, i);
    }
  }

  /** `PassNormal` when the next operation is an edit. */
  lemma {:induction false} PassNormalAtEdit<T>(d: seq<Diff<T>>, j: nat, i: nat)
    requires Coalesced(d) && NoneEmpty(d) && EqualsApart(d) && j <= i < |d|
    requires j == 0 || d[j - 1].op == Equal
    requires forall k :: j <= k < i + 1 ==> d[k].op != Equal
    ensures Pass(d[..j], d[j..i], d[i..] + [Diff(Equal, [])]) == Ended(d)
    decreases |d| - i, 0
  {
    PassNormal(d, j, i + 1);
    PassNormalEdit(d, j, i);
  }

  /** `PassNormal` when the next operation is an equality. */
  lemma {:induction false} PassNormalAtEqual<T>(d: seq<Diff<T>>, j: nat, i: nat)
    requires Coalesced(d) && NoneEmpty(d) && EqualsApart(d) && j <= i < |d| && d[i].op == Equal
    requires j == 0 || d[j - 1].op == Equal
    requires forall k :: j <= k < i ==> d[k].op != Equal
    ensures Pass(d[..j], d[j..i], d[i..] + [Diff(Equal, [])]) == Ended(d)
    decreases |d| - i, 1
  {
    PassNormalAfter(d, i);
    PassNormalEqual(d, j, i);
    assert Pass(d[..j], d[j..i], d[i..] + [Diff(Equal, [])]) == Ended(d);
  }

  /** `PassNormal` right after the equality `d[i]`, nothing pending. */
  lemma {:induction false} PassNormalAfter<T>(d: seq<Diff<T>>, i: nat)
    requires Coalesced(d) && NoneEmpty(d) && EqualsApart(d) && i < |d| && d[i].op == Equal
    ensures Pass(d[..i + 1], d[i + 1..i + 1], d[i + 1..] + [Diff(Equal, [])]) == Ended(d)
    decreases |d| - i, 0
  {
    PassNormal(d, i + 1, i + 1);
  }

  /** The first pass leaves a normal script as it is. */
  lemma FirstPassNormal<T>(d: seq<Diff<T>>)
    requires Normal(d)
    ensures FirstPass(d) == d
  {
    PassNormal(d, 0, 0);
    assert d[..0] == [] && d[0..0] == [] && d[0..] == d;
    if d != [] {
      assert d[|d| - 1].text != [];
      assert (d + [Diff(Equal, [])])[..|d|] == d;
    }
  }

  /** The sliding pass finds nothing to slide in a settled script. */
  lemma {:induction false} SecondSettled<T>(d: seq<Diff<T>>, i: nat)
    requires Settled(d) && 1 <= i
    ensures SecondFrom(d, i, false) == (d, false)
    decreases |d| - i
  {
    if i + 1 < |d| {
      if d[i - 1].op == Equal && d[i + 1].op == Equal {
        assert !EndsWith(d[i].text, d[i - 1].text) && !StartsWith(d[i].text, d[i + 1].text);
      }
      SecondSettled(d, i + 1);
    }
  }

  /** The cleanup leaves a script alone that is already in its shape, has
      no empty operation and no two equalities in a row. */
  lemma MergeNormal<T>(d: seq<Diff<T>>)
    requires Normal(d)
    ensures Merge(d) == d
  {
    FirstPassNormal(d);
    SecondSettled(d, 1);
  }

  /** The cleanup never adds edited text. */
  lemma {:induction false} MergeEditLen<T>(d: seq<Diff<T>>)
    ensures EditLen(Merge(d)) <= EditLen(d)
    decreases EditLen(d), |d|
  {
    var d1 := FirstPass(d);
    var s := SecondFrom(d1, 1, false);
    FirstPassMeasure(d);
    SecondTexts(d1, 1, false);
    if s.1 {
      MergeDecreases(d);
      MergeEditLen(s.0);
    }
  }
}
