/** The script of a diff as the object the cleanups rewrite in place. */
module Script {
  import opened Diffs
  import opened Common
  import opened Merges
  import opened Efficiency

  lemma Regroup3<T>(a: seq<T>, b: seq<T>, c: seq<T>, t: seq<T>)
    ensures (a + b + c) + t == a + (b + (c + t))
  {
  }

  lemma UpdateAt<T>(a: seq<T>, y: T, b: seq<T>, z: T)
    ensures |a| < |a + ([y] + b)| && (a + ([y] + b))[|a|] == y
    ensures (a + ([y] + b))[|a| := z] == a + ([z] + b)
  {
  }

  lemma Split4<T>(d: seq<T>, i: nat, j: nat)
    requires i <= j < |d|
    ensures d == d[..i] + (d[i..j] + ([d[j]] + d[j + 1..]))
  {
    assert d == d[..i] + d[i..j] + d[j..];
  }

  lemma Split3<T>(d: seq<T>, i: nat, j: nat)
    requires i <= j <= |d|
    ensures d == d[..i] + (d[i..j] + d[j..])
  {
    assert d == d[..i] + d[i..j] + d[j..];
  }

  /** Taking the middle `r` out of `pre + r + post` by slicing. */
  lemma RemoveSpan<T>(pre: seq<T>, r: seq<T>, post: seq<T>)
    ensures |pre| + |r| <= |pre + (r + post)|
    ensures (pre + (r + post))[..|pre|] + (pre + (r + post))[|pre| + |r|..] == pre + post
  {
    var d := pre + (r + post);
    assert d[..|pre|] == pre && d[|pre| + |r|..] == post;
  }

  /** Putting `y` between `pre` and `post` by slicing. */
  lemma InsertAt<T>(pre: seq<T>, post: seq<T>, y: T)
    ensures |pre| <= |pre + post|
    ensures (pre + post)[..|pre|] + [y] + (pre + post)[|pre|..] == (pre + [y]) + post
  {
    var d := pre + post;
    assert d[..|pre|] == pre && d[|pre|..] == post;
  }

  lemma Unfold<T>(a: seq<T>, b: seq<T>, rest: seq<T>)
    requires rest != []
    ensures a + (b + rest) == (a + b) + ([rest[0]] + rest[1..])
  {
    assert rest == [rest[0]] + rest[1..];
  }

  lemma Slices3<T>(a: seq<T>, b: seq<T>, c: seq<T>)
    ensures (a + b + c)[..|a|] == a && (a + b + c)[|a|..|a| + |b|] == b && (a + b + c)[|a| + |b|..] == c
  {
  }

  /** Dropping the element right after `a` by slicing. */
  lemma InsertDrop<T>(a: seq<T>, rest: seq<T>)
    requires rest != []
    ensures |a| < |a + rest| && (a + rest)[..|a|] + (a + rest)[|a| + 1..] == a + rest[1..]
  {
    var d := a + rest;
    assert d[..|a|] == a && d[|a| + 1..] == rest[1..];
  }

  /** The operation just before the end of a non-empty run of edits is an edit. */
  lemma RunEndsInEdit<T>(out: seq<Diff<T>>, run: seq<Diff<T>>, rest: seq<Diff<T>>)
    requires AllEdits(run)
    ensures run == [] || (out + (run + rest))[|out| + |run| - 1].op != Equal
  {
    if run != [] {
      LastEdit(run);
      assert (out + (run + rest))[|out| + |run| - 1] == run[|run| - 1];
    }
  }

  /** Where the pass stands in `out + (run + rest)`: the element at the
      position after the run, and the same script with that element moved
      into the run. */
  lemma Shift<T>(out: seq<T>, run: seq<T>, rest: seq<T>)
    requires rest != []
    ensures |out| + |run| < |out + (run + rest)| && (out + (run + rest))[|out| + |run|] == rest[0]
    ensures out + (run + rest) == out + ((run + [rest[0]]) + rest[1..])
    ensures out + (run + rest) == (out + run) + ([rest[0]] + rest[1..])
    ensures rest[1..] == [] || rest[1..][|rest[1..]| - 1] == rest[|rest| - 1]
  {
    assert rest == [rest[0]] + rest[1..];
  }

  /** The state of the first pass: `out` written, the pending run `run` of
      edits with its counters and texts, `rest` unread, and `target` the
      outcome of the pass over the whole script. */
  ghost predicate Gathering(diffs: seq<Diff<char>>, pointer: nat, countDelete: nat, countInsert: nat,
                            textDelete: string, textInsert: string,
                            out: seq<Diff<char>>, run: seq<Diff<char>>, rest: seq<Diff<char>>, target: seq<Diff<char>>)
  {
    && diffs == out + (run + rest) && pointer == |out| + |run|
    && AllEdits(run) && |run| == countDelete + countInsert
    && countDelete == NumOf(run, Delete) && countInsert == NumOf(run, Insert)
    && textDelete == Text1(run) && textInsert == Text2(run)
    && Pass(out, run, rest) == target
    && (rest == [] || rest[|rest| - 1].op == Equal)
    && (run == [] || rest != [])
    && (out != [] || rest != [])
  }

  /** An edit joins the run. */
  lemma GatherEdit(diffs: seq<Diff<char>>, pointer: nat, countDelete: nat, countInsert: nat,
                   textDelete: string, textInsert: string,
                   out: seq<Diff<char>>, run: seq<Diff<char>>, rest: seq<Diff<char>>, target: seq<Diff<char>>)
    requires Gathering(diffs, pointer, countDelete, countInsert, textDelete, textInsert, out, run, rest, target)
    requires rest != [] && rest[0].op != Equal
    ensures var y := rest[0];
      Gathering(diffs, pointer + 1,
                countDelete + (if y.op == Delete then 1 else 0), countInsert + (if y.op == Insert then 1 else 0),
                textDelete + (if y.op == Delete then y.text else []), textInsert + (if y.op == Insert then y.text else []),
                out, run + [y], rest[1..], target)
  {
    Shift(out, run, rest);
    RunGrow(run, rest[0]);
  }

  /** An equality ends the run. */
  lemma GatherEqual(diffs: seq<Diff<char>>, pointer: nat,
                    out: seq<Diff<char>>, run: seq<Diff<char>>, rest: seq<Diff<char>>, target: seq<Diff<char>>)
    requires rest != [] && rest[0].op == Equal && Pass(out, run, rest) == target
    requires rest[|rest| - 1].op == Equal
    requires diffs == Flush(out, run, rest[0]) + rest[1..] && pointer == |Flush(out, run, rest[0])|
    ensures Gathering(diffs, pointer, 0, 0, "", "", Flush(out, run, rest[0]), [], rest[1..], target)
  {
    Shift(out, run, rest);
    assert [] + rest[1..] == rest[1..];
  }

  class EditScript {
    /** The operations, in order. */
    var diffs: seq<Diff<char>>

    constructor (d: seq<Diff<char>>)
      ensures diffs == d
    {
      diffs := d;
    }

    /** Puts the shared front `s` of the run that ends before `ptr` and is `n`
        long into the equality before the run, or into a new equality at the
        very start. Returns where the run now ends. */
    method ShareFront(ptr: nat, n: nat, s: string) returns (q: nat)
      modifies this
      requires n <= ptr <= |diffs|
      ensures diffs == ShareBefore(old(diffs)[..ptr - n], s) + old(diffs)[ptr - n..]
      ensures q == |ShareBefore(old(diffs)[..ptr - n], s)| + n
    {
      ghost var out, tail := diffs[..ptr - n], diffs[ptr - n..];
      assert diffs == out + tail;
      if ptr - n > 0 && diffs[ptr - n - 1].op == Equal {
        var last := diffs[ptr - n - 1];
        diffs := diffs[ptr - n - 1 := Diff(last.op, last.text + s)];
        assert out[..|out| - 1] + [Diff(last.op, last.text + s)] + tail == diffs;
        q := ptr;
      } else {
        diffs := [Diff(Equal, s)] + diffs;
        q := ptr + 1;
      }
    }

    /** Replaces the `n` operations from `start` on by the deletion `td` and the
        insertion `ti`, leaving out an empty one. Returns the position after them. */
    method Collapse(start: nat, n: nat, td: string, ti: string) returns (q: nat)
      modifies this
      requires start + n <= |diffs|
      ensures diffs == old(diffs)[..start] + (Collapsed(td, ti) + old(diffs)[start + n..])
      ensures q == start + |Collapsed(td, ti)|
    {
      ghost var pre, r, post := diffs[..start], diffs[start..start + n], diffs[start + n..];
      Split3(diffs, start, start + n);
      RemoveSpan(pre, r, post);
      diffs := diffs[..start] + diffs[start + n..];
      q := start;
      ghost var acc := pre;
      if |td| > 0 {
        InsertAt(acc, post, Diff(Delete, td));
        diffs := diffs[..q] + [Diff(Delete, td)] + diffs[q..];
        acc := acc + [Diff(Delete, td)];
        q := q + 1;
      }
      assert diffs == acc + post && q == |acc|;
      if |ti| > 0 {
        InsertAt(acc, post, Diff(Insert, ti));
        diffs := diffs[..q] + [Diff(Insert, ti)] + diffs[q..];
        acc := acc + [Diff(Insert, ti)];
        q := q + 1;
      }
      assert acc == pre + Collapsed(td, ti);
      Assoc(pre, Collapsed(td, ti), post);
    }

    /** Moves the text that the deleted `td` and the inserted `ti` share at the
        back to the front of the equality at `q`. Returns what is left of the
        two texts; `before` is what the first pass wrote ahead of the run. */
    method ShareBack(q: nat, td: string, ti: string, ghost before: seq<Diff<char>>,
                     ghost o: seq<Diff<char>>, ghost x: Diff<char>, ghost tail: seq<Diff<char>>)
      returns (td': string, ti': string)
      modifies this
      requires diffs == o + ([x] + tail) && q == |o|
      ensures q < |diffs| && diffs == o + ([diffs[q]] + tail)
      ensures before + Collapsed(td', ti') + [diffs[q]] == FactoredBack(before, td, ti, x)
    {
      var k := CommonSuffix(ti, td);
      UpdateAt(o, x, tail, x);
      var e := diffs[q];
      var e' := if k == 0 then e else Diff(e.op, ti[|ti| - k..] + e.text);
      UpdateAt(o, x, tail, e');
      UpdateAt(o, e', tail, e');
      diffs := diffs[q := e'];
      td', ti' := td[..|td| - k], ti[..|ti| - k];
      FactoredBackPieces(before, td, ti, x, k, Collapsed(td', ti'), e');
    }

    /** For a run holding both deletions and insertions, with deleted text `td`
        and inserted text `ti`, ending before `ptr` and followed by an
        equality: moves the text both share at the front into the equality
        before the run and the text both share at the back into the equality
        after it. Returns where the run now ends and what is left of the two
        texts. */
    method MoveCommon(ptr: nat, n: nat, td: string, ti: string,
                      ghost out: seq<Diff<char>>, ghost run: seq<Diff<char>>, ghost rest: seq<Diff<char>>)
      returns (q: nat, td': string, ti': string)
      modifies this
      requires diffs == out + (run + rest) && ptr == |out| + |run| && |run| == n
      requires rest != [] && rest[0].op == Equal
      ensures n <= q < |diffs| && diffs[q - n..q] == run && diffs[q + 1..] == rest[1..]
      ensures diffs[..q - n] + Collapsed(td', ti') + [diffs[q]] == Factored(out, td, ti, rest[0])
    {
      ghost var x, tail := rest[0], rest[1..];
      ghost var out1;
      q, td', ti', out1 := MoveFront(ptr, n, td, ti, out, run, rest);
      Unfold(out1, run, rest);
      ghost var td1, ti1 := td', ti';
      td', ti' := ShareBack(q, td', ti', out1, out1 + run, x, tail);
      ghost var x1 := diffs[q];
      assert diffs[..q - n] == out1 && diffs[q - n..q] == run && diffs[q + 1..] == tail by {
        Slices3(out1, run, [x1] + tail);
      }
    }

    /** The front half of `MoveCommon`: the text that `td` and `ti` share at
        the front joins the equality before the run of `n` edits ending at
        `ptr`, or a new equality at the very front. */
    method MoveFront(ptr: nat, n: nat, td: string, ti: string,
                     ghost out: seq<Diff<char>>, ghost run: seq<Diff<char>>, ghost rest: seq<Diff<char>>)
      returns (q: nat, td': string, ti': string, ghost out1: seq<Diff<char>>)
      modifies this
      requires diffs == out + (run + rest) && ptr == |out| + |run| && |run| == n && rest != []
      ensures diffs == out1 + (run + rest) && q == |out1| + n
      ensures Factored(out, td, ti, rest[0]) == FactoredBack(out1, td', ti', rest[0])
    {
      q, td', ti' := ptr, td, ti;
      var c := CommonPrefix(ti, td);
      out1 := out;
      if c != 0 {
        assert diffs[..ptr - n] == out && diffs[ptr - n..] == run + rest;
        q := ShareFront(q, n, ti[..c]);
        out1 := ShareBefore(out, ti[..c]);
        td', ti' := td[c..], ti[c..];
      } else {
        assert ti[c..] == ti && td[c..] == td;
      }
    }

    /** Replaces the run of `n` edits that ends before `ptr` by the deletion
        `td` and the insertion `ti`, given that `diffs[..ptr - n]`,
        `td`, `ti` and the equality at `ptr` make up `f`. Returns the position
        after the equality. */
    method CollapseBefore(ptr: nat, n: nat, td: string, ti: string, ghost f: seq<Diff<char>>, ghost tail: seq<Diff<char>>)
      returns (p: nat)
      modifies this
      requires n <= ptr < |diffs| && diffs[ptr + 1..] == tail
      requires diffs[..ptr - n] + Collapsed(td, ti) + [diffs[ptr]] == f
      ensures diffs == f + tail && p == |f|
    {
      ghost var o1, x1 := diffs[..ptr - n], diffs[ptr];
      assert diffs[ptr..] == [x1] + tail by {
        Split3(diffs, ptr, ptr + 1);
      }
      var q := Collapse(ptr - n, n, td, ti);
      p := q + 1;
      Regroup3(o1, Collapsed(td, ti), [x1], tail);
    }

    /** `FlushRun` for a run of two or more edits holding both deletions and
        insertions, with deleted text `td` and inserted text `ti`. */
    method FactorRun(pointer: nat, n: nat, td: string, ti: string,
                     ghost out: seq<Diff<char>>, ghost run: seq<Diff<char>>, ghost rest: seq<Diff<char>>)
      returns (p: nat)
      modifies this
      requires diffs == out + (run + rest) && pointer == |out| + |run| && |run| == n
      requires rest != [] && rest[0].op == Equal
      ensures diffs == Factored(out, td, ti, rest[0]) + rest[1..] && p == |Factored(out, td, ti, rest[0])|
    {
      var ptr, td', ti' := MoveCommon(pointer, n, td, ti, out, run, rest);
      p := CollapseBefore(ptr, n, td', ti', Factored(out, td, ti, rest[0]), rest[1..]);
    }

    /** `FlushRun` for a run of two or more edits of one kind only, with
        deleted text `td` and inserted text `ti`. */
    method PlainRun(pointer: nat, n: nat, td: string, ti: string,
                    ghost out: seq<Diff<char>>, ghost run: seq<Diff<char>>, ghost rest: seq<Diff<char>>)
      returns (p: nat)
      modifies this
      requires diffs == out + (run + rest) && pointer == |out| + |run| && |run| == n
      requires rest != [] && rest[0].op == Equal
      ensures diffs == out + Collapsed(td, ti) + [rest[0]] + rest[1..] && p == |out + Collapsed(td, ti) + [rest[0]]|
    {
      assert diffs[..pointer - n] == out && diffs[pointer - n..pointer] == run && diffs[pointer..] == rest by {
        Assoc(out, run, rest);
        Slices3(out, run, rest);
      }
      p := CollapseBefore(pointer, n, td, ti, out + Collapsed(td, ti) + [rest[0]], rest[1..]);
    }

    /** `FlushRun` for a run of two or more edits. */
    method CollapseRun(pointer: nat, countDelete: nat, countInsert: nat, textDelete: string, textInsert: string,
                       ghost out: seq<Diff<char>>, ghost run: seq<Diff<char>>, ghost rest: seq<Diff<char>>)
      returns (p: nat)
      modifies this
      requires diffs == out + (run + rest) && pointer == |out| + |run|
      requires rest != [] && rest[0].op == Equal
      requires |run| == countDelete + countInsert && |run| > 1
      requires countDelete == NumOf(run, Delete) && countInsert == NumOf(run, Insert)
      requires textDelete == Text1(run) && textInsert == Text2(run)
      ensures diffs == Flush(out, run, rest[0]) + rest[1..] && p == |Flush(out, run, rest[0])|
    {
      var n := countDelete + countInsert;
      if countDelete != 0 && countInsert != 0 {
        CollapseFactored(out, run, rest[0]);
        p := FactorRun(pointer, n, textDelete, textInsert, out, run, rest);
      } else {
        p := PlainRun(pointer, n, textDelete, textInsert, out, run, rest);
      }
    }

    /** Appends the text of the equality at `pointer` to the operation before
        it and removes it. */
    method JoinEqual(pointer: nat, ghost out: seq<Diff<char>>, ghost rest: seq<Diff<char>>)
      modifies this
      requires diffs == out + rest && pointer == |out| && out != [] && rest != []
      ensures diffs == ExtendLast(out, rest[0].text) + rest[1..]
    {
      var last := diffs[pointer - 1];
      ghost var e := Diff(last.op, last.text + rest[0].text);
      ghost var front := out[..|out| - 1];
      assert diffs == front + ([last] + rest) by {
        assert out == front + [last];
        Assoc(front, [last], rest);
      }
      UpdateAt(front, last, rest, e);
      diffs := diffs[pointer - 1 := Diff(last.op, last.text + diffs[pointer].text)];
      assert diffs == (front + [e]) + rest by {
        Assoc(front, [e], rest);
      }
      InsertDrop(front + [e], rest);
      diffs := diffs[..pointer] + diffs[pointer + 1..];
    }

    /** Deals with the equality at `pointer` that ends a run of `countDelete`
        deletions and `countInsert` insertions, whose texts are `textDelete`
        and `textInsert`. Returns the position after the equality. */
    method FlushRun(pointer: nat, countDelete: nat, countInsert: nat, textDelete: string, textInsert: string,
                    ghost out: seq<Diff<char>>, ghost run: seq<Diff<char>>, ghost rest: seq<Diff<char>>)
      returns (p: nat)
      modifies this
      requires diffs == out + (run + rest) && pointer == |out| + |run|
      requires rest != [] && rest[0].op == Equal
      requires AllEdits(run) && |run| == countDelete + countInsert
      requires countDelete == NumOf(run, Delete) && countInsert == NumOf(run, Insert)
      requires textDelete == Text1(run) && textInsert == Text2(run)
      ensures diffs == Flush(out, run, rest[0]) + rest[1..] && p == |Flush(out, run, rest[0])|
    {
      ghost var x, tail := rest[0], rest[1..];
      RunEndsInEdit(out, run, rest);
      var n := countDelete + countInsert;
      if n > 1 {
        p := CollapseRun(pointer, countDelete, countInsert, textDelete, textInsert, out, run, rest);
      } else if pointer != 0 && diffs[pointer - 1].op == Equal {
        assert run == [] && out != [];
        assert diffs == out + rest;
        JoinEqual(pointer, out, rest);
        p := pointer;
      } else {
        p := pointer + 1;
        if run == [] && out != [] {
          assert diffs[pointer - 1] == out[|out| - 1];
        }
        assert Flush(out, run, x) == out + run + [x];
        assert diffs == (out + run + [x]) + tail by {
          assert rest == [x] + tail;
          Regroup3(out, run, [x], tail);
        }
      }
    }

    /** Slides the edit at `pointer` left over the equality before it, whose
        text it ends with. */
    method SlideLeft(pointer: nat)
      modifies this
      requires 1 <= pointer && pointer + 1 < |diffs|
      requires diffs[pointer + 1].op == Equal && EndsWith(diffs[pointer].text, diffs[pointer - 1].text)
      ensures var p, e, n := old(diffs)[pointer - 1].text, old(diffs)[pointer].text, old(diffs)[pointer + 1].text;
        diffs == old(diffs)[..pointer - 1] + [Diff(old(diffs)[pointer].op, p + e[..|e| - |p|]), Diff(Equal, p + n)] + old(diffs)[pointer + 2..]
    {
      ghost var d := diffs;
      var p, y, n := diffs[pointer - 1].text, diffs[pointer], diffs[pointer + 1].text;
      diffs := diffs[pointer := Diff(y.op, p + y.text[..|y.text| - |p|])];
      diffs := diffs[pointer + 1 := Diff(Equal, p + n)];
      diffs := diffs[..pointer - 1] + diffs[pointer..];
      assert diffs == d[..pointer - 1] + [Diff(y.op, p + y.text[..|y.text| - |p|]), Diff(Equal, p + n)] + d[pointer + 2..];
    }

    /** Slides the edit at `pointer` right over the equality after it, whose
        text it starts with. */
    method SlideRight(pointer: nat)
      modifies this
      requires 1 <= pointer && pointer + 1 < |diffs|
      requires diffs[pointer - 1].op == Equal && StartsWith(diffs[pointer].text, diffs[pointer + 1].text)
      ensures var p, e, n := old(diffs)[pointer - 1].text, old(diffs)[pointer].text, old(diffs)[pointer + 1].text;
        diffs == old(diffs)[..pointer - 1] + [Diff(Equal, p + n), Diff(old(diffs)[pointer].op, e[|n|..] + n)] + old(diffs)[pointer + 2..]
    {
      ghost var d := diffs;
      var p, y, n := diffs[pointer - 1].text, diffs[pointer], diffs[pointer + 1].text;
      diffs := diffs[pointer - 1 := Diff(Equal, p + n)];
      diffs := diffs[pointer := Diff(y.op, y.text[|n|..] + n)];
      diffs := diffs[..pointer + 1] + diffs[pointer + 2..];
      assert diffs == d[..pointer - 1] + [Diff(Equal, p + n), Diff(y.op, y.text[|n|..] + n)] + d[pointer + 2..];
    }

    /** The first pass of the merge cleanup: gathers each run of edits and
        deals with it at the equality that ends it. */
    method JoinRuns()
      modifies this
      ensures diffs == FirstPass(old(diffs))
    {
      ghost var target := Pass([], [], diffs + [Diff(Equal, [])]);
      diffs := diffs + [Diff(Equal, "")];
      var pointer: nat, countDelete: nat, countInsert: nat := 0, 0, 0;
      var textDelete, textInsert := "", "";
      ghost var out: seq<Diff<char>>, run: seq<Diff<char>>, rest := [], [], diffs;
      while pointer < |diffs|
        invariant Gathering(diffs, pointer, countDelete, countInsert, textDelete, textInsert, out, run, rest, target)
        decreases |rest|
      {
        Shift(out, run, rest);
        var y := diffs[pointer];
        if y.op == Insert {
          GatherEdit(diffs, pointer, countDelete, countInsert, textDelete, textInsert, out, run, rest, target);
          countInsert := countInsert + 1;
          textInsert := textInsert + y.text;
          run, rest := run + [y], rest[1..];
          pointer := pointer + 1;
        } else if y.op == Delete {
          GatherEdit(diffs, pointer, countDelete, countInsert, textDelete, textInsert, out, run, rest, target);
          countDelete := countDelete + 1;
          textDelete := textDelete + y.text;
          run, rest := run + [y], rest[1..];
          pointer := pointer + 1;
        } else {
          pointer := FlushRun(pointer, countDelete, countInsert, textDelete, textInsert, out, run, rest);
          GatherEqual(diffs, pointer, out, run, rest, target);
          countInsert, countDelete, textDelete, textInsert := 0, 0, "", "";
          out, run, rest := Flush(out, run, rest[0]), [], rest[1..];
        }
      }
      assert diffs == out + [] && Pass(out, [], []) == out + [];
      if diffs[|diffs| - 1].text == "" {
        diffs := diffs[..|diffs| - 1];
      }
    }

    /** The second pass of the merge cleanup: slides each single edit between
        two equalities over one of them where it can. Returns whether it slid
        anything. */
    method SlideEdits() returns (changes: bool)
      modifies this
      ensures (diffs, changes) == SecondFrom(old(diffs), 1, false)
    {
      var pointer := 1;
      changes := false;
      while pointer < |diffs| - 1
        invariant 1 <= pointer
        invariant SecondFrom(diffs, pointer, changes) == SecondFrom(old(diffs), 1, false)
        decreases |diffs| - pointer
      {
        if diffs[pointer - 1].op == Equal && diffs[pointer + 1].op == Equal {
          if EndsWith(diffs[pointer].text, diffs[pointer - 1].text) {
            SlideLeft(pointer);
            changes := true;
          } else if StartsWith(diffs[pointer].text, diffs[pointer + 1].text) {
            SlideRight(pointer);
            changes := true;
          }
        }
        pointer := pointer + 1;
      }
    }

    /** The merge cleanup: rewrites the script into `Merge` of what it was. */
    method CleanupMerge()
      modifies this
      ensures diffs == Merge(old(diffs))
      decreases EditLen(diffs), |diffs|
    {
      ghost var d0 := diffs;
      JoinRuns();
      var changes := SlideEdits();
      if changes {
        MergeDecreases(d0);
        CleanupMerge();
      }
    }

    /** Turns the equality at `e` into a deletion and an insertion of its
        text: a deletion of `text` goes in before it, and the element itself
        becomes an insertion. */
    method SplitEquality(e: nat, text: string)
      modifies this
      requires e < |diffs| && diffs[e] == Diff(Equal, text)
      ensures diffs == Splice(old(diffs), e)
    {
      ghost var d := diffs;
      diffs := diffs[..e] + [Diff(Delete, text)] + diffs[e..];
      assert diffs[e + 1] == d[e];
      diffs := diffs[e + 1 := Diff(Insert, diffs[e + 1].text)];
      assert diffs == d[..e] + [Diff(Delete, d[e].text), Diff(Insert, d[e].text)] + d[e + 1..];
    }

    /** The split of the candidate on top of the stack, in place, and where
        the scan goes on from: past the current edit when the run before the
        candidate held both kinds of edit, else back to the candidate below
        it or to the start (the round's increment follows). Returns the
        pointer, the new stack height and the two flags for the edits after it. */
    method FoldCandidate(ghost s: Scan<char>, ghost postIns: bool, ghost postDel: bool,
                         equalities: map<int, nat>, equalitiesLength: int, lastEquality: string,
                         preIns: bool, preDel: bool, pointer: int)
      returns (pointer': int, equalitiesLength': int, postIns': bool, postDel': bool)
      modifies this
      requires Valid(s) && s.last != [] && s.pointer < |s.diffs| && diffs == s.diffs
      requires s.equalities == equalities && s.count == equalitiesLength && s.last == lastEquality
      requires s.preIns == preIns && s.preDel == preDel && s.pointer == pointer
      ensures Split(s, postIns, postDel)
              == s.(diffs := diffs, pointer := pointer' + 1, count := equalitiesLength', last := [],
                    postIns := postIns', postDel := postDel', changes := true)
    {
      SplitEquality(equalities[equalitiesLength - 1], lastEquality);
      equalitiesLength' := equalitiesLength - 1;
      if preIns && preDel {
        postIns', postDel' := true, true;
        equalitiesLength' := 0;
        pointer' := pointer;
      } else {
        equalitiesLength' := equalitiesLength' - 1;
        pointer' := if equalitiesLength' > 0 then equalities[equalitiesLength' - 1] else -1;
        postIns', postDel' := false, false;
      }
    }

    /** A round of the efficiency scan at an equality: the equality is
        stacked as a candidate when it is shorter than `cost` and edits came
        right before it; otherwise the stack is cleared. */
    method NoteEquality(cost: nat, ghost s: Scan<char>, pointer: int, equalities: map<int, nat>,
                        equalitiesLength: int, lastEquality: string, preIns: bool, preDel: bool,
                        postIns: bool, postDel: bool, changes: bool)
      returns (equalities': map<int, nat>, equalitiesLength': int, lastEquality': string,
               preIns': bool, preDel': bool)
      requires s == Scan(diffs, pointer, equalities, equalitiesLength, lastEquality,
                         preIns, preDel, postIns, postDel, changes)
      requires Valid(s) && pointer < |diffs| && diffs[pointer].op == Equal
      ensures Step(s, cost) == Scan(diffs, pointer + 1, equalities', equalitiesLength', lastEquality',
                                    preIns', preDel', false, false, changes)
    {
      equalities', equalitiesLength', lastEquality', preIns', preDel' :=
        equalities, equalitiesLength, lastEquality, preIns, preDel;
      if |diffs[pointer].text| < cost && (postIns || postDel) {
        equalities' := equalities[equalitiesLength := pointer];
        equalitiesLength' := equalitiesLength + 1;
        preIns', preDel' := postIns, postDel;
        lastEquality' := diffs[pointer].text;
      } else {
        equalitiesLength' := 0;
        lastEquality' := "";
      }
    }

    /** A round of the efficiency scan at an edit: notes the edit's kind and,
        when the candidate on top of the stack is now cheaper to fold than to
        keep, folds it. Returns the pointer before the round's increment. */
    method NoteEdit(cost: nat, ghost s: Scan<char>, pointer: int, equalities: map<int, nat>,
                    equalitiesLength: int, lastEquality: string, preIns: bool, preDel: bool,
                    postIns: bool, postDel: bool, changes: bool)
      returns (pointer': int, equalitiesLength': int, lastEquality': string,
               postIns': bool, postDel': bool, changes': bool)
      modifies this
      requires s == Scan(diffs, pointer, equalities, equalitiesLength, lastEquality,
                         preIns, preDel, postIns, postDel, changes)
      requires Valid(s) && pointer < |diffs| && diffs[pointer].op != Equal
      ensures Step(s, cost) == Scan(diffs, pointer' + 1, equalities, equalitiesLength', lastEquality',
                                    preIns, preDel, postIns', postDel', changes')
    {
      pointer', equalitiesLength', lastEquality', postIns', postDel', changes' :=
        pointer, equalitiesLength, lastEquality, postIns, postDel, changes;
      if diffs[pointer].op == Delete {
        postDel' := true;
      } else {
        postIns' := true;
      }
      if lastEquality != [] && ((preIns && preDel && postIns' && postDel')
                                || (2 * |lastEquality| < cost && Ones(preIns, preDel, postIns', postDel') == 3)) {
        assert Step(s, cost) == Split(s, postIns', postDel');
        pointer', equalitiesLength', postIns', postDel' :=
          FoldCandidate(s, postIns', postDel', equalities, equalitiesLength, lastEquality, preIns, preDel, pointer);
        lastEquality' := "";
        changes' := true;
      }
    }

    /** The efficiency cleanup with edit cost `cost`: folds equalities that
        cost more to keep than to edit into the edits around them, then runs
        the merge cleanup if anything changed. */
    method CleanupEfficiency(cost: nat)
      modifies this
      ensures diffs == Cleanup(old(diffs), cost)
    {
      ghost var target := Run(Start(diffs), cost);
      var changes := false;
      var equalities: map<int, nat> := map[];
      var equalitiesLength := 0;
      var lastEquality: string := "";
      var pointer := 0;
      var preIns, preDel, postIns, postDel := false, false, false, false;
      ghost var s := Start(diffs);
      while pointer < |diffs|
        invariant s == Scan(diffs, pointer, equalities, equalitiesLength, lastEquality,
                            preIns, preDel, postIns, postDel, changes)
        invariant Valid(s) && Run(s, cost) == target
        decreases CountEquals(diffs), |diffs| - pointer
      {
        assert Run(s, cost) == Run(Step(s, cost), cost);
        if diffs[pointer].op == Equal {
          equalities, equalitiesLength, lastEquality, preIns, preDel :=
            NoteEquality(cost, s, pointer, equalities, equalitiesLength, lastEquality,
                         preIns, preDel, postIns, postDel, changes);
          postIns, postDel := false, false;
        } else {
          pointer, equalitiesLength, lastEquality, postIns, postDel, changes :=
            NoteEdit(cost, s, pointer, equalities, equalitiesLength, lastEquality,
                     preIns, preDel, postIns, postDel, changes);
        }
        pointer := pointer + 1;
        s := Step(s, cost);
      }
      if changes {
        CleanupMerge();
      }
    }
  }
}
