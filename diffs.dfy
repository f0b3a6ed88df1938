/** Edit scripts: the operation kinds, one operation, and the two texts a script
    reconstructs (the before-text and the after-text). */
module Diffs {

  /** The three kinds of operation of an edit script. */
  datatype Op = Equal | Delete | Insert

  /** One operation: its kind and the slice of text it carries. The element type is
      generic so that the line tokenizer's unit sequences (line ids) reuse it. */
  datatype Diff<T> = Diff(op: Op, text: seq<T>)

  /** The before-text: every operation that is not an Insert, in order. */
  function Text1<T>(d: seq<Diff<T>>): (r: seq<T>)
    ensures |r| <= Size(d)
  {
    if d == [] then []
    else (if d[0].op != Insert then d[0].text else []) + Text1(d[1..])
  }

  /** The after-text: every operation that is not a Delete, in order. */
  function Text2<T>(d: seq<Diff<T>>): (r: seq<T>)
    ensures |r| <= Size(d)
  {
    if d == [] then []
    else (if d[0].op != Delete then d[0].text else []) + Text2(d[1..])
  }

  /** Total length of all the texts a script carries. */
  function Size<T>(d: seq<Diff<T>>): nat
  {
    if d == [] then 0 else |d[0].text| + Size(d[1..])
  }

  /** Total length of the texts carried by Delete and Insert operations. */
  function EditLen<T>(d: seq<Diff<T>>): nat
  {
    if d == [] then 0
    else (if d[0].op != Equal then |d[0].text| else 0) + EditLen(d[1..])
  }

  /** Number of Equal operations of a script. */
  function CountEquals<T>(d: seq<Diff<T>>): nat
  {
    if d == [] then 0
    else (if d[0].op == Equal then 1 else 0) + CountEquals(d[1..])
  }

  /** Both reconstructed texts of a concatenation are the concatenations of the parts. */
  lemma TextsAppend<T>(a: seq<Diff<T>>, b: seq<Diff<T>>)
    ensures Text1(a + b) == Text1(a) + Text1(b)
    ensures Text2(a + b) == Text2(a) + Text2(b)
  {
    Text1Append(a, b);
    Text2Append(a, b);
  }

  lemma {:induction false} Text1Append<T>(a: seq<Diff<T>>, b: seq<Diff<T>>)
    ensures Text1(a + b) == Text1(a) + Text1(b)
  {
    if a == [] {
      assert a + b == b;
    } else {
      assert (a + b)[0] == a[0];
      assert (a + b)[1..] == a[1..] + b;
      Text1Append(a[1..], b);
    }
  }

  lemma {:induction false} Text2Append<T>(a: seq<Diff<T>>, b: seq<Diff<T>>)
    ensures Text2(a + b) == Text2(a) + Text2(b)
  {
    if a == [] {
      assert a + b == b;
    } else {
      assert (a + b)[0] == a[0];
      assert (a + b)[1..] == a[1..] + b;
      Text2Append(a[1..], b);
    }
  }

  /** The lengths and counts of a concatenation are the sums over the parts. */
  lemma {:induction false} CountsAppend<T>(a: seq<Diff<T>>, b: seq<Diff<T>>)
    ensures EditLen(a + b) == EditLen(a) + EditLen(b)
    ensures CountEquals(a + b) == CountEquals(a) + CountEquals(b)
    ensures Size(a + b) == Size(a) + Size(b)
  {
    if a == [] {
      assert a + b == b;
    } else {
      assert (a + b)[0] == a[0];
      assert (a + b)[1..] == a[1..] + b;
      CountsAppend(a[1..], b);
    }
  }

  /** The before- and after-text of a script of one operation. */
  lemma TextsSingle<T>(x: Diff<T>)
    ensures Text1([x]) == (if x.op != Insert then x.text else [])
    ensures Text2([x]) == (if x.op != Delete then x.text else [])
    ensures EditLen([x]) == (if x.op != Equal then |x.text| else 0)
    ensures CountEquals([x]) == (if x.op == Equal then 1 else 0)
  {
    assert [x][1..] == [];
  }

  /** The length of the before-text is what the non-Insert operations carry. */
  lemma {:induction false} Text1Length<T>(d: seq<Diff<T>>)
    ensures |Text1(d)| + |Text2(d)| == Size(d) + Size(d) - EditLen(d)
  {
    if d != [] {
      Text1Length(d[1..]);
    }
  }

  /** The test helper that rebuilds both texts of a script with one loop that
      appends to two strings. */
  method RebuildTexts<T>(diffs: seq<Diff<T>>) returns (text1: seq<T>, text2: seq<T>)
    ensures text1 == Text1(diffs) && text2 == Text2(diffs)
  {
    text1, text2 := [], [];
    var x := 0;
    while x < |diffs|
      invariant 0 <= x <= |diffs|
      invariant text1 == Text1(diffs[..x]) && text2 == Text2(diffs[..x])
    {
      TextsAppend(diffs[..x], [diffs[x]]);
      TextsSingle(diffs[x]);
      assert diffs[..x + 1] == diffs[..x] + [diffs[x]];
      if diffs[x].op != Insert {
        text1 := text1 + diffs[x].text;
      }
      if diffs[x].op != Delete {
        text2 := text2 + diffs[x].text;
      }
      x := x + 1;
    }
    assert diffs[..x] == diffs;
  }

  /** The before-text keeps the equalities and deletions, the after-text the
      equalities and insertions, each in script order. */
  lemma TextExample()
    ensures var d := [Diff(Equal, "jump"), Diff(Delete, "s"), Diff(Insert, "ed"), Diff(Equal, " over "),
                      Diff(Delete, "the"), Diff(Insert, "a"), Diff(Equal, " lazy")];
      Text1(d) == "jumps over the lazy" && Text2(d) == "jumped over a lazy"
  {
    TextsOfTwoEdits("jump", "s", "ed", " over ", "the", "a", " lazy");
    TextExampleParts();
  }

  lemma TextExampleParts()
    ensures ("jump" + "s") + (" over " + "the") + " lazy" == "jumps over the lazy"
    ensures ("jump" + "ed") + (" over " + "a") + " lazy" == "jumped over a lazy"
  {
  }

  /** The texts of a script of two replacements between equalities. */
  lemma TextsOfTwoEdits(e1: string, d1: string, i1: string, e2: string, d2: string, i2: string, e3: string)
    ensures var d := [Diff(Equal, e1), Diff(Delete, d1), Diff(Insert, i1), Diff(Equal, e2),
                      Diff(Delete, d2), Diff(Insert, i2), Diff(Equal, e3)];
      Text1(d) == (e1 + d1) + (e2 + d2) + e3 && Text2(d) == (e1 + i1) + (e2 + i2) + e3
  {
    var a := [Diff(Equal, e1), Diff(Delete, d1), Diff(Insert, i1)];
    var b := [Diff(Equal, e2), Diff(Delete, d2), Diff(Insert, i2)];
    var c := [Diff(Equal, e3)];
    TextsOfEdit(e1, d1, i1);
    TextsOfEdit(e2, d2, i2);
    TextsSingle(c[0]);
    TextsAppend(a, b);
    TextsAppend(a + b, c);
    assert a + b + c == [Diff(Equal, e1), Diff(Delete, d1), Diff(Insert, i1), Diff(Equal, e2),
                         Diff(Delete, d2), Diff(Insert, i2), Diff(Equal, e3)];
  }

  /** The texts of an equality followed by a deletion and an insertion. */
  lemma TextsOfEdit(e: string, del: string, ins: string)
    ensures var d := [Diff(Equal, e), Diff(Delete, del), Diff(Insert, ins)];
      Text1(d) == e + del && Text2(d) == e + ins
  {
    var x, y, z := Diff(Equal, e), Diff(Delete, del), Diff(Insert, ins);
    assert [x, y, z] == [x] + [y] + [z];
    TextsAppend([x], [y]);
    TextsAppend([x] + [y], [z]);
    TextsSingle(x);
    TextsSingle(y);
    TextsSingle(z);
    assert e + del + [] == e + del && e + [] + ins == e + ins;
  }
}
