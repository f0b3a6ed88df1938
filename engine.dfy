/** The top-level diff (`diff_main`) at the level of its contract: strip the
    common prefix and suffix, diff the middle, put the equalities back and
    run the merge cleanup. The middle is diffed by the special cases of
    `diff_compute_` (one side empty, one side inside the other, a
    one-character side) and otherwise by `diff_bisect_`. The middle-snake
    search of `diff_bisect_` is not modelled: in its place a walk guided by
    the longest common subsequence, which yields a script of the same two
    texts. The deadline is the flag `expired`: once it has passed the
    search gives up and the whole middle is one deletion and one insertion. */
module Engine {
  import opened Diffs
  import opened Common
  import opened Merges

  /** `p` occurs in `s` at position `j`. */
  predicate OccursAt(s: string, p: string, j: nat)
  {
    j + |p| <= |s| && s[j..j + |p|] == p
  }

  /** The first position at or after `i` where `p` occurs in `s`, or -1. */
  function IndexFrom(s: string, p: string, i: nat): (r: int)
    ensures r == -1 || (i <= r && OccursAt(s, p, r))
    ensures forall j: nat :: i <= j && (r == -1 || j < r) ==> !OccursAt(s, p, j)
    decreases |s| - i
  {
    if i + |p| > |s| then -1
    else if OccursAt(s, p, i) then i
    else IndexFrom(s, p, i + 1)
  }

  /** `s.indexOf(p)`: the first position where `p` occurs in `s`, or -1. */
  function IndexOf(s: string, p: string): int
  {
    IndexFrom(s, p, 0)
  }

  /** The length of a longest common subsequence of `a` and `b`. */
  function Lcs(a: string, b: string): (r: nat)
    ensures r <= |a| && r <= |b|
    decreases |a| + |b|
  {
    if a == [] || b == [] then 0
    else if a[0] == b[0] then 1 + Lcs(a[1..], b[1..])
    else
      var l, m := Lcs(a[1..], b), Lcs(a, b[1..]);
      if l >= m then l else m
  }

  /** The texts of a script that starts with `x`. */
  lemma Cons(x: Diff<char>, rest: seq<Diff<char>>)
    ensures Text1([x] + rest) == (if x.op != Insert then x.text else []) + Text1(rest)
    ensures Text2([x] + rest) == (if x.op != Delete then x.text else []) + Text2(rest)
  {
    assert ([x] + rest)[0] == x && ([x] + rest)[1..] == rest;
  }

  /** A script from `a` to `b`, one character at a time: a shared first
      character is kept, otherwise the first character of `a` is deleted or
      that of `b` inserted, whichever keeps the longer common subsequence
      within reach (deleting when both do). */
  function Walk(a: string, b: string): (r: seq<Diff<char>>)
    ensures Kept(r) == Lcs(a, b)
    decreases |a| + |b|
  {
    if a == [] then (if b == [] then [] else [Diff(Insert, b)])
    else if b == [] then [Diff(Delete, a)]
    else if a[0] == b[0] then
      var w := Walk(a[1..], b[1..]);
      assert ([Diff(Equal, [a[0]])] + w)[1..] == w;
      [Diff(Equal, [a[0]])] + w
    else if Lcs(a[1..], b) >= Lcs(a, b[1..]) then
      var w := Walk(a[1..], b);
      assert ([Diff(Delete, [a[0]])] + w)[1..] == w;
      [Diff(Delete, [a[0]])] + w
    else
      var w := Walk(a, b[1..]);
      assert ([Diff(Insert, [b[0]])] + w)[1..] == w;
      [Diff(Insert, [b[0]])] + w
  }

  /** The walk turns `a` into `b`. */
  lemma {:induction false} WalkTexts(a: string, b: string)
    ensures Text1(Walk(a, b)) == a && Text2(Walk(a, b)) == b
    decreases |a| + |b|
  {
    if a == [] || b == [] {
      TextsSingle(Diff(Insert, b));
      TextsSingle(Diff(Delete, a));
    } else if a[0] == b[0] {
      WalkTexts(a[1..], b[1..]);
      Cons(Diff(Equal, [a[0]]), Walk(a[1..], b[1..]));
      assert a == [a[0]] + a[1..] && b == [b[0]] + b[1..];
    } else if Lcs(a[1..], b) >= Lcs(a, b[1..]) {
      WalkTexts(a[1..], b);
      Cons(Diff(Delete, [a[0]]), Walk(a[1..], b));
      assert a == [a[0]] + a[1..];
    } else {
      WalkTexts(a, b[1..]);
      Cons(Diff(Insert, [b[0]]), Walk(a, b[1..]));
      assert b == [b[0]] + b[1..];
    }
  }

  /** What a script keeps: the total length of its equalities. */
  function Kept(d: seq<Diff<char>>): nat
  {
    if d == [] then 0 else (if d[0].op == Equal then |d[0].text| else 0) + Kept(d[1..])
  }

  /** The walk keeps a longest common subsequence of the two texts. */
  lemma {:induction false} WalkKeepsLcs(a: string, b: string)
    ensures Kept(Walk(a, b)) == Lcs(a, b)
    decreases |a| + |b|
  {
    if a == [] || b == [] {
    } else if a[0] == b[0] {
      WalkKeepsLcs(a[1..], b[1..]);
      assert ([Diff(Equal, [a[0]])] + Walk(a[1..], b[1..]))[1..] == Walk(a[1..], b[1..]);
    } else if Lcs(a[1..], b) >= Lcs(a, b[1..]) {
      WalkKeepsLcs(a[1..], b);
      assert ([Diff(Delete, [a[0]])] + Walk(a[1..], b))[1..] == Walk(a[1..], b);
    } else {
      WalkKeepsLcs(a, b[1..]);
      assert ([Diff(Insert, [b[0]])] + Walk(a, b[1..]))[1..] == Walk(a, b[1..]);
    }
  }

  /** `diff_bisect_`: once the deadline has passed, the whole of `a` is
      deleted and the whole of `b` inserted. */
  function Bisect(a: string, b: string, expired: bool): (r: seq<Diff<char>>)
    ensures Text1(r) == a && Text2(r) == b
    ensures expired ==> r == [Diff(Delete, a), Diff(Insert, b)]
  {
    if expired then
      TextsPair(Diff(Delete, a), Diff(Insert, b));
      TextsSingle(Diff(Delete, a));
      TextsSingle(Diff(Insert, b));
      [Diff(Delete, a), Diff(Insert, b)]
    else
      WalkTexts(a, b);
      Walk(a, b)
  }

  /** The short text found inside the long one at `i`, the rest of the long
      text on either side deleted (`op` Delete) or inserted (`op` Insert). */
  function Inside(long: string, short: string, i: nat, op: Op): seq<Diff<char>>
    requires i + |short| <= |long|
  {
    [Diff(op, long[..i]), Diff(Equal, short), Diff(op, long[i + |short|..])]
  }

  /** A string cut in three and put back together. */
  lemma Thirds(s: string, i: nat, j: nat)
    requires i <= j <= |s|
    ensures s == s[..i] + s[i..j] + s[j..]
  {
  }

  /** The texts of an equality between two edits of the same kind. */
  lemma FlankedTexts(u: string, v: string, w: string, op: Op)
    requires op != Equal
    ensures Text1([Diff(op, u), Diff(Equal, v), Diff(op, w)]) == if op == Delete then u + v + w else v
    ensures Text2([Diff(op, u), Diff(Equal, v), Diff(op, w)]) == if op == Insert then u + v + w else v
  {
    var d := [Diff(op, u), Diff(Equal, v), Diff(op, w)];
    var d1, d2 := d[1..], d[1..][1..];
    assert d1 == [Diff(Equal, v), Diff(op, w)] && d2 == [Diff(op, w)] && d2[1..] == [];
    if op == Delete {
      assert Text1(d2) == w && Text2(d2) == [];
      assert Text1(d1) == v + w && Text2(d1) == v;
      assert Text1(d) == u + (v + w) && Text2(d) == v;
    } else {
      assert Text2(d2) == w && Text1(d2) == [];
      assert Text2(d1) == v + w && Text1(d1) == v;
      assert Text2(d) == u + (v + w) && Text1(d) == v;
    }
  }

  /** Where `short` occurs in `long` at `i`, `Inside` turns the short text
      into the long one (or the long into the short, when it deletes). */
  lemma InsideTexts(long: string, short: string, i: nat, op: Op)
    requires OccursAt(long, short, i) && op != Equal
    ensures op == Delete ==> Text1(Inside(long, short, i, op)) == long && Text2(Inside(long, short, i, op)) == short
    ensures op == Insert ==> Text1(Inside(long, short, i, op)) == short && Text2(Inside(long, short, i, op)) == long
  {
    FlankedTexts(long[..i], short, long[i + |short|..], op);
    Thirds(long, i, i + |short|);
  }

  /** `diff_compute_`: the middle of two texts that share no prefix or suffix.
      One side empty: the other is inserted or deleted whole. One side inside
      the other: the rest of the longer is inserted or deleted around it.
      A one-character side not inside the other: a deletion and an insertion.
      Otherwise the bisection. */
  function Compute(a: string, b: string, expired: bool): (r: seq<Diff<char>>)
    ensures Text1(r) == a && Text2(r) == b
  {
    if a == [] then TextsSingle(Diff(Insert, b)); [Diff(Insert, b)]
    else if b == [] then TextsSingle(Diff(Delete, a)); [Diff(Delete, a)]
    else
      var long, short := if |a| > |b| then a else b, if |a| > |b| then b else a;
      var i := IndexOf(long, short);
      if i != -1 then
        InsideTexts(long, short, i, if |a| > |b| then Delete else Insert);
        Inside(long, short, i, if |a| > |b| then Delete else Insert)
      else if |short| == 1 then
        TextsPair(Diff(Delete, a), Diff(Insert, b));
        TextsSingle(Diff(Delete, a));
        TextsSingle(Diff(Insert, b));
        [Diff(Delete, a), Diff(Insert, b)]
      else Bisect(a, b, expired)
  }

  /** The middle script turns `a` into `b`. */
  lemma ComputeTexts(a: string, b: string, expired: bool)
    ensures Text1(Compute(a, b, expired)) == a && Text2(Compute(a, b, expired)) == b
  {
    if a == [] {
      TextsSingle(Diff(Insert, b));
    } else if b == [] {
      TextsSingle(Diff(Delete, a));
    } else {
      var long, short := if |a| > |b| then a else b, if |a| > |b| then b else a;
      var i := IndexOf(long, short);
      if i != -1 {
        InsideTexts(long, short, i, if |a| > |b| then Delete else Insert);
      } else {
        var r := Bisect(a, b, true);
      }
    }
  }

  /** The script with the common prefix and suffix put back as equalities
      around the middle `d`. */
  function Wrap(prefix: string, d: seq<Diff<char>>, suffix: string): seq<Diff<char>>
  {
    (if prefix != [] then [Diff(Equal, prefix)] else []) + d + (if suffix != [] then [Diff(Equal, suffix)] else [])
  }

  /** Putting the equalities back adds them to both texts. */
  lemma WrapTexts(prefix: string, d: seq<Diff<char>>, suffix: string)
    ensures Text1(Wrap(prefix, d, suffix)) == prefix + Text1(d) + suffix
    ensures Text2(Wrap(prefix, d, suffix)) == prefix + Text2(d) + suffix
  {
    var p := if prefix != [] then [Diff(Equal, prefix)] else [];
    var s := if suffix != [] then [Diff(Equal, suffix)] else [];
    TextsAppend(p, d);
    TextsAppend(p + d, s);
    TextsSingle(Diff(Equal, prefix));
    TextsSingle(Diff(Equal, suffix));
  }

  /** A middle script from `m1` to `m2` with the equalities put back goes
      from `p + m1 + s` to `p + m2 + s`. */
  lemma PutBack(a: string, b: string, p: string, d: seq<Diff<char>>, s: string)
    requires a == p + Text1(d) + s && b == p + Text2(d) + s
    ensures Text1(Wrap(p, d, s)) == a && Text2(Wrap(p, d, s)) == b
  {
    WrapTexts(p, d, s);
  }

  /** Two different texts before the merge cleanup: the common prefix, the
      middle and the common suffix. */
  function Unmerged(a: string, b: string, expired: bool): seq<Diff<char>>
  {
    var c := CommonPrefix(a, b);
    Trimmed(a, b, c, CommonSuffix(a[c..], b[c..]), expired)
  }

  /** The first `c` and last `k` characters of `a` put around the diff of the
      middles of `a` and `b`. */
  function Trimmed(a: string, b: string, c: nat, k: nat, expired: bool): seq<Diff<char>>
    requires c + k <= |a| && c + k <= |b|
  {
    Wrap(a[..c], Compute(a[c..|a| - k], b[c..|b| - k], expired), a[|a| - k..])
  }

  /** The tail of a tail is a tail. */
  lemma TailOfTail(a: string, c: nat, k: nat)
    requires c + k <= |a|
    ensures a[c..][|a[c..]| - k..] == a[|a| - k..]
  {
  }

  /** A string with a known front `p` and back `s` is `p`, its middle and `s`. */
  lemma Rebuild(a: string, c: nat, k: nat, p: string, s: string)
    requires c + k <= |a| && a[..c] == p && a[|a| - k..] == s
    ensures a == p + a[c..|a| - k] + s
  {
    Thirds(a, c, |a| - k);
  }

  /** The unmerged script of texts whose common prefix is `p`, whose common
      suffix is `s` and whose middles are `m1` and `m2`. */
  lemma UnmergedParts(a: string, b: string, p: string, m1: string, m2: string, s: string, expired: bool)
    requires CommonPrefix(a, b) == |p| && CommonSuffix(a[|p|..], b[|p|..]) == |s|
    requires a[..|p|] == p && a[|a| - |s|..] == s
    requires a[|p|..|a| - |s|] == m1 && b[|p|..|b| - |s|] == m2
    ensures Unmerged(a, b, expired) == Wrap(p, Compute(m1, m2, expired), s)
  {
    assert Unmerged(a, b, expired) == Trimmed(a, b, |p|, |s|, expired);
  }

  /** Texts that agree on their first `c` and last `k` characters are those
      characters around their own middles. */
  lemma Trim(a: string, b: string, c: nat, k: nat)
    requires c + k <= |a| && c + k <= |b| && a[..c] == b[..c] && a[|a| - k..] == b[|b| - k..]
    ensures a == a[..c] + a[c..|a| - k] + a[|a| - k..]
    ensures b == a[..c] + b[c..|b| - k] + a[|a| - k..]
  {
    Rebuild(a, c, k, a[..c], a[|a| - k..]);
    Rebuild(b, c, k, a[..c], a[|a| - k..]);
  }

  /** The trimmed script of texts that agree on their first `c` and last `k`
      characters turns `a` into `b`. */
  lemma TrimmedTexts(a: string, b: string, c: nat, k: nat, expired: bool)
    requires c + k <= |a| && c + k <= |b| && a[..c] == b[..c] && a[|a| - k..] == b[|b| - k..]
    ensures Text1(Trimmed(a, b, c, k, expired)) == a && Text2(Trimmed(a, b, c, k, expired)) == b
  {
    Trim(a, b, c, k);
    ComputeTexts(a[c..|a| - k], b[c..|b| - k], expired);
    PutBack(a, b, a[..c], Compute(a[c..|a| - k], b[c..|b| - k], expired), a[|a| - k..]);
  }

  /** The unmerged script turns `a` into `b`. */
  lemma UnmergedTexts(a: string, b: string, expired: bool)
    ensures Text1(Unmerged(a, b, expired)) == a && Text2(Unmerged(a, b, expired)) == b
  {
    var c := CommonPrefix(a, b);
    var k := CommonSuffix(a[c..], b[c..]);
    assert c + k <= |a| && c + k <= |b| && a[..c] == b[..c] && a[|a| - k..] == b[|b| - k..] by {
      TailOfTail(a, c, k);
      TailOfTail(b, c, k);
    }
    TrimmedTexts(a, b, c, k, expired);
    assert Unmerged(a, b, expired) == Trimmed(a, b, c, k, expired);
  }

  /** `diff_main` of `a` and `b`, `expired` telling whether the deadline has passed. */
  function DiffMain(a: string, b: string, expired: bool): (r: seq<Diff<char>>)
    ensures Text1(r) == a && Text2(r) == b
  {
    if a == b then TextsSingle(Diff(Equal, a)); (if a == [] then [] else [Diff(Equal, a)])
    else UnmergedTexts(a, b, expired); Merge(Unmerged(a, b, expired))
  }

  /** The diff turns `a` into `b`. */
  lemma DiffMainTexts(a: string, b: string, expired: bool)
    ensures Text1(DiffMain(a, b, expired)) == a && Text2(DiffMain(a, b, expired)) == b
  {
    if a == b {
      TextsSingle(Diff(Equal, a));
    } else {
      UnmergedTexts(a, b, expired);
      MergeTexts(Unmerged(a, b, expired));
    }
  }

  /** The diff of a text with itself is one equality, or nothing when it is empty. */
  lemma DiffMainSame(a: string, expired: bool)
    ensures DiffMain(a, a, expired) == (if a == [] then [] else [Diff(Equal, a)])
  {
  }

  /** A diff is in the merged shape: no neighbours that could be joined and no
      edit that could slide into the equality beside it. */
  lemma DiffMainShape(a: string, b: string, expired: bool)
    ensures Coalesced(DiffMain(a, b, expired)) && Settled(DiffMain(a, b, expired))
  {
    if a != b {
      MergeShape(Unmerged(a, b, expired));
    }
  }
}
