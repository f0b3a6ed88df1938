/** The line tokenizer: every distinct line of two texts gets a dense id (first
    seen, first numbered; id 0 is reserved for the empty string), each text
    becomes the sequence of its line ids, and a script over ids is expanded back
    into a script over text. Ids are unbounded naturals, so nothing wraps however
    many distinct lines there are. */
module Lines {
  import opened Diffs

  /** Length of the first line of `s`, its line break included. */
  function LineLength(s: string): (n: nat)
    requires s != []
    ensures 0 < n <= |s|
    ensures forall i :: 0 <= i < n - 1 ==> s[i] != '\n'
    ensures n == |s| || s[n - 1] == '\n'
  {
    if s[0] == '\n' || |s| == 1 then 1 else 1 + LineLength(s[1..])
  }

  /** All strings of a sequence, joined. */
  function Concat(ls: seq<string>): string
  {
    if ls == [] then [] else ls[0] + Concat(ls[1..])
  }

  lemma {:induction false} ConcatAppend(a: seq<string>, b: seq<string>)
    ensures Concat(a + b) == Concat(a) + Concat(b)
  {
    if a == [] {
      assert a + b == b;
    } else {
      assert (a + b)[1..] == a[1..] + b;
      ConcatAppend(a[1..], b);
    }
  }

  /** The lines of `s`, each with its line break; the last may lack one. */
  function SplitLines(s: string): (r: seq<string>)
    ensures Concat(r) == s
    decreases |s|
  {
    if s == [] then []
    else
      var n := LineLength(s);
      var rest := SplitLines(s[n..]);
      assert s == s[..n] + s[n..];
      [s[..n]] + rest
  }

  /** No line is empty. */
  lemma {:induction false} SplitLinesNonEmpty(s: string)
    ensures forall i :: 0 <= i < |SplitLines(s)| ==> SplitLines(s)[i] != []
    decreases |s|
  {
    if s != [] {
      var n := LineLength(s);
      SplitLinesNonEmpty(s[n..]);
      assert SplitLines(s) == [s[..n]] + SplitLines(s[n..]);
    }
  }

  /** The strings of `arr` are pairwise distinct. */
  predicate Distinct(arr: seq<string>)
  {
    forall i, j :: 0 <= i < j < |arr| ==> arr[i] != arr[j]
  }

  /** The position of `x` in `arr`. */
  function Find(arr: seq<string>, x: string): (i: nat)
    requires x in arr
    ensures i < |arr| && arr[i] == x && x !in arr[..i]
  {
    if arr[0] == x then 0
    else
      var i := Find(arr[1..], x);
      assert arr[..i + 1] == [arr[0]] + arr[1..][..i];
      i + 1
  }

  /** The line table after meeting `line`: unchanged if the line is known,
      otherwise extended with it. */
  function Register(arr: seq<string>, line: string): seq<string>
  {
    if line in arr then arr else arr + [line]
  }

  /** Every distinct element of `s`, in the order of first occurrence. */
  function Dedup(s: seq<string>): seq<string>
  {
    if s == [] then [] else Register(Dedup(s[..|s| - 1]), s[|s| - 1])
  }

  /** The ids of `lines` against the table `arr`, and the table once every new
      line has been given the next free id. */
  function Munge(arr: seq<string>, lines: seq<string>): (r: (seq<nat>, seq<string>))
    ensures |r.0| == |lines| && arr <= r.1
    decreases lines
  {
    if lines == [] then ([], arr)
    else
      var id := if lines[0] in arr then Find(arr, lines[0]) else |arr|;
      var r := Munge(Register(arr, lines[0]), lines[1..]);
      ([id] + r.0, r.1)
  }

  /** Every id `Munge` gives names its line in the final table. */
  lemma {:induction false} MungeIds(arr: seq<string>, lines: seq<string>)
    ensures var r := Munge(arr, lines);
      forall i :: 0 <= i < |lines| ==> r.0[i] < |r.1| && r.1[r.0[i]] == lines[i]
    decreases lines
  {
    if lines != [] {
      MungeIds(Register(arr, lines[0]), lines[1..]);
      var r := Munge(arr, lines);
      var r' := Munge(Register(arr, lines[0]), lines[1..]);
      forall i | 1 <= i < |lines| ensures r.0[i] < |r.1| && r.1[r.0[i]] == lines[i] {
        assert r.0[i] == r'.0[i - 1] && lines[i] == lines[1..][i - 1];
      }
      assert Register(arr, lines[0]) <= r.1;
    }
  }

  /** The outcome of tokenizing two texts: the id sequence of each and the line
      table, entry 0 of which is the empty string. */
  datatype Tokens = Tokens(chars1: seq<nat>, chars2: seq<nat>, lineArray: seq<string>)

  function Tokenize(text1: string, text2: string): (r: Tokens)
    ensures |r.chars1| == |SplitLines(text1)| && |r.chars2| == |SplitLines(text2)|
    ensures r.lineArray != [] && r.lineArray[0] == ""
  {
    var r1 := Munge([""], SplitLines(text1));
    var r2 := Munge(r1.1, SplitLines(text2));
    Tokens(r1.0, r2.0, r2.1)
  }

  /** The text of one id: its line, or nothing for an id outside the table. */
  function LineOf(lineArray: seq<string>, c: nat): string
  {
    if c < |lineArray| then lineArray[c] else []
  }

  /** The text of a sequence of ids. */
  function Expand(chars: seq<nat>, lineArray: seq<string>): string
  {
    if chars == [] then [] else Expand(chars[..|chars| - 1], lineArray) + LineOf(lineArray, chars[|chars| - 1])
  }

  /** An id script expanded operation by operation into a text script. */
  function ExpandDiffs(diffs: seq<Diff<nat>>, lineArray: seq<string>): (r: seq<Diff<char>>)
    ensures |r| == |diffs|
    ensures forall k :: 0 <= k < |r| ==> r[k] == Diff(diffs[k].op, Expand(diffs[k].text, lineArray))
  {
    if diffs == [] then []
    else [Diff(diffs[0].op, Expand(diffs[0].text, lineArray))] + ExpandDiffs(diffs[1..], lineArray)
  }

  lemma {:induction false} ExpandAppend(a: seq<nat>, b: seq<nat>, lineArray: seq<string>)
    ensures Expand(a + b, lineArray) == Expand(a, lineArray) + Expand(b, lineArray)
    decreases |b|
  {
    if b == [] {
      assert a + b == a;
    } else {
      var b' := b[..|b| - 1];
      var ab := a + b;
      assert ab[..|ab| - 1] == a + b';
      assert ab[|ab| - 1] == b[|b| - 1];
      var x := LineOf(lineArray, b[|b| - 1]);
      assert Expand(b, lineArray) == Expand(b', lineArray) + x;
      assert Expand(ab, lineArray) == Expand(a + b', lineArray) + x;
      ExpandAppend(a, b', lineArray);
      var ea, eb := Expand(a, lineArray), Expand(b', lineArray);
      assert (ea + eb) + x == ea + (eb + x);
    }
  }

  /** Ids that name the given lines in a table expand back to those lines. */
  lemma {:induction false} ExpandIds(ids: seq<nat>, lines: seq<string>, lineArray: seq<string>)
    requires |ids| == |lines|
    requires forall i :: 0 <= i < |ids| ==> ids[i] < |lineArray| && lineArray[ids[i]] == lines[i]
    ensures Expand(ids, lineArray) == Concat(lines)
  {
    if ids != [] {
      ExpandIds(ids[1..], lines[1..], lineArray);
      ExpandAppend([ids[0]], ids[1..], lineArray);
      assert [ids[0]] + ids[1..] == ids;
      assert Expand([ids[0]], lineArray) == Expand([], lineArray) + LineOf(lineArray, ids[0]);
    }
  }

  /** Each text's id sequence expands back to the text itself. */
  lemma TokenizeRoundTrip(text1: string, text2: string)
    ensures Expand(Tokenize(text1, text2).chars1, Tokenize(text1, text2).lineArray) == text1
    ensures Expand(Tokenize(text1, text2).chars2, Tokenize(text1, text2).lineArray) == text2
  {
    var r1 := Munge([""], SplitLines(text1));
    var r2 := Munge(r1.1, SplitLines(text2));
    MungeIds([""], SplitLines(text1));
    MungeIds(r1.1, SplitLines(text2));
    assert r1.1 <= r2.1;
    forall i | 0 <= i < |r1.0| ensures r1.0[i] < |r2.1| && r2.1[r1.0[i]] == SplitLines(text1)[i] {
      assert r2.1[r1.0[i]] == r1.1[r1.0[i]];
    }
    ExpandIds(r1.0, SplitLines(text1), r2.1);
    ExpandIds(r2.0, SplitLines(text2), r2.1);
  }

  /** Tokenizing one more line updates the table as `Register` says. */
  lemma {:induction false} MungeSnoc(arr: seq<string>, lines: seq<string>, x: string)
    ensures Munge(arr, lines + [x]).1 == Register(Munge(arr, lines).1, x)
    decreases lines
  {
    if lines == [] {
      assert lines + [x] == [x];
      assert [x][1..] == [];
    } else {
      assert (lines + [x])[1..] == lines[1..] + [x];
      MungeSnoc(Register(arr, lines[0]), lines[1..], x);
    }
  }

  /** Tokenizing two batches of lines in turn is tokenizing them together. */
  lemma {:induction false} MungeAppend(arr: seq<string>, a: seq<string>, b: seq<string>)
    ensures Munge(arr, a + b).1 == Munge(Munge(arr, a).1, b).1
    decreases |b|
  {
    if b == [] {
      assert a + b == a;
    } else {
      var b' := b[..|b| - 1];
      var x := b[|b| - 1];
      assert a + b == (a + b') + [x];
      assert b == b' + [x];
      MungeSnoc(arr, a + b', x);
      MungeSnoc(Munge(arr, a).1, b', x);
      MungeAppend(arr, a, b');
    }
  }

  /** Starting from the reserved entry, the table is that entry followed by the
      distinct lines in the order they were first met. */
  lemma {:induction false} MungeFromEmpty(lines: seq<string>)
    requires forall i :: 0 <= i < |lines| ==> lines[i] != []
    ensures Munge([""], lines).1 == [""] + Dedup(lines)
    decreases |lines|
  {
    if lines != [] {
      var l' := lines[..|lines| - 1];
      var x := lines[|lines| - 1];
      assert lines == l' + [x];
      MungeSnoc([""], l', x);
      MungeFromEmpty(l');
      assert x in [""] + Dedup(l') <==> x in Dedup(l');
    }
  }

  lemma {:induction false} DedupDistinct(s: seq<string>)
    ensures Distinct(Dedup(s))
  {
    if s != [] {
      DedupDistinct(s[..|s| - 1]);
    }
  }

  lemma {:induction false} DedupNonEmpty(s: seq<string>)
    requires forall i :: 0 <= i < |s| ==> s[i] != []
    ensures "" !in Dedup(s)
  {
    if s != [] {
      DedupNonEmpty(s[..|s| - 1]);
    }
  }

  /** Entry 0 is the only empty entry of a table built from non-empty lines. */
  lemma ReservedDistinct(d: seq<string>)
    requires Distinct(d) && "" !in d
    ensures Distinct([""] + d)
  {
    forall i, j | 0 <= i < j < |d| + 1 ensures ([""] + d)[i] != ([""] + d)[j] {
      if i > 0 { assert ([""] + d)[i] == d[i - 1]; }
      assert ([""] + d)[j] == d[j - 1];
    }
  }

  lemma {:induction false} TableOf(l1: seq<string>, l2: seq<string>)
    requires forall i :: 0 <= i < |l1| ==> l1[i] != []
    requires forall i :: 0 <= i < |l2| ==> l2[i] != []
    ensures Munge(Munge([""], l1).1, l2).1 == [""] + Dedup(l1 + l2)
    ensures Distinct([""] + Dedup(l1 + l2))
  {
    var l := l1 + l2;
    forall i | 0 <= i < |l| ensures l[i] != [] {
      if i < |l1| { assert l[i] == l1[i]; } else { assert l[i] == l2[i - |l1|]; }
    }
    MungeAppend([""], l1, l2);
    MungeFromEmpty(l);
    DedupDistinct(l);
    DedupNonEmpty(l);
    ReservedDistinct(Dedup(l));
  }

  /** The line table starts with the reserved empty entry, then lists every
      distinct line of the first text and then of the second in the order they
      first occur. */
  lemma TokenizeTable(text1: string, text2: string)
    ensures Tokenize(text1, text2).lineArray == [""] + Dedup(SplitLines(text1) + SplitLines(text2))
    ensures Distinct(Tokenize(text1, text2).lineArray)
  {
    var l1, l2 := SplitLines(text1), SplitLines(text2);
    SplitLinesNonEmpty(text1);
    SplitLinesNonEmpty(text2);
    TableOf(l1, l2);
    assert Tokenize(text1, text2).lineArray == Munge(Munge([""], l1).1, l2).1;
  }

  /** Each text's ids point at its lines in the table, and no id is the
      reserved 0. */
  lemma TokenizeIds(text1: string, text2: string)
    ensures |Tokenize(text1, text2).chars1| == |SplitLines(text1)|
    ensures |Tokenize(text1, text2).chars2| == |SplitLines(text2)|
    ensures forall i :: 0 <= i < |SplitLines(text1)| ==>
      var c := Tokenize(text1, text2).chars1[i];
      0 < c < |Tokenize(text1, text2).lineArray| && Tokenize(text1, text2).lineArray[c] == SplitLines(text1)[i]
    ensures forall i :: 0 <= i < |SplitLines(text2)| ==>
      var c := Tokenize(text1, text2).chars2[i];
      0 < c < |Tokenize(text1, text2).lineArray| && Tokenize(text1, text2).lineArray[c] == SplitLines(text2)[i]
  {
    var l1, l2 := SplitLines(text1), SplitLines(text2);
    var r1 := Munge([""], l1);
    var r2 := Munge(r1.1, l2);
    MungeIds([""], l1);
    MungeIds(r1.1, l2);
    SplitLinesNonEmpty(text1);
    SplitLinesNonEmpty(text2);
    var t := r2.1;
    assert t[0] == "";
    assert r1.1 <= t;
    forall i | 0 <= i < |l1| ensures 0 < r1.0[i] < |t| && t[r1.0[i]] == l1[i] {
      assert t[r1.0[i]] == r1.1[r1.0[i]];
    }
  }

  lemma {:induction false} ExpandDiffsTexts(diffs: seq<Diff<nat>>, lineArray: seq<string>)
    ensures Text1(ExpandDiffs(diffs, lineArray)) == Expand(Text1(diffs), lineArray)
    ensures Text2(ExpandDiffs(diffs, lineArray)) == Expand(Text2(diffs), lineArray)
  {
    if diffs != [] {
      ExpandDiffsTexts(diffs[1..], lineArray);
      var t := diffs[0].text;
      ExpandAppend(if diffs[0].op != Insert then t else [], Text1(diffs[1..]), lineArray);
      ExpandAppend(if diffs[0].op != Delete then t else [], Text2(diffs[1..]), lineArray);
    }
  }

  /** Line mode loses nothing: any script between the two id sequences,
      expanded, is a script between the two original texts. */
  lemma LineModeRoundTrip(text1: string, text2: string, diffs: seq<Diff<nat>>)
    requires Text1(diffs) == Tokenize(text1, text2).chars1
    requires Text2(diffs) == Tokenize(text1, text2).chars2
    ensures Text1(ExpandDiffs(diffs, Tokenize(text1, text2).lineArray)) == text1
    ensures Text2(ExpandDiffs(diffs, Tokenize(text1, text2).lineArray)) == text2
  {
    ExpandDiffsTexts(diffs, Tokenize(text1, text2).lineArray);
    TokenizeRoundTrip(text1, text2);
  }

  lemma {:induction false} ExpandDiffsAppend(a: seq<Diff<nat>>, b: seq<Diff<nat>>, lineArray: seq<string>)
    ensures ExpandDiffs(a + b, lineArray) == ExpandDiffs(a, lineArray) + ExpandDiffs(b, lineArray)
  {
    if a == [] {
      assert a + b == b;
    } else {
      assert (a + b)[1..] == a[1..] + b;
      ExpandDiffsAppend(a[1..], b, lineArray);
    }
  }

  /** The position of the first `c` in `text` at or after `from`, or -1. */
  function IndexOf(text: string, c: char, from: nat): (r: int)
    requires from <= |text|
    ensures r == -1 || (from <= r < |text| && text[r] == c)
    ensures forall i :: from <= i < |text| && (r == -1 || i < r) ==> text[i] != c
    decreases |text| - from
  {
    if from == |text| then -1
    else if text[from] == c then from
    else IndexOf(text, c, from + 1)
  }

  /** The line that starts at `lineStart` ends at the next line break, or at the
      end of the text when there is none. */
  lemma LineEnd(text: string, lineStart: nat)
    requires lineStart < |text|
    ensures var e := IndexOf(text, '\n', lineStart);
      lineStart + LineLength(text[lineStart..]) == if e == -1 then |text| else e + 1
  {
    var s := text[lineStart..];
    var e := IndexOf(text, '\n', lineStart);
    if e != -1 {
      assert s[e - lineStart] == '\n';
    }
  }

  /** The lines from `lineStart` on are the line ending at `lineEnd` followed by
      the lines after it. */
  lemma SplitStep(text: string, lineStart: nat, lineEnd: nat)
    requires lineStart <= lineEnd < |text|
    requires lineStart + LineLength(text[lineStart..]) == lineEnd + 1
    ensures SplitLines(text[lineStart..]) == [text[lineStart..lineEnd + 1]] + SplitLines(text[lineEnd + 1..])
  {
    var rest := text[lineStart..];
    assert text[lineStart..lineEnd + 1] == rest[..LineLength(rest)];
    assert text[lineEnd + 1..] == rest[LineLength(rest)..];
  }

  /** One step of `Munge`. */
  lemma MungeCons(arr: seq<string>, line: string, lines: seq<string>)
    ensures var r := Munge(Register(arr, line), lines);
      Munge(arr, [line] + lines) == ([if line in arr then Find(arr, line) else |arr|] + r.0, r.1)
  {
    assert ([line] + lines)[1..] == lines;
  }

  /** The line table and the map from each line to its id agree: every line of
      the table except the reserved entry has its index as its id. */
  ghost predicate HashMatches(lineArray: seq<string>, lineHash: map<string, nat>)
  {
    && |lineArray| > 0 && lineArray[0] == ""
    && Distinct(lineArray)
    && (forall l :: l in lineHash ==> l != "" && l in lineArray)
    && (forall l :: l in lineArray && l != "" ==> l in lineHash)
    && (forall l :: l in lineHash ==> lineHash[l] < |lineArray| && lineArray[lineHash[l]] == l)
  }

  /** A known line's id in the map is its position in the table. */
  lemma HashFind(lineArray: seq<string>, lineHash: map<string, nat>, line: string)
    requires HashMatches(lineArray, lineHash) && line in lineHash
    ensures line in lineArray && lineHash[line] == Find(lineArray, line)
  {
  }

  /** A new line goes at the end of the table, with that position as its id. */
  lemma HashRegister(lineArray: seq<string>, lineHash: map<string, nat>, line: string)
    requires HashMatches(lineArray, lineHash) && line != "" && line !in lineHash
    ensures line !in lineArray
    ensures HashMatches(lineArray + [line], lineHash[line := |lineArray|])
  {
  }

  /** `chars` are the ids given so far and tokenizing the lines still to do
      against the current table gives the rest of the ids and the final table. */
  ghost predicate MungeRemains(chars: seq<nat>, arr: seq<string>, todo: seq<string>, goal: (seq<nat>, seq<string>))
  {
    chars + Munge(arr, todo).0 == goal.0 && Munge(arr, todo).1 == goal.1
  }

  lemma MungeAdvance(chars: seq<nat>, arr: seq<string>, line: string, todo: seq<string>, goal: (seq<nat>, seq<string>))
    requires MungeRemains(chars, arr, [line] + todo, goal)
    ensures MungeRemains(chars + [if line in arr then Find(arr, line) else |arr|], Register(arr, line), todo, goal)
  {
    MungeCons(arr, line, todo);
    var id := if line in arr then Find(arr, line) else |arr|;
    var m := Munge(Register(arr, line), todo);
    assert chars + ([id] + m.0) == (chars + [id]) + m.0;
  }

  lemma MungeDone(chars: seq<nat>, arr: seq<string>, goal: (seq<nat>, seq<string>))
    requires MungeRemains(chars, arr, [], goal)
    ensures (chars, arr) == goal
  {
    assert chars + [] == chars;
  }

  /** Looks a line up in the map, registering it at the end of the table when
      it is new. */
  method Intern(line: string, lineArray: seq<string>, lineHash: map<string, nat>)
    returns (id: nat, lineArray': seq<string>, lineHash': map<string, nat>)
    requires HashMatches(lineArray, lineHash) && line != ""
    ensures id == (if line in lineArray then Find(lineArray, line) else |lineArray|)
    ensures lineArray' == Register(lineArray, line)
    ensures HashMatches(lineArray', lineHash')
  {
    if line in lineHash {
      HashFind(lineArray, lineHash, line);
      id, lineArray', lineHash' := lineHash[line], lineArray, lineHash;
    } else {
      HashRegister(lineArray, lineHash, line);
      id, lineArray', lineHash' := |lineArray|, lineArray + [line], lineHash[line := |lineArray|];
    }
  }

  /** Turns one text into ids, line by line, extending the table and the map
      with each line not seen before. */
  method MungeLines(text: string, lineArray: seq<string>, lineHash: map<string, nat>)
    returns (chars: seq<nat>, lineArray': seq<string>, lineHash': map<string, nat>)
    requires HashMatches(lineArray, lineHash)
    ensures (chars, lineArray') == Munge(lineArray, SplitLines(text))
    ensures HashMatches(lineArray', lineHash')
  {
    ghost var goal := Munge(lineArray, SplitLines(text));
    chars, lineArray', lineHash' := [], lineArray, lineHash;
    var lineStart := 0;
    var lineEnd := -1;
    ghost var todo := SplitLines(text);
    assert text[0..] == text;
    while lineEnd < |text| - 1
      invariant lineStart == lineEnd + 1 && 0 <= lineStart <= |text|
      invariant todo == SplitLines(text[lineStart..])
      invariant HashMatches(lineArray', lineHash')
      invariant MungeRemains(chars, lineArray', todo, goal)
      decreases |text| - lineStart
    {
      LineEnd(text, lineStart);
      lineEnd := IndexOf(text, '\n', lineStart);
      if lineEnd == -1 {
        lineEnd := |text| - 1;
      }
      var line := text[lineStart..lineEnd + 1];
      SplitStep(text, lineStart, lineEnd);
      ghost var todo' := SplitLines(text[lineEnd + 1..]);
      MungeAdvance(chars, lineArray', line, todo', goal);
      var id;
      id, lineArray', lineHash' := Intern(line, lineArray', lineHash');
      chars := chars + [id];
      lineStart := lineEnd + 1;
      todo := todo';
    }
    assert text[lineStart..] == [];
    MungeDone(chars, lineArray', goal);
  }

  /** Tokenizes both texts against one shared line table. */
  method LinesToChars(text1: string, text2: string)
    returns (chars1: seq<nat>, chars2: seq<nat>, lineArray: seq<string>)
    ensures Tokens(chars1, chars2, lineArray) == Tokenize(text1, text2)
  {
    lineArray := [""];
    var lineHash: map<string, nat> := map[];
    chars1, lineArray, lineHash := MungeLines(text1, lineArray, lineHash);
    chars2, lineArray, lineHash := MungeLines(text2, lineArray, lineHash);
  }

  /** One more operation of the id script adds its expansion at the end. */
  lemma ExpandDiffsSnoc(diffs: seq<Diff<nat>>, x: nat, lineArray: seq<string>)
    requires x < |diffs|
    ensures ExpandDiffs(diffs[..x + 1], lineArray)
         == ExpandDiffs(diffs[..x], lineArray) + [Diff(diffs[x].op, Expand(diffs[x].text, lineArray))]
  {
    ExpandDiffsAppend(diffs[..x], [diffs[x]], lineArray);
    assert diffs[..x + 1] == diffs[..x] + [diffs[x]];
    assert [diffs[x]][1..] == [];
  }

  /** Replaces the ids of every operation with the lines they stand for. */
  method CharsToLines(diffs: seq<Diff<nat>>, lineArray: seq<string>) returns (r: seq<Diff<char>>)
    ensures r == ExpandDiffs(diffs, lineArray)
  {
    r := [];
    for x := 0 to |diffs|
      invariant r == ExpandDiffs(diffs[..x], lineArray)
    {
      var chars := diffs[x].text;
      var text := [];
      for y := 0 to |chars|
        invariant text == Expand(chars[..y], lineArray)
      {
        assert chars[..y + 1][..y] == chars[..y];
        text := text + LineOf(lineArray, chars[y]);
      }
      assert chars[..|chars|] == chars;
      ExpandDiffsSnoc(diffs, x, lineArray);
      r := r + [Diff(diffs[x].op, text)];
    }
    assert diffs[..|diffs|] == diffs;
  }
}
