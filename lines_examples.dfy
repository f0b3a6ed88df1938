/** Worked examples of the line tokenizer and of the expansion of an id script
    back into text. */
module LinesExamples {
  import opened Diffs
  import opened Lines

  /** A non-empty text without a line break is a single line. */
  lemma OneLine(s: string)
    requires s != [] && '\n' !in s
    ensures SplitLines(s) == [s]
  {
    var n := LineLength(s);
    assert n == |s|;
    assert s[..n] == s && s[n..] == [];
  }

  /** A line that ends with its one line break is split off whatever follows it. */
  lemma LineThen(l: string, rest: string)
    requires l != [] && l[|l| - 1] == '\n' && '\n' !in l[..|l| - 1]
    ensures SplitLines(l + rest) == [l] + SplitLines(rest)
  {
    var s := l + rest;
    var n := LineLength(s);
    assert s[|l| - 1] == '\n';
    assert n == |l|;
    assert s[..n] == l && s[n..] == rest;
  }

  /** Three lines, each ending with its break. */
  lemma ThreeLines(x: string, y: string, z: string)
    requires x != [] && x[|x| - 1] == '\n' && '\n' !in x[..|x| - 1]
    requires y != [] && y[|y| - 1] == '\n' && '\n' !in y[..|y| - 1]
    requires z != [] && z[|z| - 1] == '\n' && '\n' !in z[..|z| - 1]
    ensures SplitLines(x + (y + z)) == [x, y, z]
  {
    LineThen(z, []);
    assert z + [] == z;
    assert SplitLines([]) == [];
    LineThen(y, z);
    ConsPair(y, z);
    LineThen(x, y + z);
    ConsTriple(x, y, z);
  }

  /** Two new lines met as x, y, x get the next two ids. */
  lemma MungeTwoLines(arr: seq<string>, x: string, y: string)
    requires x !in arr && y !in arr && x != y
    ensures Munge(arr, [x, y, x]) == ([|arr|, |arr| + 1, |arr|], arr + [x, y])
  {
    var r2 := Munge(arr + [x], [y, x]);
    MungeNewThenOld(arr, x, y);
    MungeNew(arr, x, [y, x]);
    ConsTriple(x, y, x);
    assert Munge(arr, [x, y, x]) == ([|arr|] + r2.0, r2.1);
    ConsTriple(|arr|, |arr| + 1, |arr|);
  }

  /** After x, a new line y and then x again. */
  lemma MungeNewThenOld(arr: seq<string>, x: string, y: string)
    requires x !in arr && y !in arr && x != y
    ensures Munge(arr + [x], [y, x]) == ([|arr| + 1, |arr|], arr + [x, y])
  {
    var t := arr + [x, y];
    TwoLinesTable(arr, x, y);
    var r1 := Munge(t, [x]);
    MungeOne(t, x, |arr|);
    MungeNew(arr + [x], y, [x]);
    ConsPair(y, x);
    assert arr + [x] + [y] == t && |arr + [x]| == |arr| + 1;
    assert Munge(arr + [x], [y, x]) == ([|arr| + 1] + r1.0, r1.1);
    ConsPair(|arr| + 1, |arr|);
  }

  /** A single line already at position `i`, and nowhere before, gets id `i`. */
  lemma MungeOne(arr: seq<string>, x: string, i: nat)
    requires i < |arr| && arr[i] == x && x !in arr[..i]
    ensures Munge(arr, [x]) == ([i], arr)
  {
    MungeKnown(arr, x, i, []);
    assert Munge(arr, []) == ([], arr);
    assert [x] + [] == [x];
    assert [i] + [] == [i];
  }

  /** Met again as y, x, y, the same two lines keep their ids and the table does not grow. */
  lemma MungeTwoAgain(arr: seq<string>, x: string, y: string)
    requires x !in arr && y !in arr && x != y
    ensures Munge(arr + [x, y], [y, x, y]) == ([|arr| + 1, |arr|, |arr| + 1], arr + [x, y])
  {
    var t := arr + [x, y];
    TwoLinesTable(arr, x, y);
    var r2 := Munge(t, [x, y]);
    MungeTwoKnown(arr, x, y);
    MungeKnown(t, y, |arr| + 1, [x, y]);
    ConsTriple(y, x, y);
    assert Munge(t, [y, x, y]) == ([|arr| + 1] + r2.0, r2.1);
    ConsTriple(|arr| + 1, |arr|, |arr| + 1);
  }

  /** Both lines already in the table keep their ids. */
  lemma MungeTwoKnown(arr: seq<string>, x: string, y: string)
    requires x !in arr && y !in arr && x != y
    ensures Munge(arr + [x, y], [x, y]) == ([|arr|, |arr| + 1], arr + [x, y])
  {
    var t := arr + [x, y];
    TwoLinesTable(arr, x, y);
    var r1 := Munge(t, [y]);
    MungeOne(t, y, |arr| + 1);
    MungeKnown(t, x, |arr|, [y]);
    ConsPair(x, y);
    assert Munge(t, [x, y]) == ([|arr|] + r1.0, r1.1);
    ConsPair(|arr|, |arr| + 1);
  }

  lemma ConsPair<T>(a: T, b: T)
    ensures [a] + [b] == [a, b]
  {
  }

  lemma ConsTriple<T>(a: T, b: T, c: T)
    ensures [a] + [b, c] == [a, b, c]
  {
  }

  lemma ConsQuad<T>(a: T, b: T, c: T, d: T)
    ensures [a] + [b, c, d] == [a, b, c, d]
  {
  }

  /** Where the two lines sit in the grown table. */
  lemma TwoLinesTable(arr: seq<string>, x: string, y: string)
    requires x !in arr && y !in arr && x != y
    ensures var t := arr + [x, y];
      t == arr + [x] + [y] && |t| == |arr| + 2
      && t[|arr|] == x && x !in t[..|arr|] && t[|arr| + 1] == y && y !in t[..|arr| + 1]
      && x !in arr && y !in arr + [x]
  {
    var t := arr + [x, y];
    assert t[..|arr|] == arr;
    assert t[..|arr| + 1] == arr + [x];
  }

  /** A line not in the table gets the next id and is appended. */
  lemma MungeNew(arr: seq<string>, x: string, rest: seq<string>)
    requires x !in arr
    ensures Munge(arr, [x] + rest) == ([|arr|] + Munge(arr + [x], rest).0, Munge(arr + [x], rest).1)
  {
    MungeCons(arr, x, rest);
  }

  /** A line at position `i` of the table, and nowhere before, gets id `i`. */
  lemma MungeKnown(arr: seq<string>, x: string, i: nat, rest: seq<string>)
    requires i < |arr| && arr[i] == x && x !in arr[..i]
    ensures Munge(arr, [x] + rest) == ([i] + Munge(arr, rest).0, Munge(arr, rest).1)
  {
    FindAt(arr, x, i);
    MungeCons(arr, x, rest);
  }

  /** A line at position `i` of a table where it occurs nowhere earlier is found there. */
  lemma FindAt(arr: seq<string>, x: string, i: nat)
    requires i < |arr| && arr[i] == x && x !in arr[..i]
    ensures x in arr && Find(arr, x) == i
  {
  }

  /** Two texts made of the same two lines, met as x, y, x and then y, x, y:
      the lines get ids 1 and 2 in the order first met, shared by both texts. */
  lemma TokenizeTwo(text1: string, text2: string, x: string, y: string)
    requires SplitLines(text1) == [x, y, x] && SplitLines(text2) == [y, x, y]
    requires x != "" && y != "" && x != y
    ensures Tokenize(text1, text2) == Tokens([1, 2, 1], [2, 1, 2], ["", x, y])
  {
    MungeTwoLines([""], x, y);
    MungeTwoAgain([""], x, y);
    ConsTriple("", x, y);
  }

  /** Lines seen in one text and then in the other share their ids. */
  lemma AlphaBeta()
    ensures Tokenize("alpha\nbeta\nalpha\n", "beta\nalpha\nbeta\n")
         == Tokens([1, 2, 1], [2, 1, 2], ["", "alpha\n", "beta\n"])
  {
    AlphaBetaLines();
    assert "alpha\n" != "beta\n" by { assert "alpha\n"[0] != "beta\n"[0]; }
    TokenizeTwo("alpha\nbeta\nalpha\n", "beta\nalpha\nbeta\n", "alpha\n", "beta\n");
  }

  lemma AlphaBetaLines()
    ensures SplitLines("alpha\nbeta\nalpha\n") == ["alpha\n", "beta\n", "alpha\n"]
    ensures SplitLines("beta\nalpha\nbeta\n") == ["beta\n", "alpha\n", "beta\n"]
  {
    AlphaBetaParts();
    ThreeLines("alpha\n", "beta\n", "alpha\n");
    ThreeLines("beta\n", "alpha\n", "beta\n");
  }

  lemma AlphaBetaParts()
    ensures "alpha\n" + ("beta\n" + "alpha\n") == "alpha\nbeta\nalpha\n"
    ensures "beta\n" + ("alpha\n" + "beta\n") == "beta\nalpha\nbeta\n"
    ensures "alpha\n"[|"alpha\n"| - 1] == '\n' && '\n' !in "alpha\n"[..|"alpha\n"| - 1]
    ensures "beta\n"[|"beta\n"| - 1] == '\n' && '\n' !in "beta\n"[..|"beta\n"| - 1]
  {
    assert "alpha\n"[..5] == "alpha";
    assert "beta\n"[..4] == "beta";
  }

  /** An empty first text has no lines; the second text's lines x, y, z, z
      get ids 1, 2, 3, 3, the repeated line keeping its id. */
  lemma TokenizeEmptyFirst(text2: string, x: string, y: string, z: string)
    requires SplitLines(text2) == [x, y, z, z]
    requires x != "" && y != "" && z != "" && x != y && x != z && y != z
    ensures Tokenize("", text2) == Tokens([], [1, 2, 3, 3], ["", x, y, z])
  {
    assert SplitLines("") == [];
    assert Munge([""], []) == ([], [""]);
    MungeThreeNew([""], x, y, z);
  }

  /** Three new lines met as x, y, z, z. */
  lemma MungeThreeNew(arr: seq<string>, x: string, y: string, z: string)
    requires x !in arr && y !in arr && z !in arr && x != y && x != z && y != z
    ensures Munge(arr, [x, y, z, z]) == ([|arr|, |arr| + 1, |arr| + 2, |arr| + 2], arr + [x, y, z])
  {
    var a2 := arr + [x, y];
    assert a2 == arr + [x] + [y] && arr + [x, y, z] == a2 + [z];
    assert z !in a2 && y !in arr + [x];
    MungeNewTwice(a2, z);
    var r2 := Munge(a2, [z, z]);
    MungeNew(arr + [x], y, [z, z]);
    ConsTriple(y, z, z);
    var r1 := Munge(arr + [x], [y, z, z]);
    assert r1 == ([|arr| + 1] + r2.0, r2.1);
    MungeNew(arr, x, [y, z, z]);
    ConsQuad(x, y, z, z);
    assert Munge(arr, [x, y, z, z]) == ([|arr|] + r1.0, r1.1);
    ConsTriple(|arr| + 1, |arr| + 2, |arr| + 2);
    ConsQuad(|arr|, |arr| + 1, |arr| + 2, |arr| + 2);
  }

  /** A new line met twice in a row gets the same new id both times. */
  lemma MungeNewTwice(arr: seq<string>, z: string)
    requires z !in arr
    ensures Munge(arr, [z, z]) == ([|arr|, |arr|], arr + [z])
  {
    var t := arr + [z];
    assert t[..|arr|] == arr;
    MungeOne(t, z, |arr|);
    MungeNew(arr, z, [z]);
    ConsPair(z, z);
    ConsPair(|arr|, |arr|);
  }

  /** Four lines, each ending with its break. */
  lemma FourLines(w: string, x: string, y: string, z: string)
    requires w != [] && w[|w| - 1] == '\n' && '\n' !in w[..|w| - 1]
    requires x != [] && x[|x| - 1] == '\n' && '\n' !in x[..|x| - 1]
    requires y != [] && y[|y| - 1] == '\n' && '\n' !in y[..|y| - 1]
    requires z != [] && z[|z| - 1] == '\n' && '\n' !in z[..|z| - 1]
    ensures SplitLines(w + (x + (y + z))) == [w, x, y, z]
  {
    var rest := x + (y + z);
    ThreeLines(x, y, z);
    LineThen(w, rest);
    ConsQuad(w, x, y, z);
  }

  /** Lines ending in a carriage return and line feed, two of them bare. */
  lemma CrLfLines()
    ensures SplitLines("alpha\r\nbeta\r\n\r\n\r\n") == ["alpha\r\n", "beta\r\n", "\r\n", "\r\n"]
  {
    CrLfParts();
    FourLines("alpha\r\n", "beta\r\n", "\r\n", "\r\n");
  }

  lemma CrLfParts()
    ensures "alpha\r\n" + ("beta\r\n" + ("\r\n" + "\r\n")) == "alpha\r\nbeta\r\n\r\n\r\n"
    ensures '\n' !in "alpha\r\n"[..|"alpha\r\n"| - 1] && "alpha\r\n"[|"alpha\r\n"| - 1] == '\n'
    ensures '\n' !in "beta\r\n"[..|"beta\r\n"| - 1] && "beta\r\n"[|"beta\r\n"| - 1] == '\n'
    ensures '\n' !in "\r\n"[..|"\r\n"| - 1] && "\r\n"[|"\r\n"| - 1] == '\n'
  {
    assert "alpha\r\n"[..6] == "alpha\r";
    assert "beta\r\n"[..5] == "beta\r";
    assert "\r\n"[..1] == "\r";
  }

  /** An empty text against one whose last two lines are blank. */
  lemma CrLfExample()
    ensures Tokenize("", "alpha\r\nbeta\r\n\r\n\r\n")
         == Tokens([], [1, 2, 3, 3], ["", "alpha\r\n", "beta\r\n", "\r\n"])
  {
    CrLfLines();
    assert "alpha\r\n" != "beta\r\n" by { assert "alpha\r\n"[0] != "beta\r\n"[0]; }
    assert "alpha\r\n" != "\r\n" && "beta\r\n" != "\r\n";
    TokenizeEmptyFirst("alpha\r\nbeta\r\n\r\n\r\n", "alpha\r\n", "beta\r\n", "\r\n");
  }

  /** Texts without line breaks are one line each. */
  lemma SingleLines()
    ensures Tokenize("a", "b") == Tokens([1], [2], ["", "a", "b"])
  {
    OneLine("a");
    OneLine("b");
    MungeCons([""], "a", []);
    MungeCons(["", "a"], "b", []);
    assert [""] + ["a"] == ["", "a"] && ["", "a"] + ["b"] == ["", "a", "b"];
  }

  /** The expansion of three ids is their three lines. */
  lemma ExpandThree(a: nat, b: nat, c: nat, lineArray: seq<string>)
    ensures Expand([a, b, c], lineArray) == LineOf(lineArray, a) + LineOf(lineArray, b) + LineOf(lineArray, c)
  {
    assert [a, b, c][..2] == [a, b] && [a, b][..1] == [a] && [a][..0] == [];
    assert Expand([a], lineArray) == [] + LineOf(lineArray, a);
  }

  /** An id script is expanded operation by operation, each keeping its kind. */
  lemma CharsToLinesExample()
    ensures ExpandDiffs([Diff(Equal, [1, 2, 1]), Diff(Insert, [2, 1, 2])], ["", "alpha\n", "beta\n"])
         == [Diff(Equal, "alpha\nbeta\nalpha\n"), Diff(Insert, "beta\nalpha\nbeta\n")]
  {
    var t := ["", "alpha\n", "beta\n"];
    ExpandThree(1, 2, 1, t);
    ExpandThree(2, 1, 2, t);
    AlphaBetaParts();
    assert "alpha\n" + "beta\n" + "alpha\n" == "alpha\n" + ("beta\n" + "alpha\n");
    assert "beta\n" + "alpha\n" + "beta\n" == "beta\n" + ("alpha\n" + "beta\n");
    var d := [Diff(Equal, [1, 2, 1]), Diff(Insert, [2, 1, 2])];
    assert d[1..] == [Diff(Insert, [2, 1, 2])] && d[1..][1..] == [];
  }
}
