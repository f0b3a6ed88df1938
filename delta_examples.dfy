/** Worked examples of the delta and of its escaping, each a fixed input with
    the output the codec gives for it. */
module DeltaExamples {
  import opened Diffs
  import opened Uri
  import opened Delta

  /** The script of the delta examples: two replacements between equalities,
      then an insertion at the end. */
  function Jumps(): seq<Diff<char>>
  {
    [Diff(Equal, "jump"), Diff(Delete, "s"), Diff(Insert, "ed"), Diff(Equal, " over "),
     Diff(Delete, "the"), Diff(Insert, "a"), Diff(Equal, " lazy"), Diff(Insert, "old dog")]
  }

  /** The delta of a concatenation joins the deltas of the two parts with a tab. */
  lemma {:induction false} ToDeltaAppend(a: seq<Diff<char>>, b: seq<Diff<char>>)
    requires a != [] && b != []
    ensures ToDelta(a + b) == ToDelta(a) + ['\t'] + ToDelta(b)
  {
    TokensAppend(a, b);
    JoinAppend(Tokens(a), Tokens(b), '\t');
  }

  /** The tokens of a concatenation are the tokens of its parts. */
  lemma {:induction false} TokensAppend(a: seq<Diff<char>>, b: seq<Diff<char>>)
    ensures Tokens(a + b) == Tokens(a) + Tokens(b)
    decreases |a|
  {
    if a == [] {
      assert a + b == b;
    } else {
      var ab := a + b;
      assert ab[0] == a[0] && ab[1..] == a[1..] + b;
      TokensAppend(a[1..], b);
      calc {
        Tokens(ab);
        [Token(a[0])] + Tokens(a[1..] + b);
        [Token(a[0])] + (Tokens(a[1..]) + Tokens(b));
        ([Token(a[0])] + Tokens(a[1..])) + Tokens(b);
      }
    }
  }

  /** Joining a concatenation of non-empty piece lists puts one separator
      between the two joins. */
  lemma {:induction false} JoinAppend(ts: seq<string>, us: seq<string>, sep: char)
    requires ts != [] && us != []
    ensures Join(ts + us, sep) == Join(ts, sep) + [sep] + Join(us, sep)
    decreases |ts|
  {
    assert (ts + us)[0] == ts[0] && (ts + us)[1..] == ts[1..] + us;
    if |ts| > 1 {
      JoinAppend(ts[1..], us, sep);
    }
  }

  /** The delta of eight operations, taken two at a time. */
  lemma ToDeltaEight(x1: Diff<char>, x2: Diff<char>, x3: Diff<char>, x4: Diff<char>,
                     x5: Diff<char>, x6: Diff<char>, x7: Diff<char>, x8: Diff<char>)
    ensures ToDelta([x1, x2, x3, x4, x5, x6, x7, x8])
         == ((Token(x1) + ['\t'] + Token(x2)) + ['\t'] + (Token(x3) + ['\t'] + Token(x4))) + ['\t']
          + ((Token(x5) + ['\t'] + Token(x6)) + ['\t'] + (Token(x7) + ['\t'] + Token(x8)))
  {
    var p1, p2, p3, p4 := [x1, x2], [x3, x4], [x5, x6], [x7, x8];
    TokensPair(x1, x2);
    TokensPair(x3, x4);
    TokensPair(x5, x6);
    TokensPair(x7, x8);
    TokensAppend(p1, p2);
    TokensAppend(p3, p4);
    TokensAppend(p1 + p2, p3 + p4);
    assert (p1 + p2) + (p3 + p4) == [x1, x2, x3, x4, x5, x6, x7, x8];
    var t1, t2, t3, t4 := Tokens(p1), Tokens(p2), Tokens(p3), Tokens(p4);
    JoinAppend(t1, t2, '\t');
    JoinAppend(t3, t4, '\t');
    JoinAppend(t1 + t2, t3 + t4, '\t');
  }

  /** The tokens of two operations, and their join. */
  lemma TokensPair(x: Diff<char>, y: Diff<char>)
    ensures Tokens([x, y]) == [Token(x), Token(y)]
    ensures Join(Tokens([x, y]), '\t') == Token(x) + ['\t'] + Token(y)
  {
    assert [x, y][1..] == [y] && [y][1..] == [];
    assert [Token(x), Token(y)][1..] == [Token(y)];
  }

  /** The tokens of the operations written as lengths. */
  lemma JumpsCountTokens()
    ensures Token(Diff(Equal, "jump")) == "=4" && Token(Diff(Delete, "s")) == "-1"
    ensures Token(Diff(Equal, " over ")) == "=6" && Token(Diff(Delete, "the")) == "-3"
    ensures Token(Diff(Equal, " lazy")) == "=5"
  {
  }

  /** The tokens of the insertions, whose texts need no escapes. */
  lemma JumpsInsertTokens()
    ensures Token(Diff(Insert, "ed")) == "+ed" && Token(Diff(Insert, "a")) == "+a"
  {
    EscapePlain("ed");
    EscapePlain("a");
  }

  lemma OldDogToken()
    ensures Token(Diff(Insert, "old dog")) == "+old dog"
  {
    PlainToken("old dog");
  }

  /** Every character of `t` is one the encoder leaves alone, checked from the front. */
  predicate PassesThrough(t: string)
  {
    t == [] || ((Unescaped(t[0]) || t[0] == ' ') && PassesThrough(t[1..]))
  }

  /** An insertion whose text needs no escapes is written as `+` and the text. */
  lemma PlainToken(t: string)
    requires PassesThrough(t)
    ensures Token(Diff(Insert, t)) == "+" + t
  {
    PassThrough(t);
  }

  lemma {:induction false} PassThrough(t: string)
    requires PassesThrough(t)
    ensures Escape(t) == t
  {
    if t != [] {
      PassThrough(t[1..]);
      assert t == [t[0]] + t[1..];
    }
  }

  lemma JumpsDeltaParts()
    ensures (("=4" + ['\t'] + "-1") + ['\t'] + ("+ed" + ['\t'] + "=6")) == "=4\t-1\t+ed\t=6"
    ensures (("-3" + ['\t'] + "+a") + ['\t'] + ("=5" + ['\t'] + "+old dog")) == "-3\t+a\t=5\t+old dog"
    ensures "=4\t-1\t+ed\t=6" + ['\t'] + "-3\t+a\t=5\t+old dog" == "=4\t-1\t+ed\t=6\t-3\t+a\t=5\t+old dog"
  {
  }

  /** Equal and Delete operations are written as lengths, an Insert as its
      escaped text, one token per operation, joined by tabs. */
  lemma JumpsDelta()
    ensures ToDelta(Jumps()) == "=4\t-1\t+ed\t=6\t-3\t+a\t=5\t+old dog"
  {
    ToDeltaEight(Diff(Equal, "jump"), Diff(Delete, "s"), Diff(Insert, "ed"), Diff(Equal, " over "),
                 Diff(Delete, "the"), Diff(Insert, "a"), Diff(Equal, " lazy"), Diff(Insert, "old dog"));
    JumpsCountTokens();
    JumpsInsertTokens();
    OldDogToken();
    JumpsDeltaParts();
  }

  /** The before-text of the script: the trailing insertion adds nothing to it. */
  lemma JumpsText1()
    ensures Text1(Jumps()) == "jumps over the lazy"
  {
    TextsOfTwoEditsThenInsert("jump", "s", "ed", " over ", "the", "a", " lazy", "old dog");
    TextExampleParts();
  }

  /** The before-text of two replacements between equalities, followed by an
      insertion. */
  lemma TextsOfTwoEditsThenInsert(e1: string, d1: string, i1: string, e2: string, d2: string, i2: string,
                                  e3: string, i3: string)
    ensures Text1([Diff(Equal, e1), Diff(Delete, d1), Diff(Insert, i1), Diff(Equal, e2),
                   Diff(Delete, d2), Diff(Insert, i2), Diff(Equal, e3), Diff(Insert, i3)])
         == (e1 + d1) + (e2 + d2) + e3
  {
    var front := [Diff(Equal, e1), Diff(Delete, d1), Diff(Insert, i1), Diff(Equal, e2),
                  Diff(Delete, d2), Diff(Insert, i2), Diff(Equal, e3)];
    var last := Diff(Insert, i3);
    TextsOfTwoEdits(e1, d1, i1, e2, d2, i2, e3);
    TextsAppend(front, [last]);
    TextsSingle(last);
    assert Text1(front) + [] == Text1(front);
    assert front + [last] == [Diff(Equal, e1), Diff(Delete, d1), Diff(Insert, i1), Diff(Equal, e2),
                              Diff(Delete, d2), Diff(Insert, i2), Diff(Equal, e3), Diff(Insert, i3)];
  }

  /** The delta read against the before-text gives the script back. */
  lemma JumpsFromDelta()
    ensures FromDelta("jumps over the lazy", "=4\t-1\t+ed\t=6\t-3\t+a\t=5\t+old dog") == Success(Jumps())
  {
    JumpsText1();
    JumpsDelta();
    DeltaRoundTrip(Jumps());
  }

  /** Against a text one character longer (20) or shorter (18) than the
      before-text (19) the same delta reports both lengths. */
  lemma JumpsLengthMismatch()
    ensures FromDelta("jumps over the lazyx", "=4\t-1\t+ed\t=6\t-3\t+a\t=5\t+old dog")
         == Failure(LengthMismatch(19, 20))
    ensures FromDelta("umps over the lazy", "=4\t-1\t+ed\t=6\t-3\t+a\t=5\t+old dog")
         == Failure(LengthMismatch(19, 18))
  {
    JumpsText1();
    JumpsDelta();
    DeltaLength("jumps over the lazyx", Jumps());
    DeltaLength("umps over the lazy", Jumps());
  }

  /** An escape announcing a two-byte character followed by a malformed escape
      is rejected; lowercase hex is accepted up to that point. */
  lemma IllegalEscapeExample()
    ensures FromDelta("", "+%c3%xy") == Failure(IllegalEscape("%c3%xy"))
  {
    OneTokenDelta("", "+%c3%xy");
    IllegalEscapeParse();
  }

  /** A delta without a tab is one token. */
  lemma OneTokenDelta(text1: string, tok: string)
    requires '\t' !in tok
    ensures FromDelta(text1, tok) == ParseTokens(text1, [tok], 0)
  {
    SplitNoSep(tok, [], '\t');
    assert tok + [] == tok;
  }

  lemma IllegalEscapeParse()
    ensures ParseTokens("", ["+%c3%xy"], 0) == Failure(IllegalEscape("%c3%xy"))
  {
    IllegalEscapeRead();
  }

  lemma IllegalEscapeRead()
    ensures ReadToken("", "+%c3%xy", 0) == Bad(IllegalEscape("%c3%xy"))
  {
    assert "+%c3%xy"[1..] == "%c3%xy";
    IllegalEscapeDecode();
    assert Unescape("%c3%xy") == None;
  }

  /** The lead byte C3 announces one continuation escape, and "%xy" is none. */
  lemma IllegalEscapeDecode()
    ensures DecodeEscape("%c3%xy") == None
  {
    var param := "%c3%xy";
    assert ByteAt(param, 0) == Some(0xC3);
    assert ByteAt(param, 3) == None;
  }

  /** Characters outside the pass-through set are written as the uppercase hex
      of their UTF-8 bytes. */
  lemma EscapeMultiByteExample()
    ensures EscapeChar('\U{0682}') == "%DA%82"
  {
    assert Utf8('\U{0682}') == [0xDA, 0x82];
    assert PercentBytes([0xDA, 0x82]) == Percent(0xDA) + PercentBytes([0x82]);
    assert [0xDA, 0x82][1..] == [0x82];
  }

  lemma EscapeControlExample()
    ensures EscapeChar('\U{2}') == "%02"
  {
  }

  /** Backslash and bar are escaped, a space is kept, and a
      percent sign is escaped so that it can never be read as an escape. */
  lemma EscapeAsciiExample()
    ensures EscapeChar('\\') == "%5C" && EscapeChar('|') == "%7C"
  {
  }

  lemma EscapeSpacePercentExample()
    ensures EscapeChar(' ') == " " && EscapeChar('%') == "%25"
  {
  }

  /** The script of the special-characters example: an equality and a deletion of
      seven characters each, then an insertion. */
  function Specials(): seq<Diff<char>>
  {
    [Diff(Equal, "\U{0680} \U{0} \t %"), Diff(Delete, "\U{0681} \U{1} \n ^"), Diff(Insert, "\U{0682} \U{2} \\ |")]
  }

  /** Four characters separated by single spaces escape one by one, the spaces
      kept. */
  lemma EscapeSpaced(a: char, b: char, c: char, d: char)
    ensures Escape([a, ' ', b, ' ', c, ' ', d])
         == EscapeChar(a) + (" " + (EscapeChar(b) + (" " + (EscapeChar(c) + (" " + EscapeChar(d))))))
  {
    var t3: string := [d];
    EscapeCons(d, []);
    assert [d] + [] == t3 && EscapeChar(d) + [] == EscapeChar(d);
    var t2 := [c, ' '] + t3;
    EscapeSpacedStep(c, t3);
    var t1 := [b, ' '] + t2;
    EscapeSpacedStep(b, t2);
    EscapeSpacedStep(a, t1);
    assert [a, ' '] + t1 == [a, ' ', b, ' ', c, ' ', d];
  }

  /** A character and a space in front of a text escape in front of its escape. */
  lemma EscapeSpacedStep(c: char, t: string)
    ensures Escape([c, ' '] + t) == EscapeChar(c) + (" " + Escape(t))
  {
    EscapeCons(' ', t);
    EscapeCons(c, [' '] + t);
    assert [c] + ([' '] + t) == [c, ' '] + t;
    assert EscapeChar(' ') == " ";
  }

  lemma EscapeCons(c: char, t: string)
    ensures Escape([c] + t) == EscapeChar(c) + Escape(t)
  {
    assert ([c] + t)[1..] == t;
  }

  lemma SpecialsInsertParts()
    ensures "\U{0682} \U{2} \\ |" == ['\U{0682}', ' ', '\U{2}', ' ', '\\', ' ', '|']
    ensures "%DA%82" + (" " + ("%02" + (" " + ("%5C" + (" " + "%7C"))))) == "%DA%82 %02 %5C %7C"
  {
  }

  /** Outside the pass-through set, each character is the uppercase hex of its
      UTF-8 bytes; the spaces between them are kept. */
  lemma SpecialsEscape()
    ensures Escape("\U{0682} \U{2} \\ |") == "%DA%82 %02 %5C %7C"
  {
    SpecialsInsertParts();
    EscapeSpaced('\U{0682}', '\U{2}', '\\', '|');
    EscapeMultiByteExample();
    EscapeControlExample();
    EscapeAsciiExample();
  }

  lemma ToDeltaThree(x1: Diff<char>, x2: Diff<char>, x3: Diff<char>)
    ensures ToDelta([x1, x2, x3]) == Token(x1) + ['\t'] + (Token(x2) + ['\t'] + Token(x3))
  {
    ToDeltaAppend([x2], [x3]);
    ToDeltaAppend([x1], [x2, x3]);
    assert [x2] + [x3] == [x2, x3] && [x1] + [x2, x3] == [x1, x2, x3];
  }

  lemma SpecialsDeltaParts()
    ensures "=7" + ['\t'] + ("-7" + ['\t'] + ("+" + "%DA%82 %02 %5C %7C")) == "=7\t-7\t+%DA%82 %02 %5C %7C"
    ensures |"\U{0680} \U{0} \t %"| == 7 && |"\U{0681} \U{1} \n ^"| == 7
  {
  }

  /** Lengths are counted in characters, whatever the characters are; only the
      inserted text is escaped. */
  lemma SpecialsDelta()
    ensures ToDelta(Specials()) == "=7\t-7\t+%DA%82 %02 %5C %7C"
  {
    ToDeltaThree(Diff(Equal, "\U{0680} \U{0} \t %"), Diff(Delete, "\U{0681} \U{1} \n ^"),
                 Diff(Insert, "\U{0682} \U{2} \\ |"));
    SpecialsTokens();
    SpecialsDeltaParts();
  }

  lemma SpecialsTokens()
    ensures Token(Diff(Equal, "\U{0680} \U{0} \t %")) == "=7"
    ensures Token(Diff(Delete, "\U{0681} \U{1} \n ^")) == "-7"
    ensures Token(Diff(Insert, "\U{0682} \U{2} \\ |")) == "+" + "%DA%82 %02 %5C %7C"
  {
    SpecialsDeltaParts();
    SpecialsEscape();
  }

  lemma SpecialsText1()
    ensures Text1(Specials()) == "\U{0680} \U{0} \t %\U{0681} \U{1} \n ^"
  {
    TextsOfEdit("\U{0680} \U{0} \t %", "\U{0681} \U{1} \n ^", "\U{0682} \U{2} \\ |");
  }

  /** The delta read against the before-text gives the script back. */
  lemma SpecialsFromDelta()
    ensures FromDelta("\U{0680} \U{0} \t %\U{0681} \U{1} \n ^", "=7\t-7\t+%DA%82 %02 %5C %7C")
         == Success(Specials())
  {
    SpecialsText1();
    SpecialsDelta();
    DeltaRoundTrip(Specials());
  }

  /** Every character the encoder passes through, with spaces between them,
      written in pieces of eight characters. */
  function Pool(): string
  {
    "A-Z a-z " + "0-9 - _ " + ". ! ~ * " + "' ( ) ; " + "/ ? : @ " + "& = + $ " + ", # "
  }

  lemma PoolPlain()
    ensures forall i :: 0 <= i < |Pool()| ==> Unescaped(Pool()[i]) || Pool()[i] == ' '
  {
    PlainChunks1();
    PlainChunks2();
    PlainChunks3();
    var p := "A-Z a-z ";
    PlainAppend(p, "0-9 - _ ");
    p := p + "0-9 - _ ";
    PlainAppend(p, ". ! ~ * ");
    p := p + ". ! ~ * ";
    PlainAppend(p, "' ( ) ; ");
    p := p + "' ( ) ; ";
    PlainAppend(p, "/ ? : @ ");
    p := p + "/ ? : @ ";
    PlainAppend(p, "& = + $ ");
    p := p + "& = + $ ";
    PlainAppend(p, ", # ");
    p := p + ", # ";
    PlainAll(p);
  }

  lemma PlainChunks1()
    ensures Plain("A-Z a-z ") && Plain("0-9 - _ ")
  {
    PlainEight('A', '-', 'Z', ' ', 'a', '-', 'z', ' ');
    PlainEight('0', '-', '9', ' ', '-', ' ', '_', ' ');
  }

  lemma PlainChunks2()
    ensures Plain(". ! ~ * ") && Plain("' ( ) ; ")
  {
    PlainEight('.', ' ', '!', ' ', '~', ' ', '*', ' ');
    PlainEight('\'', ' ', '(', ' ', ')', ' ', ';', ' ');
  }

  lemma PlainChunks3()
    ensures Plain("/ ? : @ ") && Plain("& = + $ ") && Plain(", # ")
  {
    PlainEight('/', ' ', '?', ' ', ':', ' ', '@', ' ');
    PlainEight('&', ' ', '=', ' ', '+', ' ', '$', ' ');
    PlainCons(',', " # ");
    PlainCons(' ', "# ");
    PlainCons('#', " ");
    PlainCons(' ', "");
  }

  /** Eight characters each passed through or a space. */
  lemma PlainEight(a: char, b: char, c: char, d: char, e: char, f: char, g: char, h: char)
    requires Unescaped(a) || a == ' '
    requires Unescaped(b) || b == ' '
    requires Unescaped(c) || c == ' '
    requires Unescaped(d) || d == ' '
    requires Unescaped(e) || e == ' '
    requires Unescaped(f) || f == ' '
    requires Unescaped(g) || g == ' '
    requires Unescaped(h) || h == ' '
    ensures Plain([a, b, c, d, e, f, g, h])
  {
    var t: string := [];
    PlainCons(h, t);
    t := [h] + t;
    PlainCons(g, t);
    t := [g] + t;
    PlainCons(f, t);
    t := [f] + t;
    PlainCons(e, t);
    t := [e] + t;
    PlainCons(d, t);
    t := [d] + t;
    PlainCons(c, t);
    t := [c] + t;
    PlainCons(b, t);
    t := [b] + t;
    PlainCons(a, t);
    assert [a] + t == [a, b, c, d, e, f, g, h];
  }

  lemma PlainCons(c: char, s: string)
    ensures Plain([c] + s) <==> (Unescaped(c) || c == ' ') && Plain(s)
  {
    assert ([c] + s)[1..] == s;
  }

  lemma {:induction false} PlainAppend(a: string, b: string)
    requires Plain(a) && Plain(b)
    ensures Plain(a + b)
  {
    if a != [] {
      assert (a + b)[1..] == a[1..] + b;
      PlainAppend(a[1..], b);
    } else {
      assert a + b == b;
    }
  }

  /** Every character of `s` is passed through or is a space. */
  predicate Plain(s: string)
  {
    s == [] || ((Unescaped(s[0]) || s[0] == ' ') && Plain(s[1..]))
  }

  lemma {:induction false} PlainAll(s: string)
    requires Plain(s)
    ensures forall i :: 0 <= i < |s| ==> Unescaped(s[i]) || s[i] == ' '
  {
    if s != [] {
      PlainAll(s[1..]);
      assert forall i :: 1 <= i < |s| ==> s[i] == s[1..][i - 1];
    }
  }

  /** Text made only of pass-through characters and spaces is written as it is. */
  lemma PoolDelta()
    ensures ToDelta([Diff(Insert, Pool())]) == "+" + Pool()
  {
    PoolPlain();
    EscapePlain(Pool());
    ToDeltaSingle(Diff(Insert, Pool()));
  }

  /** The delta read against the empty before-text gives the script back. */
  lemma PoolFromDelta()
    ensures FromDelta("", "+" + Pool()) == Success([Diff(Insert, Pool())])
  {
    PoolDelta();
    TextsSingle(Diff(Insert, Pool()));
    DeltaRoundTrip([Diff(Insert, Pool())]);
  }

  /** `s` doubled `n` times over: `s + s`, then that twice, and so on. */
  function Doubled(s: string, n: nat): (r: string)
    ensures |r| == |s| * Pow2(n)
  {
    if n == 0 then s else Doubled(s, n - 1) + Doubled(s, n - 1)
  }

  function Pow2(n: nat): nat
  {
    if n == 0 then 1 else 2 * Pow2(n - 1)
  }

  lemma {:induction false} DoubledPlain(s: string, n: nat)
    requires Plain(s)
    ensures Plain(Doubled(s, n))
  {
    if n > 0 {
      DoubledPlain(s, n - 1);
      PlainAppend(Doubled(s, n - 1), Doubled(s, n - 1));
    }
  }

  /** Ten letters doubled fourteen times: 163840 characters, none escaped, so
      the delta is the text behind a plus sign and reads back as the script. */
  lemma LongInsertDelta()
    ensures |Doubled("abcdefghij", 14)| == 163840
    ensures ToDelta([Diff(Insert, Doubled("abcdefghij", 14))]) == "+" + Doubled("abcdefghij", 14)
    ensures FromDelta("", "+" + Doubled("abcdefghij", 14)) == Success([Diff(Insert, Doubled("abcdefghij", 14))])
  {
    var a := Doubled("abcdefghij", 14);
    PlainLetters();
    DoubledPlain("abcdefghij", 14);
    PlainAll(a);
    EscapePlain(a);
    ToDeltaSingle(Diff(Insert, a));
    TextsSingle(Diff(Insert, a));
    DeltaRoundTrip([Diff(Insert, a)]);
    assert Pow2(14) == 16384;
  }

  lemma PlainLetters()
    ensures Plain("abcdefghij")
  {
    PlainEight('c', 'd', 'e', 'f', 'g', 'h', 'i', 'j');
    PlainCons('b', "cdefghij");
    PlainCons('a', "bcdefghij");
  }
}
