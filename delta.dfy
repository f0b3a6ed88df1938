/** The delta: a compact serialization of an edit script relative to its
    before-text. Equal and Delete operations are written as their lengths,
    Insert operations as their escaped text, one token per operation, joined by
    tabs. */
module Delta {
  import opened Diffs
  import opened Uri

  /** Why a delta could not be applied to a before-text. */
  datatype DeltaError =
    | InvalidNumber(param: string)
    | IllegalEscape(param: string)
    | InvalidOperation(token: string)
    | LengthMismatch(consumed: nat, expected: nat)

  datatype Result<T> = Success(value: T) | Failure(error: DeltaError)

  /** Splits at every `sep`; there is always at least one piece. */
  function Split(s: string, sep: char): (r: seq<string>)
    ensures |r| >= 1
  {
    if s == [] then [[]]
    else
      var t := Split(s[1..], sep);
      if s[0] == sep then [[]] + t else [[s[0]] + t[0]] + t[1..]
  }

  /** Joins the pieces with `sep` between neighbours. */
  function Join(ts: seq<string>, sep: char): string
  {
    if ts == [] then []
    else if |ts| == 1 then ts[0]
    else ts[0] + [sep] + Join(ts[1..], sep)
  }

  predicate IsDigit(c: char)
  {
    '0' <= c <= '9'
  }

  function DigitChar(v: nat): char
    requires v < 10
  {
    ('0' as int + v) as char
  }

  /** The decimal numeral of `n`, without leading zeros. */
  function NatToString(n: nat): (r: string)
    ensures |r| > 0
  {
    if n < 10 then [DigitChar(n)] else NatToString(n / 10) + [DigitChar(n % 10)]
  }

  /** The number of leading digits of `s`. */
  function DigitRun(s: string): (k: nat)
    ensures k <= |s|
  {
    if s == [] || !IsDigit(s[0]) then 0 else 1 + DigitRun(s[1..])
  }

  /** The value of a string of digits. */
  function DigitsValue(s: string): nat
  {
    if s == [] then 0
    else DigitsValue(s[..|s| - 1]) * 10 + DigitValue(s[|s| - 1])
  }

  function DigitValue(c: char): nat
  {
    if IsDigit(c) then c as int - '0' as int else 0
  }

  /** A count as the decimal parser reads it: an optional sign, then the
      leading digits, anything after them ignored; no digits, or a negative
      value, is not a count. */
  function ParseCount(p: string): (r: Option<nat>)
    ensures r.Some? ==> p != [] && (IsDigit(p[0]) || (|p| > 1 && (p[0] == '+' || p[0] == '-') && IsDigit(p[1])))
    ensures r.Some? && p[0] == '-' ==> r.value == 0
  {
    var neg := p != [] && p[0] == '-';
    var body := if p != [] && (p[0] == '-' || p[0] == '+') then p[1..] else p;
    var k := DigitRun(body);
    if k == 0 then None
    else
      var v := DigitsValue(body[..k]);
      if neg && v > 0 then None else Some(v)
  }

  /** The characters of `s` from `start` to `end`, both cut back to the end of `s`. */
  function Substring(s: string, start: nat, end: nat): (r: string)
    requires start <= end
    ensures |r| <= end - start
  {
    var a := if start < |s| then start else |s|;
    var b := if end < |s| then end else |s|;
    s[a..b]
  }

  /** The token of one operation. */
  function Token(x: Diff<char>): string
  {
    match x.op
    case Equal => "=" + NatToString(|x.text|)
    case Delete => "-" + NatToString(|x.text|)
    case Insert => "+" + Escape(x.text)
  }

  function Tokens(d: seq<Diff<char>>): (r: seq<string>)
    ensures |r| == |d|
  {
    if d == [] then [] else [Token(d[0])] + Tokens(d[1..])
  }

  /** Serializes a script. No token holds a tab, so the delta splits at its
      tabs back into the tokens. */
  function ToDelta(d: seq<Diff<char>>): (r: string)
    ensures Split(r, '\t') == if d == [] then [[]] else Tokens(d)
  {
    var ts := Tokens(d);
    if d == [] then Join(ts, '\t')
    else
      TokensNoTab(d);
      SplitJoin(ts, '\t');
      Join(ts, '\t')
  }

  /** Adds an operation in front of a parsed script, or passes a failure on. */
  function Prepend(x: Diff<char>, r: Result<seq<Diff<char>>>): Result<seq<Diff<char>>>
  {
    match r
    case Success(d) => Success([x] + d)
    case Failure(e) => Failure(e)
  }

  /** What one token gives: nothing (an empty token), an error, or an
      operation together with the number of before-text characters it takes. */
  datatype Read = Skip | Bad(error: DeltaError) | Took(x: Diff<char>, n: nat)

  /** Reads one token against the before-text, `pointer` characters of which
      the earlier tokens took. An Insert takes nothing; an Equal or a Delete
      carries the before-text it takes, cut back at the end of the text. */
  function ReadToken(text1: string, tok: string, pointer: nat): (r: Read)
    ensures r.Took? && r.x.op == Insert ==> r.n == 0
    ensures r.Took? && r.x.op != Insert ==> r.x.text == Substring(text1, pointer, pointer + r.n)
  {
    if tok == [] then Skip
    else
      var param := tok[1..];
      if tok[0] == '+' then
        match Unescape(param)
        case None => Bad(IllegalEscape(param))
        case Some(t) => Took(Diff(Insert, t), 0)
      else if tok[0] == '=' || tok[0] == '-' then
        match ParseCount(param)
        case None => Bad(InvalidNumber(param))
        case Some(n) =>
          var op := if tok[0] == '=' then Equal else Delete;
          Took(Diff(op, Substring(text1, pointer, pointer + n)), n)
      else Bad(InvalidOperation(tok))
  }

  /** Reads the tokens in order; the pointer must end at the end of the
      before-text. */
  function ParseTokens(text1: string, tokens: seq<string>, pointer: nat): Result<seq<Diff<char>>>
    decreases |tokens|
  {
    if tokens == [] then
      if pointer == |text1| then Success([]) else Failure(LengthMismatch(pointer, |text1|))
    else
      match ReadToken(text1, tokens[0], pointer)
      case Skip => ParseTokens(text1, tokens[1..], pointer)
      case Bad(e) => Failure(e)
      case Took(x, n) => Prepend(x, ParseTokens(text1, tokens[1..], pointer + n))
  }

  /** Rebuilds a script from its before-text and its delta. */
  function FromDelta(text1: string, delta: string): (r: Result<seq<Diff<char>>>)
    ensures r.Success? ==> Text1(r.value) == text1
  {
    var tokens := Split(delta, '\t');
    var parsed := ParseTokens(text1, tokens, 0);
    if parsed.Success? then ParseTokensText1(text1, tokens, 0); parsed else parsed
  }

  // Splitting and joining

  lemma {:induction false} SplitNoSep(a: string, rest: string, sep: char)
    requires sep !in a
    ensures Split(a + rest, sep) == [a + Split(rest, sep)[0]] + Split(rest, sep)[1..]
  {
    if a != [] {
      SplitNoSep(a[1..], rest, sep);
      assert (a + rest)[1..] == a[1..] + rest;
      assert [a[0]] + (a[1..] + Split(rest, sep)[0]) == a + Split(rest, sep)[0];
    } else {
      assert a + rest == rest;
      assert a + Split(rest, sep)[0] == Split(rest, sep)[0];
      assert [Split(rest, sep)[0]] + Split(rest, sep)[1..] == Split(rest, sep);
    }
  }

  /** Splitting undoes joining when no piece holds the separator. */
  lemma {:induction false} SplitJoin(ts: seq<string>, sep: char)
    requires ts != []
    requires forall i :: 0 <= i < |ts| ==> sep !in ts[i]
    ensures Split(Join(ts, sep), sep) == ts
  {
    if |ts| == 1 {
      SplitNoSep(ts[0], [], sep);
      assert ts[0] + [] == ts[0];
    } else {
      var rest := Join(ts[1..], sep);
      SplitJoin(ts[1..], sep);
      assert ts[0] + [sep] + rest == ts[0] + ([sep] + rest);
      SplitNoSep(ts[0], [sep] + rest, sep);
      assert ([sep] + rest)[1..] == rest;
      assert ts[0] + [] == ts[0];
      assert ts == [ts[0]] + ts[1..];
    }
  }

  /** Joining undoes splitting. */
  lemma {:induction false} JoinSplit(s: string, sep: char)
    ensures Join(Split(s, sep), sep) == s
  {
    if s != [] {
      var t := Split(s[1..], sep);
      JoinSplit(s[1..], sep);
      if s[0] == sep {
        assert s == [sep] + s[1..];
      } else {
        var r := [[s[0]] + t[0]] + t[1..];
        assert r[1..] == t[1..];
        if |t| == 1 {
          assert s == [s[0]] + t[0];
        } else {
          assert Join(t, sep) == t[0] + [sep] + Join(t[1..], sep);
          assert s == [s[0]] + s[1..];
        }
      }
    }
  }

  // Numbers

  lemma {:induction false} DigitsOfNat(n: nat)
    ensures DigitsValue(NatToString(n)) == n
  {
    var s := NatToString(n);
    if n >= 10 {
      DigitsOfNat(n / 10);
      assert s[..|s| - 1] == NatToString(n / 10);
    }
  }

  lemma {:induction false} NatToStringDigits(n: nat)
    ensures DigitRun(NatToString(n)) == |NatToString(n)|
    ensures '\t' !in NatToString(n)
  {
    var s := NatToString(n);
    if n >= 10 {
      NatToStringDigits(n / 10);
      DigitRunAppend(NatToString(n / 10), [DigitChar(n % 10)]);
    }
  }

  lemma {:induction false} DigitRunAppend(a: string, b: string)
    requires DigitRun(a) == |a|
    ensures DigitRun(a + b) == |a| + DigitRun(b)
  {
    if a != [] {
      assert (a + b)[1..] == a[1..] + b;
      DigitRunAppend(a[1..], b);
    } else {
      assert a + b == b;
    }
  }

  /** A numeral reads back as its number. */
  lemma ParseCountOfNat(n: nat)
    ensures ParseCount(NatToString(n)) == Some(n)
  {
    var s := NatToString(n);
    NatToStringDigits(n);
    assert s[..|s|] == s;
    DigitsOfNat(n);
  }

  // The codec

  lemma {:induction false} TokensNoTab(d: seq<Diff<char>>)
    ensures forall i :: 0 <= i < |Tokens(d)| ==> '\t' !in Tokens(d)[i]
  {
    if d != [] {
      TokensNoTab(d[1..]);
      var tok := Token(d[0]);
      match d[0].op
      case Insert => EscapeNoTab(d[0].text);
      case Equal => NatToStringDigits(|d[0].text|);
      case Delete => NatToStringDigits(|d[0].text|);
      assert forall i :: 1 <= i < |Tokens(d)| ==> Tokens(d)[i] == Tokens(d[1..])[i - 1];
    }
  }

  /** Splitting a delta gives its tokens back (an empty script gives one empty
      token, which the parser skips). */
  lemma SplitToDelta(d: seq<Diff<char>>)
    ensures Split(ToDelta(d), '\t') == if d == [] then [[]] else Tokens(d)
  {
    if d != [] {
      TokensNoTab(d);
      SplitJoin(Tokens(d), '\t');
    }
  }

  /** The length of the before-text an operation takes. */
  function Consumed(x: Diff<char>): nat
  {
    if x.op != Insert then |x.text| else 0
  }

  /** The parser reads `tok` as an operation of the kind of `x`: an Insert of
      `x`'s text, or an Equal or a Delete of `x`'s length. */
  predicate Reads(tok: string, x: Diff<char>)
  {
    tok != [] &&
    match x.op
    case Insert => tok[0] == '+' && Unescape(tok[1..]) == Some(x.text)
    case Equal => tok[0] == '=' && ParseCount(tok[1..]) == Some(|x.text|)
    case Delete => tok[0] == '-' && ParseCount(tok[1..]) == Some(|x.text|)
  }

  /** Each token reads as the matching operation of `d`. */
  predicate ReadsAll(ts: seq<string>, d: seq<Diff<char>>)
    decreases |d|
  {
    |ts| == |d| && (d != [] ==> Reads(ts[0], d[0]) && ReadsAll(ts[1..], d[1..]))
  }

  /** The token of every operation reads back as that operation. */
  lemma TokenReads(x: Diff<char>)
    ensures Reads(Token(x), x)
  {
    var tok := Token(x);
    if x.op == Insert {
      assert tok[1..] == Escape(x.text);
      UnescapeEscape(x.text);
    } else {
      assert tok[1..] == NatToString(|x.text|);
      ParseCountOfNat(|x.text|);
    }
  }

  lemma {:induction false} TokensRead(d: seq<Diff<char>>)
    ensures ReadsAll(Tokens(d), d)
  {
    if d != [] {
      TokensRead(d[1..]);
      TokenReads(d[0]);
      assert Tokens(d)[1..] == Tokens(d[1..]);
    }
  }

  /** The first token read: the operation it gives, with the text of an Equal
      or a Delete taken from the before-text at the pointer. */
  function ReadAt(text1: string, x: Diff<char>, pointer: nat): Diff<char>
  {
    if x.op == Insert then x else Diff(x.op, Substring(text1, pointer, pointer + |x.text|))
  }

  lemma ReadStep(text1: string, ts: seq<string>, d: seq<Diff<char>>, pointer: nat)
    requires d != [] && ReadsAll(ts, d)
    ensures ParseTokens(text1, ts, pointer)
      == Prepend(ReadAt(text1, d[0], pointer), ParseTokens(text1, ts[1..], pointer + Consumed(d[0])))
  {
    assert Reads(ts[0], d[0]);
  }

  lemma ConsumedText1(d: seq<Diff<char>>)
    requires d != []
    ensures |Text1(d)| == Consumed(d[0]) + |Text1(d[1..])|
  {
  }

  /** A parse outcome that fails with a length mismatch exactly when the
      characters consumed are not the characters expected. */
  predicate LengthOutcome(r: Result<seq<Diff<char>>>, consumed: nat, expected: nat)
  {
    if consumed == expected then r.Success? else r == Failure(LengthMismatch(consumed, expected))
  }

  lemma OutcomePrepend(r: Result<seq<Diff<char>>>, y: Diff<char>, rest: Result<seq<Diff<char>>>,
                       consumed: nat, consumed': nat, expected: nat)
    requires r == Prepend(y, rest) && consumed == consumed'
    requires LengthOutcome(rest, consumed', expected)
    ensures LengthOutcome(r, consumed, expected)
  {
  }

  /** Tokens that read as the operations of a script are taken without
      complaint; the parse ends in a length mismatch exactly when the lengths
      they consume do not add up to the before-text. */
  lemma {:induction false} ParseTokensLength(text1: string, ts: seq<string>, d: seq<Diff<char>>, pointer: nat)
    requires ReadsAll(ts, d)
    ensures LengthOutcome(ParseTokens(text1, ts, pointer), pointer + |Text1(d)|, |text1|)
  {
    if d != [] {
      var p' := pointer + Consumed(d[0]);
      var consumed, consumed' := pointer + |Text1(d)|, p' + |Text1(d[1..])|;
      ConsumedText1(d);
      assert consumed == consumed';
      ReadsTail(ts, d);
      ParseTokensLength(text1, ts[1..], d[1..], p');
      ReadStep(text1, ts, d, pointer);
      OutcomePrepend(ParseTokens(text1, ts, pointer), ReadAt(text1, d[0], pointer),
        ParseTokens(text1, ts[1..], p'), consumed, consumed', |text1|);
    } else {
      assert ts == [] && Text1(d) == [];
    }
  }

  lemma ReadsTail(ts: seq<string>, d: seq<Diff<char>>)
    requires d != [] && ReadsAll(ts, d)
    ensures ReadsAll(ts[1..], d[1..])
  {
  }

  /** Tokens that read as the operations of a script, parsed against the
      script's own before-text, give the script back. */
  lemma {:induction false} ParseTokensOf(text1: string, ts: seq<string>, d: seq<Diff<char>>, pointer: nat)
    requires ReadsAll(ts, d)
    requires pointer <= |text1| && text1[pointer..] == Text1(d)
    ensures ParseTokens(text1, ts, pointer) == Success(d)
  {
    if d != [] {
      var p' := pointer + Consumed(d[0]);
      assert d == [d[0]] + d[1..];
      ConsumeFirst(text1, d, pointer);
      ReadsTail(ts, d);
      ParseTokensOf(text1, ts[1..], d[1..], p');
      ReadStep(text1, ts, d, pointer);
    } else {
      assert ts == [] && |text1[pointer..]| == 0;
    }
  }

  /** Reading the first operation of a script at the start of its before-text
      gives that operation and leaves the before-text of the rest. */
  lemma ConsumeFirst(text1: string, d: seq<Diff<char>>, pointer: nat)
    requires d != [] && pointer <= |text1| && text1[pointer..] == Text1(d)
    ensures ReadAt(text1, d[0], pointer) == d[0]
    ensures pointer + Consumed(d[0]) <= |text1| && text1[pointer + Consumed(d[0])..] == Text1(d[1..])
  {
    var x := d[0];
    var here := if x.op != Insert then x.text else [];
    assert Text1(d) == here + Text1(d[1..]);
    ConsumeText(text1, pointer, here, Text1(d[1..]));
  }

  lemma ConsumeText(text1: string, pointer: nat, t: string, rest: string)
    requires pointer <= |text1| && text1[pointer..] == t + rest
    ensures Substring(text1, pointer, pointer + |t|) == t
    ensures pointer + |t| <= |text1| && text1[pointer + |t|..] == rest
  {
    assert text1[pointer..][..|t|] == t;
    assert text1[pointer..][|t|..] == rest;
  }

  /** The before-text of a parsed script is the text the delta was applied to. */
  lemma {:induction false} ParseTokensText1(text1: string, tokens: seq<string>, pointer: nat)
    requires ParseTokens(text1, tokens, pointer).Success?
    ensures pointer <= |text1|
    ensures Text1(ParseTokens(text1, tokens, pointer).value) == text1[pointer..]
    decreases |tokens|
  {
    if tokens == [] {
      assert text1[pointer..] == [];
    } else {
      match ReadToken(text1, tokens[0], pointer)
      case Skip =>
        ParseTokensText1(text1, tokens[1..], pointer);
      case Bad(_) =>
      case Took(x, n) =>
        var p' := pointer + n;
        ParseTokensText1(text1, tokens[1..], p');
        var rest := ParseTokens(text1, tokens[1..], p').value;
        assert ParseTokens(text1, tokens, pointer).value == [x] + rest;
        TextsAppend([x], rest);
        TextsSingle(x);
        SubstringSplit(text1, pointer, p');
    }
  }

  lemma SubstringSplit(s: string, i: nat, j: nat)
    requires i <= j <= |s|
    ensures s[i..] == Substring(s, i, j) + s[j..]
  {
    assert s[i..] == s[i..j] + s[j..];
  }

  /** The delta of a script, read against the script's before-text, gives the
      script back. */
  lemma DeltaRoundTrip(d: seq<Diff<char>>)
    ensures FromDelta(Text1(d), ToDelta(d)) == Success(d)
  {
    SplitToDelta(d);
    TokensRead(d);
    assert Text1(d)[0..] == Text1(d);
    if d == [] {
      assert Split(ToDelta(d), '\t')[1..] == [];
    } else {
      ParseTokensOf(Text1(d), Tokens(d), d, 0);
    }
  }

  /** Reading the delta of a script against some text succeeds exactly when the
      text is as long as the script's before-text, and otherwise reports both
      lengths. */
  lemma DeltaLength(text1: string, d: seq<Diff<char>>)
    ensures FromDelta(text1, ToDelta(d)).Success? <==> |text1| == |Text1(d)|
    ensures |text1| != |Text1(d)| ==>
      FromDelta(text1, ToDelta(d)) == Failure(LengthMismatch(|Text1(d)|, |text1|))
  {
    if d == [] {
      assert ToDelta(d) == [];
      var ts := Split([], '\t');
      assert ts[1..] == [];
      assert ParseTokens(text1, ts, 0) == ParseTokens(text1, [], 0);
    } else {
      SplitToDelta(d);
      TokensRead(d);
      ParseTokensLength(text1, Tokens(d), d, 0);
    }
  }

  /** Whatever a delta says, a script read from it has the given before-text. */
  lemma FromDeltaText1(text1: string, delta: string)
    requires FromDelta(text1, delta).Success?
    ensures Text1(FromDelta(text1, delta).value) == text1
  {
    ParseTokensText1(text1, Split(delta, '\t'), 0);
  }

  /** Text made only of characters the encoder leaves alone is its own escape. */
  lemma {:induction false} EscapePlain(s: string)
    requires forall i :: 0 <= i < |s| ==> Unescaped(s[i]) || s[i] == ' '
    ensures Escape(s) == s
  {
    if s != [] {
      EscapePlain(s[1..]);
      assert s == [s[0]] + s[1..];
    }
  }

  lemma ToDeltaSingle(x: Diff<char>)
    ensures ToDelta([x]) == Token(x)
  {
  }

  lemma {:induction false} EscapeLength(s: string)
    ensures |Escape(s)| >= |s|
    ensures (exists i :: 0 <= i < |s| && !(Unescaped(s[i]) || s[i] == ' ')) ==> |Escape(s)| > |s|
  {
    if s != [] {
      EscapeLength(s[1..]);
      var c := s[0];
      if !(Unescaped(c) || c == ' ') {
        assert |EscapeChar(c)| >= 3;
      }
      forall i | 1 <= i < |s| && !(Unescaped(s[i]) || s[i] == ' ')
        ensures |Escape(s[1..])| > |s[1..]|
      {
        assert s[1..][i - 1] == s[i];
      }
    }
  }

  /** Escaping leaves a text unchanged exactly when every character of it is in
      the encoder's pass-through set or is a space. */
  lemma EscapeUnchanged(s: string)
    ensures Escape(s) == s <==> forall i :: 0 <= i < |s| ==> Unescaped(s[i]) || s[i] == ' '
  {
    EscapeLength(s);
    if forall i :: 0 <= i < |s| ==> Unescaped(s[i]) || s[i] == ' ' {
      EscapePlain(s);
    }
  }
}
