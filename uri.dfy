/** The percent-escaping of inserted text in a delta: the URI encoder's
    character classes, UTF-8 with uppercase hex on the way out, and the URI
    decoder (either hex case, reserved escapes left as written, malformed
    escapes and malformed UTF-8 rejected) on the way back. */
module Uri {

  datatype Option<T> = None | Some(value: T)

  type byte = x: int | 0 <= x < 256

  /** Characters the encoder leaves alone: letters, digits, the marks
      `- _ . ! ~ * ' ( )` and the reserved `; / ? : @ & = + $ , #`. */
  predicate Unescaped(c: char)
  {
    ('A' <= c <= 'Z') || ('a' <= c <= 'z') || ('0' <= c <= '9') ||
    c == '-' || c == '_' || c == '.' || c == '!' || c == '~' || c == '*' ||
    c == '\'' || c == '(' || c == ')' || Reserved(c)
  }

  /** Characters whose escapes the decoder keeps as they are. */
  predicate Reserved(c: char)
  {
    c == ';' || c == '/' || c == '?' || c == ':' || c == '@' || c == '&' ||
    c == '=' || c == '+' || c == '$' || c == ',' || c == '#'
  }

  /** The UTF-8 encoding of one character. */
  function Utf8(c: char): (r: seq<byte>)
    ensures 1 <= |r| <= 4
  {
    var n := c as int;
    if n < 0x80 then [n]
    else if n < 0x800 then [0xC0 + n / 64, 0x80 + n % 64]
    else if n < 0x1_0000 then [0xE0 + n / 4096, 0x80 + (n / 64) % 64, 0x80 + n % 64]
    else [0xF0 + n / 262144, 0x80 + (n / 4096) % 64, 0x80 + (n / 64) % 64, 0x80 + n % 64]
  }

  /** An uppercase hex digit. */
  function HexDigit(v: nat): char
    requires v < 16
  {
    if v < 10 then ('0' as int + v) as char else ('A' as int + v - 10) as char
  }

  predicate IsHex(c: char)
  {
    ('0' <= c <= '9') || ('a' <= c <= 'f') || ('A' <= c <= 'F')
  }

  /** The value of a hex digit of either case. */
  function HexValue(c: char): (v: nat)
    requires IsHex(c)
    ensures v < 16
  {
    if '0' <= c <= '9' then c as int - '0' as int
    else if 'a' <= c <= 'f' then c as int - 'a' as int + 10
    else c as int - 'A' as int + 10
  }

  /** `%` and two uppercase hex digits. */
  function Percent(b: byte): string
  {
    ['%', HexDigit(b / 16), HexDigit(b % 16)]
  }

  function PercentBytes(bs: seq<byte>): (r: string)
    ensures |r| == 3 * |bs|
  {
    if bs == [] then [] else Percent(bs[0]) + PercentBytes(bs[1..])
  }

  /** One character as the encoder writes it; a space is written as itself. */
  function EscapeChar(c: char): string
  {
    if Unescaped(c) || c == ' ' then [c] else PercentBytes(Utf8(c))
  }

  /** The escaped form of inserted text. */
  function Escape(s: string): (r: string)
    ensures |s| <= |r|
  {
    if s == [] then [] else EscapeChar(s[0]) + Escape(s[1..])
  }

  /** The byte of a well-formed `%XY` escape at position `i`. */
  function ByteAt(s: string, i: nat): Option<byte>
  {
    if i + 3 <= |s| && s[i] == '%' && IsHex(s[i + 1]) && IsHex(s[i + 2])
    then Some(16 * HexValue(s[i + 1]) + HexValue(s[i + 2]))
    else None
  }

  /** `k` continuation bytes (`10xxxxxx`), each as an escape, from position `i`. */
  function ReadConts(s: string, i: nat, k: nat): (r: Option<seq<byte>>)
    ensures r.Some? ==> |r.value| == k && (k > 0 ==> i + 3 * k <= |s|)
    decreases k
  {
    if k == 0 then Some([])
    else match ByteAt(s, i)
      case None => None
      case Some(b) =>
        if b < 0x80 || 0xC0 <= b then None
        else match ReadConts(s, i + 3, k - 1)
          case None => None
          case Some(bs) => Some([b] + bs)
  }

  /** The number of bytes a lead byte announces; 0 for a byte that cannot lead. */
  function SeqLen(b: byte): nat
  {
    if b < 0x80 then 1
    else if 0xC0 <= b < 0xE0 then 2
    else if 0xE0 <= b < 0xF0 then 3
    else if 0xF0 <= b < 0xF8 then 4
    else 0
  }

  /** Appends the six payload bits of each continuation byte. */
  function Accumulate(acc: int, cs: seq<byte>): int
    decreases cs
  {
    if cs == [] then acc else Accumulate(acc * 64 + cs[0] % 64, cs[1..])
  }

  /** The smallest code point that needs `n` bytes: anything below is overlong. */
  function MinCodePoint(n: nat): nat
  {
    if n == 2 then 0x80 else if n == 3 then 0x800 else 0x1_0000
  }

  /** A code point the decoder accepts from an `n`-byte sequence. */
  predicate ValidCodePoint(cp: int, n: nat)
  {
    MinCodePoint(n) <= cp <= 0x10_FFFF && !(0xD800 <= cp < 0xE000)
  }

  /** Decodes the escape sequence at the start of `s`: the text it stands for
      and how many characters of `s` it takes. An ASCII byte of the reserved set
      stays as the three characters written. */
  function DecodeEscape(s: string): (r: Option<(string, nat)>)
    ensures r.Some? ==> 0 < |r.value.0| <= 3 <= r.value.1 <= |s|
  {
    match ByteAt(s, 0)
    case None => None
    case Some(b0) =>
      if b0 < 0x80 then
        Some((if Reserved(b0 as char) then s[..3] else [b0 as char], 3))
      else
        var n := SeqLen(b0);
        if n == 0 then None
        else match ReadConts(s, 3, n - 1)
          case None => None
          case Some(cs) =>
            var cp := Accumulate(b0 % (if n == 2 then 32 else if n == 3 then 16 else 8), cs);
            if ValidCodePoint(cp, n) then Some(([cp as char], 3 * n)) else None
  }

  /** The URI decoder: None where it would reject its input. It never
      lengthens a text, and a text without `%` is its own decoding. */
  function Unescape(s: string): (r: Option<string>)
    ensures r.Some? ==> |r.value| <= |s|
    ensures (forall i :: 0 <= i < |s| ==> s[i] != '%') ==> r == Some(s)
    decreases |s|
  {
    if s == [] then Some([])
    else if s[0] != '%' then
      assert s == [s[0]] + s[1..];
      match Unescape(s[1..])
      case None => None
      case Some(t) => Some([s[0]] + t)
    else match DecodeEscape(s)
      case None => None
      case Some((piece, k)) =>
        match Unescape(s[k..])
        case None => None
        case Some(t) => Some(piece + t)
  }

  lemma HexDigitValue(v: nat)
    requires v < 16
    ensures IsHex(HexDigit(v)) && HexValue(HexDigit(v)) == v
  {
  }

  lemma HexRoundTrip(b: byte)
    ensures IsHex(HexDigit(b / 16)) && IsHex(HexDigit(b % 16))
    ensures 16 * HexValue(HexDigit(b / 16)) + HexValue(HexDigit(b % 16)) == b
  {
    HexDigitValue(b / 16);
    HexDigitValue(b % 16);
  }

  /** The `j`-th escape of an escaped byte string reads back as the `j`-th byte. */
  lemma {:induction false} ByteAtPercent(bs: seq<byte>, rest: string, j: nat)
    requires j < |bs|
    ensures ByteAt(PercentBytes(bs) + rest, 3 * j) == Some(bs[j])
  {
    var s := PercentBytes(bs) + rest;
    if j == 0 {
      HexRoundTrip(bs[0]);
      assert s[..3] == Percent(bs[0]);
    } else {
      ByteAtPercent(bs[1..], rest, j - 1);
      assert s[3..] == PercentBytes(bs[1..]) + rest;
    }
  }

  /** Continuation bytes written as escapes are read back. */
  lemma {:induction false} ReadPercent(bs: seq<byte>, rest: string, i: nat, k: nat)
    requires i + k <= |bs|
    requires forall j :: i <= j < i + k ==> 0x80 <= bs[j] < 0xC0
    ensures ReadConts(PercentBytes(bs) + rest, 3 * i, k) == Some(bs[i..i + k])
    decreases k
  {
    if k > 0 {
      var s, p := PercentBytes(bs) + rest, 3 * i;
      assert p + 3 == 3 * (i + 1);
      assert bs[i..i + k] == [bs[i]] + bs[i + 1..i + k];
      ByteAtPercent(bs, rest, i);
      ReadPercent(bs, rest, i + 1, k - 1);
      assert ReadConts(s, p + 3, k - 1) == Some(bs[i + 1..i + k]);
    }
  }

  lemma TwoBytes(n: int)
    requires 0x80 <= n < 0x800
    ensures SeqLen(0xC0 + n / 64) == 2 && (0xC0 + n / 64) % 32 == n / 64
    ensures (n / 64) * 64 + n % 64 == n
  {
  }

  lemma ThreeBytes(n: int)
    requires 0x800 <= n < 0x1_0000
    ensures SeqLen(0xE0 + n / 4096) == 3 && (0xE0 + n / 4096) % 16 == n / 4096
    ensures (n / 4096) * 64 + (n / 64) % 64 == n / 64
    ensures (n / 64) * 64 + n % 64 == n
  {
  }

  lemma FourBytes(n: int)
    requires 0x1_0000 <= n <= 0x10_FFFF
    ensures SeqLen(0xF0 + n / 262144) == 4 && (0xF0 + n / 262144) % 8 == n / 262144
    ensures (n / 262144) * 64 + (n / 4096) % 64 == n / 4096
    ensures (n / 4096) * 64 + (n / 64) % 64 == n / 64
    ensures (n / 64) * 64 + n % 64 == n
  {
  }

  /** Decoding the escapes of an escaped character gives the character back and
      takes exactly those escapes. */
  lemma DecodeEscapeChar(c: char, rest: string)
    requires !Unescaped(c) && c != ' '
    ensures DecodeEscape(EscapeChar(c) + rest) == Some(([c], |EscapeChar(c)|))
  {
    var bs := Utf8(c);
    var s := PercentBytes(bs) + rest;
    ByteAtPercent(bs, rest, 0);
    var n := c as int;
    if n < 0x80 {
      assert bs[0] as char == c;
    } else if n < 0x800 {
      DecodeTwo(c, rest);
    } else if n < 0x1_0000 {
      DecodeThree(c, rest);
    } else {
      DecodeFour(c, rest);
    }
  }

  lemma DecodeTwo(c: char, rest: string)
    requires 0x80 <= c as int < 0x800
    ensures DecodeEscape(PercentBytes(Utf8(c)) + rest) == Some(([c], 6))
  {
    var bs, n := Utf8(c), c as int;
    ByteAtPercent(bs, rest, 0);
    ContinuationBytes(c);
    ReadPercent(bs, rest, 1, 1);
    assert bs[1..2] == [bs[1]];
    AccumulateTwo(n);
  }

  lemma AccumulateTwo(n: int)
    requires 0x80 <= n < 0x800
    ensures var b0 := 0xC0 + n / 64;
      SeqLen(b0) == 2 && Accumulate(b0 % 32, [0x80 + n % 64]) == n
  {
    TwoBytes(n);
    AccumulateStep(n / 64, 0x80 + n % 64, []);
  }

  lemma DecodeThree(c: char, rest: string)
    requires 0x800 <= c as int < 0x1_0000
    ensures DecodeEscape(PercentBytes(Utf8(c)) + rest) == Some(([c], 9))
  {
    var bs, n := Utf8(c), c as int;
    ByteAtPercent(bs, rest, 0);
    ContinuationBytes(c);
    ReadPercent(bs, rest, 1, 2);
    assert bs[1..3] == [bs[1], bs[2]];
    AccumulateThree(n);
  }

  lemma AccumulateThree(n: int)
    requires 0x800 <= n < 0x1_0000
    ensures var b0 := 0xE0 + n / 4096;
      SeqLen(b0) == 3 && Accumulate(b0 % 16, [0x80 + (n / 64) % 64, 0x80 + n % 64]) == n
  {
    ThreeBytes(n);
    var q2, q1 := n / 4096, n / 64;
    var b1, b2 := 0x80 + q1 % 64, 0x80 + n % 64;
    ContinuationMod(q1 % 64);
    ContinuationMod(n % 64);
    assert [b1] + [b2] == [b1, b2];
    AccumulateStep(q2, b1, [b2]);
    assert q2 * 64 + b1 % 64 == q1;
    AccumulateStep(q1, b2, []);
    assert q1 * 64 + b2 % 64 == n;
  }

  lemma DecodeFour(c: char, rest: string)
    requires 0x1_0000 <= c as int
    ensures DecodeEscape(PercentBytes(Utf8(c)) + rest) == Some(([c], 12))
  {
    var bs, n := Utf8(c), c as int;
    ByteAtPercent(bs, rest, 0);
    ContinuationBytes(c);
    ReadPercent(bs, rest, 1, 3);
    assert bs[1..4] == [bs[1], bs[2], bs[3]];
    AccumulateFour(n);
  }

  lemma ContinuationBytes(c: char)
    ensures forall j :: 1 <= j < |Utf8(c)| ==> 0x80 <= Utf8(c)[j] < 0xC0
  {
  }

  lemma AccumulateFour(n: int)
    requires 0x1_0000 <= n <= 0x10_FFFF
    ensures var b0 := 0xF0 + n / 262144;
      SeqLen(b0) == 4 &&
      Accumulate(b0 % 8, [0x80 + (n / 4096) % 64, 0x80 + (n / 64) % 64, 0x80 + n % 64]) == n
  {
    FourBytes(n);
    var q3, q2, q1 := n / 262144, n / 4096, n / 64;
    var b1, b2, b3 := 0x80 + q2 % 64, 0x80 + q1 % 64, 0x80 + n % 64;
    ContinuationMod(q2 % 64);
    ContinuationMod(q1 % 64);
    ContinuationMod(n % 64);
    assert [b1] + [b2, b3] == [b1, b2, b3];
    assert [b2] + [b3] == [b2, b3];
    AccumulateStep(q3, b1, [b2, b3]);
    assert q3 * 64 + b1 % 64 == q2;
    AccumulateStep(q2, b2, [b3]);
    assert q2 * 64 + b2 % 64 == q1;
    AccumulateStep(q1, b3, []);
    assert q1 * 64 + b3 % 64 == n;
  }

  lemma ContinuationMod(x: int)
    requires 0 <= x < 64
    ensures (0x80 + x) % 64 == x
  {
  }

  lemma AccumulateStep(acc: int, b: byte, cs: seq<byte>)
    ensures Accumulate(acc, [b] + cs) == Accumulate(acc * 64 + b % 64, cs)
  {
    assert ([b] + cs)[1..] == cs;
  }

  lemma {:induction false} EscapeAppend(a: string, b: string)
    ensures Escape(a + b) == Escape(a) + Escape(b)
  {
    if a == [] {
      assert a + b == b;
    } else {
      assert (a + b)[1..] == a[1..] + b;
      EscapeAppend(a[1..], b);
    }
  }

  /** Decoding undoes escaping, for every text. */
  lemma {:induction false} UnescapeEscape(s: string)
    ensures Unescape(Escape(s)) == Some(s)
  {
    if s != [] {
      var c := s[0];
      assert s == [c] + s[1..];
      assert Escape(s) == EscapeChar(c) + Escape(s[1..]);
      UnescapeEscape(s[1..]);
      UnescapeChar(c, Escape(s[1..]), s[1..]);
    }
  }

  /** Decoding the escape of one character followed by text that decodes to
      `t` gives the character followed by `t`. */
  lemma UnescapeChar(c: char, rest: string, t: string)
    requires Unescape(rest) == Some(t)
    ensures Unescape(EscapeChar(c) + rest) == Some([c] + t)
  {
    var e := EscapeChar(c) + rest;
    if Unescaped(c) || c == ' ' {
      assert e[0] == c && e[1..] == rest;
      assert c != '%';
    } else {
      DecodeEscapeChar(c, rest);
      var k := |EscapeChar(c)|;
      assert e[0] == '%' by {
        var bs := Utf8(c);
        assert EscapeChar(c) == Percent(bs[0]) + PercentBytes(bs[1..]);
      }
      assert e[k..] == rest;
    }
  }

  /** Escaped text never holds a tab, the delimiter of a delta. */
  lemma {:induction false} EscapeNoTab(s: string)
    ensures '\t' !in Escape(s)
  {
    if s != [] {
      EscapeNoTab(s[1..]);
      var c := s[0];
      if !(Unescaped(c) || c == ' ') {
        PercentNoTab(Utf8(c));
      }
    }
  }

  lemma {:induction false} PercentNoTab(bs: seq<byte>)
    ensures '\t' !in PercentBytes(bs)
  {
    if bs != [] {
      PercentNoTab(bs[1..]);
    }
  }
}
