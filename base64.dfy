/** The key codec of the usage tables: an ASCII text is turned into its bytes, the bytes into
    standard Base64 (section 4 of RFC 4648, with `=` padding), and back again.
    Quotes and screenshot names are stored under their encoded form. */
module Base64 {
  import opened Errors

  type Byte = b: int | 0 <= b < 256
  type Sextet = v: int | 0 <= v < 64

  const Pad: char := '='

  // ---------------------------------------------------------------------------
  // The alphabet (table 1 of RFC 4648)
  // ---------------------------------------------------------------------------

  predicate IsAlphabetChar(c: char) {
    'A' <= c <= 'Z' || 'a' <= c <= 'z' || '0' <= c <= '9' || c == '+' || c == '/'
  }

  /** The 6-bit value a character of the alphabet stands for. */
  function SextetValue(c: char): Sextet
    requires IsAlphabetChar(c)
  {
    if 'A' <= c <= 'Z' then c as int - 'A' as int
    else if 'a' <= c <= 'z' then c as int - 'a' as int + 26
    else if '0' <= c <= '9' then c as int - '0' as int + 52
    else if c == '+' then 62
    else 63
  }

  /** The character that stands for a 6-bit value; it is the only character SextetValue maps back to it. */
  function SextetChar(v: Sextet): (c: char)
    ensures IsAlphabetChar(c) && c != Pad
    ensures SextetValue(c) == v
  {
    if v < 26 then ('A' as int + v) as char
    else if v < 52 then ('a' as int + (v - 26)) as char
    else if v < 62 then ('0' as int + (v - 52)) as char
    else if v == 62 then '+'
    else '/'
  }

  lemma SextetCharOfValue(c: char)
    requires IsAlphabetChar(c)
    ensures SextetChar(SextetValue(c)) == c
  {
  }

  // ---------------------------------------------------------------------------
  // Characters <-> symbols
  // ---------------------------------------------------------------------------

  /** One position of an encoding: a character of the alphabet, read as its sextet, or `=`. */
  datatype Symbol = Digit(value: Sextet) | PadMark

  function SymbolChar(sym: Symbol): (c: char)
    ensures c == Pad <==> sym.PadMark?
    ensures c == Pad || IsAlphabetChar(c)
  {
    match sym
    case Digit(v) => SextetChar(v)
    case PadMark => Pad
  }

  /** Reading one character: anything outside the alphabet and `=` is rejected. */
  function CharSymbol(c: char): (r: Result<Symbol>)
    ensures r.Ok? <==> IsAlphabetChar(c) || c == Pad
    ensures r.Err? ==> r.error == InvalidBase64
  {
    if IsAlphabetChar(c) then Ok(Digit(SextetValue(c)))
    else if c == Pad then Ok(PadMark)
    else Err(InvalidBase64)
  }

  lemma CharSymbolOfSymbolChar(sym: Symbol)
    ensures CharSymbol(SymbolChar(sym)) == Ok(sym)
  {
  }

  /** Writing symbols out as text, position by position. */
  function Render(syms: seq<Symbol>): (s: string)
    ensures |s| == |syms| && forall i :: 0 <= i < |syms| ==> s[i] == SymbolChar(syms[i])
  {
    seq(|syms|, i requires 0 <= i < |syms| => SymbolChar(syms[i]))
  }

  /** Reading text as symbols: fails on the first character that is neither in the alphabet nor `=`. */
  function Parse(s: string): (r: Result<seq<Symbol>>)
    ensures r.Ok? <==> forall i :: 0 <= i < |s| ==> CharSymbol(s[i]).Ok?
    ensures r.Err? ==> r.error == InvalidBase64
    ensures r.Ok? ==> |r.value| == |s| && forall i :: 0 <= i < |s| ==> CharSymbol(s[i]) == Ok(r.value[i])
  {
    if forall i :: 0 <= i < |s| ==> CharSymbol(s[i]).Ok? then
      Ok(seq(|s|, i requires 0 <= i < |s| && CharSymbol(s[i]).Ok? => CharSymbol(s[i]).value))
    else
      Err(InvalidBase64)
  }

  /** Reading back what was written gives the same symbols. */
  lemma ParseRender(syms: seq<Symbol>)
    ensures Parse(Render(syms)) == Ok(syms)
  {
    var s := Render(syms);
    forall i | 0 <= i < |s|
      ensures CharSymbol(s[i]) == Ok(syms[i])
    {
      CharSymbolOfSymbolChar(syms[i]);
    }
    assert Parse(s).value == syms;
  }

  // ---------------------------------------------------------------------------
  // Bytes <-> symbols
  // ---------------------------------------------------------------------------

  /** Number of `=` characters at the end of the encoding of n bytes. */
  function PadCount(n: nat): nat {
    (3 - n % 3) % 3
  }

  /** Every group of three bytes becomes four sextets; a final group of one or two bytes
      becomes two or three sextets (the last one filled up with zero bits) and `==` or `=`. */
  function Symbols(b: seq<Byte>): (syms: seq<Symbol>)
    ensures |syms| == 4 * ((|b| + 2) / 3)
  {
    if |b| == 0 then []
    else if |b| == 1 then OneSymbols(b[0])
    else if |b| == 2 then TwoSymbols(b[0], b[1])
    else GroupSymbols(b[0], b[1], b[2]) + Symbols(b[3..])
  }

  /** A final single byte: its top six bits, its low two bits followed by zeros, then `==`. */
  function OneSymbols(b0: Byte): seq<Symbol> {
    [Digit(b0 / 4), Digit(b0 % 4 * 16), PadMark, PadMark]
  }

  /** A final pair of bytes: three sextets, the last filled up with zero bits, then `=`. */
  function TwoSymbols(b0: Byte, b1: Byte): seq<Symbol> {
    [Digit(b0 / 4), Digit(b0 % 4 * 16 + b1 / 16), Digit(b1 % 16 * 4), PadMark]
  }

  /** The four sextets of a full group of three bytes. */
  function GroupSymbols(b0: Byte, b1: Byte, b2: Byte): seq<Symbol> {
    [Digit(b0 / 4), Digit(b0 % 4 * 16 + b1 / 16), Digit(b1 % 16 * 4 + b2 / 64), Digit(b2 % 64)]
  }

  /** Padding appears only at the end, exactly as much of it as the length of the input asks for. */
  lemma {:induction false} SymbolsShape(b: seq<Byte>)
    ensures forall i :: 0 <= i < |Symbols(b)| ==> (Symbols(b)[i].PadMark? <==> i >= |Symbols(b)| - PadCount(|b|))
    decreases |b|
  {
    if |b| > 3 {
      var syms, rest := Symbols(b), Symbols(b[3..]);
      SymbolsShape(b[3..]);
      assert |b[3..]| % 3 == |b| % 3;
      assert forall i :: 4 <= i < |syms| ==> syms[i] == rest[i - 4];
    }
  }

  /** The bytes that consecutive sextets carry: the first byte is the six bits of v0 and the top
      two of v1, the second the low four of v1 and the top four of v2, the third the low two of v2
      and all of v3. */
  function FirstByte(v0: Sextet, v1: Sextet): Byte { v0 * 4 + v1 / 16 }
  function SecondByte(v1: Sextet, v2: Sextet): Byte { v1 % 16 * 16 + v2 / 4 }
  function ThirdByte(v2: Sextet, v3: Sextet): Byte { v2 % 4 * 64 + v3 }

  /** A group of four symbols that is not the last one: no padding is allowed. */
  function DecodeGroup(s0: Symbol, s1: Symbol, s2: Symbol, s3: Symbol): (r: Result<seq<Byte>>)
    ensures r.Ok? <==> s0.Digit? && s1.Digit? && s2.Digit? && s3.Digit?
    ensures r.Ok? ==> |r.value| == 3
    ensures r.Err? ==> r.error == InvalidBase64
  {
    if s0.Digit? && s1.Digit? && s2.Digit? && s3.Digit? then
      Ok([FirstByte(s0.value, s1.value), SecondByte(s1.value, s2.value), ThirdByte(s2.value, s3.value)])
    else
      Err(InvalidBase64)
  }

  /** The last group, which may end in `=` (two bytes) or `==` (one byte).
      Bits below the last full byte are ignored, as the usual decoders do. */
  function DecodeLastGroup(s0: Symbol, s1: Symbol, s2: Symbol, s3: Symbol): (r: Result<seq<Byte>>)
    ensures r.Ok? <==> s0.Digit? && s1.Digit? && (s2.Digit? || s3.PadMark?)
    ensures r.Ok? ==> |r.value| == (if s3.Digit? then 3 else if s2.Digit? then 2 else 1)
    ensures r.Err? ==> r.error == InvalidBase64
  {
    if !(s0.Digit? && s1.Digit?) then Err(InvalidBase64)
    else if s2.Digit? && s3.Digit? then DecodeGroup(s0, s1, s2, s3)
    else if s2.Digit? && s3.PadMark? then
      Ok([FirstByte(s0.value, s1.value), SecondByte(s1.value, s2.value)])
    else if s2.PadMark? && s3.PadMark? then
      Ok([FirstByte(s0.value, s1.value)])
    else
      Err(InvalidBase64)
  }

  /** Decoding of padded symbols; a length that is not a multiple of four is an error. */
  function DecodeSymbols(syms: seq<Symbol>): (r: Result<seq<Byte>>)
    ensures r.Ok? ==> |syms| % 4 == 0
    ensures r.Err? ==> r.error == InvalidBase64
    decreases |syms|
  {
    if |syms| == 0 then Ok([])
    else if |syms| < 4 then Err(InvalidBase64)
    else if |syms| == 4 then DecodeLastGroup(syms[0], syms[1], syms[2], syms[3])
    else
      match DecodeGroup(syms[0], syms[1], syms[2], syms[3])
      case Err(e) => Err(e)
      case Ok(g) =>
        match DecodeSymbols(syms[4..])
        case Err(e) => Err(e)
        case Ok(rest) => Ok(g + rest)
  }

  /** Splitting bytes into sextets and joining them again gives each byte back. */
  lemma JoinFirst(b0: Byte, b1: Byte)
    ensures FirstByte(b0 / 4, b0 % 4 * 16 + b1 / 16) == b0
  {
    assert (b0 % 4 * 16 + b1 / 16) / 16 == b0 % 4;
  }

  lemma JoinSecond(b0: Byte, b1: Byte, b2: Byte)
    ensures SecondByte(b0 % 4 * 16 + b1 / 16, b1 % 16 * 4 + b2 / 64) == b1
  {
    assert (b0 % 4 * 16 + b1 / 16) % 16 == b1 / 16;
    assert (b1 % 16 * 4 + b2 / 64) / 4 == b1 % 16;
  }

  lemma JoinSecondOfTwo(b0: Byte, b1: Byte)
    ensures SecondByte(b0 % 4 * 16 + b1 / 16, b1 % 16 * 4) == b1
  {
    assert (b0 % 4 * 16 + b1 / 16) % 16 == b1 / 16;
    assert b1 % 16 * 4 / 4 == b1 % 16;
  }

  lemma JoinThird(b1: Byte, b2: Byte)
    ensures ThirdByte(b1 % 16 * 4 + b2 / 64, b2 % 64) == b2
  {
    assert (b1 % 16 * 4 + b2 / 64) % 4 == b2 / 64;
  }

  /** Decoding the symbols of some bytes gives the bytes back: group by group, with the last
      group padded as needed. */
  lemma {:induction false} DecodeSymbolsOfBytes(b: seq<Byte>)
    ensures DecodeSymbols(Symbols(b)) == Ok(b)
    decreases |b|
  {
    if |b| == 1 {
      OneByteRoundTrip(b);
    } else if |b| == 2 {
      TwoBytesRoundTrip(b);
    } else if |b| >= 3 {
      DecodeSymbolsOfBytes(b[3..]);
      GroupThenRest(b);
    }
  }

  /** A final single byte: two sextets and `==` give it back. */
  lemma OneByteRoundTrip(b: seq<Byte>)
    requires |b| == 1
    ensures DecodeSymbols(Symbols(b)) == Ok(b)
  {
    assert [b[0]] == b;
    OneGroup(b[0]);
  }

  lemma OneGroup(b0: Byte)
    ensures var g := OneSymbols(b0); DecodeLastGroup(g[0], g[1], g[2], g[3]) == Ok([b0])
  {
    var g := OneSymbols(b0);
    assert DecodeLastGroup(g[0], g[1], g[2], g[3]) == Ok([FirstByte(g[0].value, g[1].value)]);
    JoinFirst(b0, 0);
  }

  /** A final pair of bytes: three sextets and `=` give them back. */
  lemma TwoBytesRoundTrip(b: seq<Byte>)
    requires |b| == 2
    ensures DecodeSymbols(Symbols(b)) == Ok(b)
  {
    assert [b[0], b[1]] == b;
    TwoGroup(b[0], b[1]);
  }

  lemma TwoGroup(b0: Byte, b1: Byte)
    ensures var g := TwoSymbols(b0, b1); DecodeLastGroup(g[0], g[1], g[2], g[3]) == Ok([b0, b1])
  {
    var g := TwoSymbols(b0, b1);
    assert DecodeLastGroup(g[0], g[1], g[2], g[3]) == Ok([FirstByte(g[0].value, g[1].value), SecondByte(g[1].value, g[2].value)]);
    JoinFirst(b0, b1);
    JoinSecondOfTwo(b0, b1);
  }

  /** The four sextets of three bytes give the three bytes back. */
  lemma GroupOfThree(b0: Byte, b1: Byte, b2: Byte)
    ensures var g := GroupSymbols(b0, b1, b2); DecodeGroup(g[0], g[1], g[2], g[3]) == Ok([b0, b1, b2])
  {
    var g := GroupSymbols(b0, b1, b2);
    assert DecodeGroup(g[0], g[1], g[2], g[3])
      == Ok([FirstByte(g[0].value, g[1].value), SecondByte(g[1].value, g[2].value), ThirdByte(g[2].value, g[3].value)]);
    JoinFirst(b0, b1);
    JoinSecond(b0, b1, b2);
    JoinThird(b1, b2);
  }

  /** A full group followed by a decodable rest decodes to the group's bytes followed by the
      rest's bytes (a full group decodes the same whether or not it is the last one). */
  lemma DecodeGroupThenRest(g: seq<Symbol>, rest: seq<Symbol>, x: seq<Byte>, y: seq<Byte>)
    requires |g| == 4 && DecodeGroup(g[0], g[1], g[2], g[3]) == Ok(x)
    requires DecodeSymbols(rest) == Ok(y)
    ensures DecodeSymbols(g + rest) == Ok(x + y)
  {
    var syms := g + rest;
    assert syms[0] == g[0] && syms[1] == g[1] && syms[2] == g[2] && syms[3] == g[3];
    if |rest| == 0 {
      assert syms == g && x + y == x;
    } else {
      assert syms[4..] == rest;
    }
  }

  /** Three bytes or more: the first three come back from the first group, the rest from the rest. */
  lemma GroupThenRest(b: seq<Byte>)
    requires |b| >= 3
    requires DecodeSymbols(Symbols(b[3..])) == Ok(b[3..])
    ensures DecodeSymbols(Symbols(b)) == Ok(b)
  {
    SplitGroup(b);
    GroupOfThree(b[0], b[1], b[2]);
    DecodeGroupThenRest(GroupSymbols(b[0], b[1], b[2]), Symbols(b[3..]), [b[0], b[1], b[2]], b[3..]);
  }

  lemma SplitGroup(b: seq<Byte>)
    requires |b| >= 3
    ensures Symbols(b) == GroupSymbols(b[0], b[1], b[2]) + Symbols(b[3..])
    ensures [b[0], b[1], b[2]] + b[3..] == b
  {
    SplitBytes(b);
  }

  lemma SplitBytes(b: seq<Byte>)
    requires |b| >= 3
    ensures [b[0], b[1], b[2]] + b[3..] == b
  {
    assert [b[0], b[1], b[2]] + b[3..] == b;
  }

  // ---------------------------------------------------------------------------
  // Bytes <-> Base64 text
  // ---------------------------------------------------------------------------

  /** `base64.b64encode`: padded standard Base64. */
  function EncodeBytes(b: seq<Byte>): (e: string)
    ensures |e| == 4 * ((|b| + 2) / 3)
  {
    Render(Symbols(b))
  }

  /** Padding appears only at the end of an encoding, and exactly as much of it as the length
      of the input asks for; every other character is from the alphabet. */
  lemma EncodeBytesShape(b: seq<Byte>)
    ensures forall i :: 0 <= i < |EncodeBytes(b)| ==>
      (EncodeBytes(b)[i] == Pad <==> i >= |EncodeBytes(b)| - PadCount(|b|))
    ensures forall i :: 0 <= i < |EncodeBytes(b)| ==> EncodeBytes(b)[i] == Pad || IsAlphabetChar(EncodeBytes(b)[i])
  {
    SymbolsShape(b);
  }

  /** Strict decoding of padded Base64: characters outside the alphabet, misplaced padding and
      a length that is not a multiple of four are errors. */
  function DecodeBytes(s: string): (r: Result<seq<Byte>>)
    ensures r.Err? ==> r.error == InvalidBase64
  {
    match Parse(s)
    case Err(e) => Err(e)
    case Ok(syms) => DecodeSymbols(syms)
  }

  /** Decoding undoes encoding. */
  lemma DecodeEncodeBytes(b: seq<Byte>)
    ensures DecodeBytes(EncodeBytes(b)) == Ok(b)
  {
    ParseRender(Symbols(b));
    DecodeSymbolsOfBytes(b);
  }

  // ---------------------------------------------------------------------------
  // ASCII text <-> Base64 text
  // ---------------------------------------------------------------------------

  predicate IsAscii(s: string) {
    forall i :: 0 <= i < |s| ==> s[i] as int < 128
  }

  /** `text.encode('ascii')` on a text that is pure ASCII. */
  function AsciiBytes(s: string): (b: seq<Byte>)
    requires IsAscii(s)
    ensures |b| == |s| && forall i :: 0 <= i < |s| ==> b[i] == s[i] as int
  {
    seq(|s|, i requires 0 <= i < |s| => s[i] as int)
  }

  /** `bytes.decode('ascii')`: fails on a byte of 128 or more. */
  function BytesAscii(b: seq<Byte>): (r: Result<string>)
    ensures r.Ok? <==> forall i :: 0 <= i < |b| ==> b[i] < 128
    ensures r.Ok? ==> |r.value| == |b| && forall i :: 0 <= i < |b| ==> r.value[i] as int == b[i]
  {
    if forall i :: 0 <= i < |b| ==> b[i] < 128 then
      Ok(seq(|b|, i requires 0 <= i < |b| => b[i] as char))
    else
      Err(NotAscii)
  }

  /** `_encode_text`: fails exactly when the text is not ASCII; otherwise yields padded Base64,
      four characters for every started group of three input characters. */
  function EncodeText(text: string): (r: Result<string>)
    ensures r.Ok? <==> IsAscii(text)
    ensures r.Err? ==> r.error == NotAscii
    ensures r.Ok? ==> |r.value| == 4 * ((|text| + 2) / 3)
    ensures r.Ok? ==> forall i :: 0 <= i < |r.value| ==> r.value[i] == Pad || IsAlphabetChar(r.value[i])
    ensures r.Ok? ==> IsAscii(r.value)
  {
    if IsAscii(text) then
      var b := AsciiBytes(text);
      EncodeBytesShape(b);
      Ok(EncodeBytes(b))
    else
      Err(NotAscii)
  }

  /** `_decode_text`: the input must be ASCII, valid Base64, and decode to ASCII bytes. */
  function DecodeText(s: string): (r: Result<string>)
    ensures !IsAscii(s) ==> r == Err(NotAscii)
    ensures r.Err? ==> r.error == NotAscii || r.error == InvalidBase64
    ensures r.Ok? ==> IsAscii(r.value)
  {
    if !IsAscii(s) then Err(NotAscii)
    else
      match DecodeBytes(s)
      case Err(e) => Err(e)
      case Ok(b) => BytesAscii(b)
  }

  /** Decoding an encoded ASCII text gives the text back. */
  lemma TextRoundTrip(text: string)
    requires IsAscii(text)
    ensures EncodeText(text).Ok?
    ensures DecodeText(EncodeText(text).value) == Ok(text)
  {
    var b := AsciiBytes(text);
    DecodeEncodeBytes(b);
    var r := BytesAscii(b);
    assert r.Ok?;
    assert r.value == text;
  }

  /** Distinct ASCII texts get distinct keys, so no two quotes (or two screenshots) share a record. */
  lemma EncodeTextInjective(s: string, t: string)
    requires IsAscii(s) && IsAscii(t)
    requires EncodeText(s) == EncodeText(t)
    ensures s == t
  {
    TextRoundTrip(s);
    TextRoundTrip(t);
  }
}
