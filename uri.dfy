/** `encodeURIComponent`, which the client uses to put a planet name into a
    `/planet?name=` link, and the percent-decoding that reads it back
    (`decodeURIComponent`, and the server's query-string parser for names
    that went through `encodeURIComponent`). Characters are Unicode scalar
    values and are written as UTF-8 bytes. */
module Uri {
  import opened Wrappers

  type Byte = b: nat | b < 256

  /** The characters encodeURIComponent leaves as they are. */
  predicate Unreserved(c: char) {
    'A' <= c <= 'Z' || 'a' <= c <= 'z' || '0' <= c <= '9' ||
    c == '-' || c == '_' || c == '.' || c == '!' || c == '~' || c == '*' ||
    c == '\'' || c == '(' || c == ')'
  }

  /** The UTF-8 bytes of a character. */
  function Utf8(c: char): (bs: seq<Byte>)
    ensures 1 <= |bs| <= 4
  {
    var n := c as int;
    if n < 0x80 then [n]
    else if n < 0x800 then [0xC0 + n / 64, 0x80 + n % 64]
    else if n < 0x10000 then [0xE0 + n / 4096, 0x80 + (n / 64) % 64, 0x80 + n % 64]
    else [0xF0 + n / 262144, 0x80 + (n / 4096) % 64, 0x80 + (n / 64) % 64, 0x80 + n % 64]
  }

  predicate IsHexDigit(c: char) {
    '0' <= c <= '9' || 'A' <= c <= 'F' || 'a' <= c <= 'f'
  }

  /** An upper-case hex digit, as encodeURIComponent writes them. */
  function HexDigit(d: nat): (c: char)
    requires d < 16
    ensures IsHexDigit(c)
  {
    if d < 10 then ('0' as int + d) as char else ('A' as int + d - 10) as char
  }

  function HexValue(c: char): (d: nat)
    requires IsHexDigit(c)
    ensures d < 16
  {
    if c <= '9' then c as int - '0' as int
    else if c <= 'F' then c as int - 'A' as int + 10
    else c as int - 'a' as int + 10
  }

  /** `%XY` for one byte. */
  function Escape(b: Byte): string {
    ['%', HexDigit(b / 16), HexDigit(b % 16)]
  }

  function EscapeAll(bs: seq<Byte>): string {
    if bs == [] then [] else Escape(bs[0]) + EscapeAll(bs[1..])
  }

  function EncodeChar(c: char): string {
    if Unreserved(c) then [c] else EscapeAll(Utf8(c))
  }

  /** JavaScript's `encodeURIComponent`. */
  function EncodeURIComponent(s: string): string {
    if s == [] then [] else EncodeChar(s[0]) + EncodeURIComponent(s[1..])
  }

  /** What a percent-encoded text is made of: literal characters and escaped
      bytes. */
  datatype Piece = Lit(c: char) | Pct(b: Byte)

  /** Splits a text into pieces; a '%' not followed by two hex digits is an
      error. */
  function Lex(s: string): Option<seq<Piece>> {
    if s == [] then Some([])
    else if s[0] != '%' then
      match Lex(s[1..])
      case None => None
      case Some(rest) => Some([Lit(s[0])] + rest)
    else if |s| < 3 || !IsHexDigit(s[1]) || !IsHexDigit(s[2]) then None
    else
      match Lex(s[3..])
      case None => None
      case Some(rest) => Some([Pct(HexValue(s[1]) * 16 + HexValue(s[2]))] + rest)
  }

  /** The length of the UTF-8 sequence a lead byte starts, or 0 when the byte
      cannot start one. */
  function SequenceLength(b: Byte): nat {
    if b < 0x80 then 1
    else if 0xC0 <= b < 0xE0 then 2
    else if 0xE0 <= b < 0xF0 then 3
    else if 0xF0 <= b < 0xF8 then 4
    else 0
  }

  predicate Continuation(p: Piece) {
    p.Pct? && 0x80 <= p.b < 0xC0
  }

  /** The six payload bits of a continuation byte. */
  function Bits(p: Piece): int {
    if p.Pct? then p.b - 0x80 else 0
  }

  /** The code point of a lead byte and its continuation bytes. */
  function CodePoint(lead: Byte, tail: seq<Piece>): int {
    if |tail| == 0 then lead
    else if |tail| == 1 then (lead - 0xC0) * 64 + Bits(tail[0])
    else if |tail| == 2 then (lead - 0xE0) * 4096 + Bits(tail[0]) * 64 + Bits(tail[1])
    else (lead - 0xF0) * 262144 + Bits(tail[0]) * 4096 + Bits(tail[1]) * 64 + Bits(tail[2])
  }

  /** The shortest encoding of a scalar value that is not a surrogate. */
  predicate Decodable(n: nat, cp: int) {
    (n == 1 || (n == 2 && cp >= 0x80) || (n == 3 && cp >= 0x800) || (n == 4 && cp >= 0x10000)) &&
    0 <= cp <= 0x10FFFF && !(0xD800 <= cp <= 0xDFFF)
  }

  function Assemble(ps: seq<Piece>): Option<string>
    decreases |ps|
  {
    if ps == [] then Some([])
    else if ps[0].Lit? then
      match Assemble(ps[1..])
      case None => None
      case Some(rest) => Some([ps[0].c] + rest)
    else
      var n := SequenceLength(ps[0].b);
      if n == 0 || |ps| < n then None
      else if !(forall i :: 1 <= i < n ==> Continuation(ps[i])) then None
      else
        var cp := CodePoint(ps[0].b, ps[1..n]);
        if !Decodable(n, cp) then None
        else
          match Assemble(ps[n..])
          case None => None
          case Some(rest) => Some([cp as char] + rest)
  }

  /** `decodeURIComponent`: undoes the escapes, failing on a malformed one. */
  function DecodeURIComponent(s: string): Option<string> {
    match Lex(s)
    case None => None
    case Some(ps) => Assemble(ps)
  }

  /** The pieces encodeURIComponent writes for one character. */
  function Pieces(c: char): seq<Piece> {
    if Unreserved(c) then [Lit(c)] else Escaped(Utf8(c))
  }

  /** The pieces of escaped bytes. */
  function Escaped(bs: seq<Byte>): (ps: seq<Piece>)
    ensures |ps| == |bs| && forall i :: 0 <= i < |bs| ==> ps[i] == Pct(bs[i])
  {
    if bs == [] then [] else [Pct(bs[0])] + Escaped(bs[1..])
  }

  lemma HexRoundTrip(d: nat)
    requires d < 16
    ensures HexValue(HexDigit(d)) == d
  {
  }

  lemma {:induction false} LexEscapes(bs: seq<Byte>, rest: string, tail: seq<Piece>)
    requires Lex(rest) == Some(tail)
    ensures Lex(EscapeAll(bs) + rest) == Some(Escaped(bs) + tail)
  {
    if bs != [] {
      var b := bs[0];
      LexEscapes(bs[1..], rest, tail);
      var s := EscapeAll(bs) + rest;
      assert s == Escape(b) + (EscapeAll(bs[1..]) + rest);
      HexRoundTrip(b / 16);
      HexRoundTrip(b % 16);
      assert s[3..] == EscapeAll(bs[1..]) + rest;
      assert s[0] == '%' && s[1] == HexDigit(b / 16) && s[2] == HexDigit(b % 16);
      assert HexValue(s[1]) * 16 + HexValue(s[2]) == b;
      var more := Escaped(bs[1..]);
      assert Lex(s) == Some([Pct(b)] + (more + tail));
      assert [Pct(b)] + (more + tail) == [Pct(b)] + more + tail;
    } else {
      assert EscapeAll(bs) + rest == rest && Escaped(bs) + tail == tail;
    }
  }

  lemma LexChar(c: char, rest: string, tail: seq<Piece>)
    requires Lex(rest) == Some(tail)
    ensures Lex(EncodeChar(c) + rest) == Some(Pieces(c) + tail)
  {
    if Unreserved(c) {
      assert ([c] + rest)[1..] == rest;
    } else {
      LexEscapes(Utf8(c), rest, tail);
    }
  }

  /** The pieces of an encoded text are the pieces of its characters. */
  function AllPieces(s: string): seq<Piece> {
    if s == [] then [] else Pieces(s[0]) + AllPieces(s[1..])
  }

  lemma {:induction false} LexEncoded(s: string)
    ensures Lex(EncodeURIComponent(s)) == Some(AllPieces(s))
  {
    if s != [] {
      LexEncoded(s[1..]);
      LexChar(s[0], EncodeURIComponent(s[1..]), AllPieces(s[1..]));
    }
  }

  /** The bytes of a character decode back to it. */
  lemma Utf8Decodes(c: char)
    ensures var bs := Utf8(c);
      SequenceLength(bs[0]) == |bs| &&
      (forall i :: 1 <= i < |bs| ==> 0x80 <= bs[i] < 0xC0) &&
      |bs| == |Pieces(c)|
    ensures !Unreserved(c) ==>
      var ps := Pieces(c);
      (forall i :: 1 <= i < |ps| ==> Continuation(ps[i])) &&
      CodePoint(ps[0].b, ps[1..]) == c as int && Decodable(|ps|, c as int)
  {
    var n := c as int;
    if n >= 0x80 {
      if n < 0x800 {
        TwoBytes(n);
      } else if n < 0x10000 {
        ThreeBytes(n);
      } else {
        FourBytes(n);
      }
    }
  }

  lemma TwoBytes(n: nat)
    requires 0x80 <= n < 0x800
    ensures (n / 64) * 64 + n % 64 == n
  {
  }

  lemma ThreeBytes(n: nat)
    ensures (n / 4096) * 4096 + ((n / 64) % 64) * 64 + n % 64 == n
  {
    assert n / 64 == (n / 4096) * 64 + (n / 64) % 64;
    assert n == (n / 64) * 64 + n % 64;
  }

  lemma FourBytes(n: nat)
    ensures (n / 262144) * 262144 + ((n / 4096) % 64) * 4096 + ((n / 64) % 64) * 64 + n % 64 == n
  {
    assert n / 4096 == (n / 262144) * 64 + (n / 4096) % 64;
    ThreeBytes(n);
  }

  lemma AssembleChar(c: char, tail: seq<Piece>, rest: string)
    requires Assemble(tail) == Some(rest)
    ensures Assemble(Pieces(c) + tail) == Some([c] + rest)
  {
    var ps := Pieces(c) + tail;
    if Unreserved(c) {
      assert ps[1..] == tail;
    } else {
      Utf8Decodes(c);
      var n := |Pieces(c)|;
      assert ps[..n] == Pieces(c);
      assert ps[1..n] == Pieces(c)[1..];
      assert ps[n..] == tail;
      assert ps[0] == Pct(Utf8(c)[0]);
    }
  }

  lemma {:induction false} AssembleAll(s: string)
    ensures Assemble(AllPieces(s)) == Some(s)
  {
    if s != [] {
      AssembleAll(s[1..]);
      AssembleChar(s[0], AllPieces(s[1..]), s[1..]);
      assert [s[0]] + s[1..] == s;
    }
  }

  /** Decoding an encoded text gives the text back. */
  lemma DecodeEncode(s: string)
    ensures DecodeURIComponent(EncodeURIComponent(s)) == Some(s)
  {
    LexEncoded(s);
    AssembleAll(s);
  }

  /** Encoding leaves only unreserved characters, '%' and hex digits. */
  lemma {:induction false} EncodedCharacters(s: string)
    ensures forall i :: 0 <= i < |EncodeURIComponent(s)| ==>
      var c := EncodeURIComponent(s)[i];
      Unreserved(c) || c == '%' || IsHexDigit(c)
  {
    if s != [] {
      EncodedCharacters(s[1..]);
      EscapedCharacters(Utf8(s[0]));
    }
  }

  lemma {:induction false} EscapedCharacters(bs: seq<Byte>)
    ensures forall i :: 0 <= i < |EscapeAll(bs)| ==> EscapeAll(bs)[i] == '%' || IsHexDigit(EscapeAll(bs)[i])
  {
    if bs != [] {
      EscapedCharacters(bs[1..]);
    }
  }
}
