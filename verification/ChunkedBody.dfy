/**
The chunked transfer decoder of the prover service, against the encoding of section 7.1 of
RFC 9112.
*/
module ChunkedBody {
  import opened Common
  import Trimming

  type byte = b: int | 0 <= b < 256

  const CR: byte := 13
  const LF: byte := 10
  const SEMICOLON: nat := 59
  const USIZE_LIMIT: nat := 0x1_0000_0000_0000_0000
  const MAX_SLICE: nat := 0x7FFF_FFFF_FFFF_FFFF // no Rust slice is longer

  datatype Error =
    | Malformed
    | NotUtf8
    | InvalidChunkSize
    | Truncated
    | ArithmeticPanic // `offset + size + 2` overflows, and the build checks overflow

  // ---------------------------------------------------------------- lines

  /** The position of the first CR LF pair. */
  function FindCrlf(s: seq<byte>): (r: Option<nat>)
    ensures r.Some? ==> r.value + 2 <= |s|
    ensures r.None? ==> HasNoCrlf(s)
  {
    if |s| < 2 then None
    else if s[0] == CR && s[1] == LF then Some(0)
    else
      match FindCrlf(s[1..])
      case None => None
      case Some(i) => Some(i + 1)
  }

  predicate HasNoCrlf(line: seq<byte>) {
    forall i | 0 <= i < |line| - 1 :: !(line[i] == CR && line[i + 1] == LF)
  }

  lemma {:induction false} CrlfAfterLine(line: seq<byte>, rest: seq<byte>)
    requires HasNoCrlf(line)
    ensures FindCrlf(line + ([CR, LF] + rest)) == Some(|line|)
    decreases |line|
  {
    var s := line + ([CR, LF] + rest);
    if |line| == 0 {
      assert s[0] == CR && s[1] == LF;
    } else {
      assert s[1..] == line[1..] + ([CR, LF] + rest);
      assert s[0] == line[0];
      assert s[1] == if |line| > 1 then line[1] else CR;
      CrlfAfterLine(line[1..], rest);
    }
  }

  // ---------------------------------------------------------------- text

  predicate Continues(b: byte) {
    0x80 <= b < 0xC0
  }

  /** The first code point of a UTF-8 text and its length in bytes. */
  function FirstChar(s: seq<byte>): (r: Option<(nat, nat)>)
    requires s != []
    ensures r.Some? ==> 1 <= r.value.1 <= |s|
    ensures s[0] < 0x80 ==> r == Some((s[0], 1))
  {
    if s[0] < 0x80 then Some((s[0], 1))
    else if 0xC2 <= s[0] < 0xE0 && |s| >= 2 && Continues(s[1]) then
      Some(((s[0] as int - 0xC0) * 0x40 + (s[1] as int - 0x80), 2))
    else if 0xE0 <= s[0] < 0xF0 && |s| >= 3 && Continues(s[1]) && Continues(s[2])
            && (s[0] == 0xE0 ==> s[1] >= 0xA0) && (s[0] == 0xED ==> s[1] < 0xA0) then
      Some(((s[0] as int - 0xE0) * 0x1000 + (s[1] as int - 0x80) * 0x40 + (s[2] as int - 0x80), 3))
    else if 0xF0 <= s[0] < 0xF5 && |s| >= 4 && Continues(s[1]) && Continues(s[2]) && Continues(s[3])
            && (s[0] == 0xF0 ==> s[1] >= 0x90) && (s[0] == 0xF4 ==> s[1] < 0x90) then
      Some(((s[0] as int - 0xF0) * 0x40000 + (s[1] as int - 0x80) * 0x1000 + (s[2] as int - 0x80) * 0x40
            + (s[3] as int - 0x80), 4))
    else None
  }

  /** The code points of a UTF-8 text, or nothing for a byte sequence that is not one. */
  function DecodeUtf8(s: seq<byte>): Option<seq<nat>>
    decreases |s|
  {
    if s == [] then Some([])
    else
      match FirstChar(s)
      case None => None
      case Some((c, n)) => Then(c, DecodeUtf8(s[n..]))
  }

  function Then(c: nat, rest: Option<seq<nat>>): Option<seq<nat>> {
    match rest
    case None => None
    case Some(cs) => Some([c] + cs)
  }

  // ---------------------------------------------------------------- UTF-8, RFC 3629

  /** Every code point but the surrogates. */
  predicate IsScalar(c: nat) {
    c < 0xD800 || 0xE000 <= c < 0x11_0000
  }

  function Continuation(x: nat): byte {
    0x80 + x % 0x40
  }

  /** The bytes of one code point: one for 7 bits, two for 11, three for 16, four for 21. */
  function EncodeChar(c: nat): (s: seq<byte>)
    requires IsScalar(c)
    ensures 1 <= |s| <= 4
  {
    if c < 0x80 then [c]
    else if c < 0x800 then [0xC0 + c / 0x40, Continuation(c)]
    else if c < 0x1_0000 then [0xE0 + c / 0x1000, Continuation(c / 0x40), Continuation(c)]
    else [0xF0 + c / 0x4_0000, Continuation(c / 0x1000), Continuation(c / 0x40), Continuation(c)]
  }

  /** A number below 2^24 in four digits to the base 64. */
  lemma Sixtyfourths(c: nat, x: nat, a: nat, b: nat, d: nat)
    requires a < 0x40 && b < 0x40 && d < 0x40
    ensures c == x * 0x4_0000 + a * 0x1000 + b * 0x40 + d
            <==> c / 0x4_0000 == x && c / 0x1000 % 0x40 == a && c / 0x40 % 0x40 == b && c % 0x40 == d
  {
    var q := c / 0x40;
    var r := q / 0x40;
    assert c == 0x40 * q + c % 0x40 && q == 0x40 * r + q % 0x40 && r == 0x40 * (r / 0x40) + r % 0x40;
    assert r == c / 0x1000 && r / 0x40 == c / 0x4_0000;
  }

  lemma TwoBytes(s: seq<byte>, b: nat, d: nat)
    requires 2 <= b < 0x20 && d < 0x40 && |s| >= 2 && s[0] as int == 0xC0 + b && s[1] as int == 0x80 + d
    ensures FirstChar(s) == Some((b * 0x40 + d, 2))
  {
  }

  lemma ThreeBytes(s: seq<byte>, a: nat, b: nat, d: nat)
    requires a < 0x10 && b < 0x40 && d < 0x40 && (a == 0 ==> b >= 0x20) && (a == 0xD ==> b < 0x20)
    requires |s| >= 3 && s[0] as int == 0xE0 + a && s[1] as int == 0x80 + b && s[2] as int == 0x80 + d
    ensures FirstChar(s) == Some((a * 0x1000 + b * 0x40 + d, 3))
  {
  }

  lemma FourBytes(s: seq<byte>, x: nat, a: nat, b: nat, d: nat)
    requires x < 5 && a < 0x40 && b < 0x40 && d < 0x40 && (x == 0 ==> a >= 0x10) && (x == 4 ==> a < 0x10)
    requires |s| >= 4 && s[0] as int == 0xF0 + x && s[1] as int == 0x80 + a && s[2] as int == 0x80 + b && s[3] as int == 0x80 + d
    ensures FirstChar(s) == Some((x * 0x4_0000 + a * 0x1000 + b * 0x40 + d, 4))
  {
  }

  lemma CharEncoded(c: nat, rest: seq<byte>)
    requires IsScalar(c)
    ensures FirstChar(EncodeChar(c) + rest) == Some((c, |EncodeChar(c)|))
  {
    var s := EncodeChar(c) + rest;
    var x, a, b, d := c / 0x4_0000, c / 0x1000 % 0x40, c / 0x40 % 0x40, c % 0x40;
    Sixtyfourths(c, x, a, b, d);
    assert forall i | 0 <= i < |EncodeChar(c)| :: s[i] == EncodeChar(c)[i];
    if 0x80 <= c < 0x800 {
      TwoBytes(s, b, d);
    } else if 0x800 <= c < 0x1_0000 {
      ThreeBytes(s, a, b, d);
    } else if c >= 0x1_0000 {
      FourBytes(s, x, a, b, d);
    }
  }

  lemma CharDecoded(s: seq<byte>)
    requires s != [] && FirstChar(s).Some?
    ensures var (c, n) := FirstChar(s).value; IsScalar(c) && s[..n] == EncodeChar(c)
  {
    var (c, n) := FirstChar(s).value;
    if n == 2 {
      Sixtyfourths(c, 0, 0, s[0] as int - 0xC0, s[1] as int - 0x80);
    } else if n == 3 {
      Sixtyfourths(c, 0, s[0] as int - 0xE0, s[1] as int - 0x80, s[2] as int - 0x80);
    } else if n == 4 {
      Sixtyfourths(c, s[0] as int - 0xF0, s[1] as int - 0x80, s[2] as int - 0x80, s[3] as int - 0x80);
    }
  }

  predicate AllScalar(cs: seq<nat>) {
    forall i | 0 <= i < |cs| :: IsScalar(cs[i])
  }

  function EncodeUtf8(cs: seq<nat>): seq<byte>
    requires AllScalar(cs)
  {
    if cs == [] then [] else EncodeChar(cs[0]) + EncodeUtf8(cs[1..])
  }

  lemma {:induction false} Utf8Encoded(cs: seq<nat>)
    requires AllScalar(cs)
    ensures DecodeUtf8(EncodeUtf8(cs)) == Some(cs)
    decreases |cs|
  {
    if cs != [] {
      var rest := EncodeUtf8(cs[1..]);
      CharEncoded(cs[0], rest);
      Utf8Encoded(cs[1..]);
      assert (EncodeChar(cs[0]) + rest)[|EncodeChar(cs[0])|..] == rest;
      assert cs == [cs[0]] + cs[1..];
    }
  }

  lemma DecodedFirst(s: seq<byte>, c: nat, n: nat)
    requires s != [] && DecodeUtf8(s).Some? && FirstChar(s) == Some((c, n))
    ensures n <= |s| && DecodeUtf8(s[n..]).Some? && DecodeUtf8(s).value == [c] + DecodeUtf8(s[n..]).value
  {
  }

  lemma EncodedFirst(c: nat, rest: seq<nat>)
    requires IsScalar(c) && AllScalar(rest)
    ensures AllScalar([c] + rest) && EncodeUtf8([c] + rest) == EncodeChar(c) + EncodeUtf8(rest)
  {
    assert ([c] + rest)[1..] == rest;
  }

  lemma {:induction false} Utf8Decoded(s: seq<byte>)
    requires DecodeUtf8(s).Some?
    ensures AllScalar(DecodeUtf8(s).value) && EncodeUtf8(DecodeUtf8(s).value) == s
    decreases |s|
  {
    if s != [] {
      var (c, n) := FirstChar(s).value;
      CharDecoded(s);
      DecodedFirst(s, c, n);
      Utf8Decoded(s[n..]);
      EncodedFirst(c, DecodeUtf8(s[n..]).value);
      assert s == s[..n] + s[n..];
    }
  }

  /** The decoder accepts exactly the UTF-8 encodings of lists of code points, and gives the list. */
  lemma Utf8Exactly(s: seq<byte>, cs: seq<nat>)
    ensures DecodeUtf8(s) == Some(cs) <==> AllScalar(cs) && EncodeUtf8(cs) == s
  {
    if DecodeUtf8(s) == Some(cs) {
      Utf8Decoded(s);
    }
    if AllScalar(cs) && EncodeUtf8(cs) == s {
      Utf8Encoded(cs);
    }
  }

  predicate IsAscii(s: seq<byte>) {
    forall i | 0 <= i < |s| :: s[i] < 0x80
  }

  lemma {:induction false} AsciiPrefix(a: seq<byte>, b: seq<byte>)
    requires IsAscii(a)
    ensures DecodeUtf8(a + b).Some? <==> DecodeUtf8(b).Some?
    ensures DecodeUtf8(b).Some? ==> |DecodeUtf8(a + b).value| >= |a|
    ensures DecodeUtf8(b).Some? ==> DecodeUtf8(a + b).value[|a|..] == DecodeUtf8(b).value
    ensures DecodeUtf8(b).Some? ==> forall i | 0 <= i < |a| :: DecodeUtf8(a + b).value[i] == a[i]
    decreases |a|
  {
    if a == [] {
      assert a + b == b;
    } else {
      assert (a + b)[1..] == a[1..] + b;
      AsciiPrefix(a[1..], b);
    }
  }

  /** Unicode white space, which `trim` removes. */
  predicate IsSpace(c: nat) {
    || 9 <= c <= 13 || c == 32 || c == 0x85 || c == 0xA0 || c == 0x1680 || 0x2000 <= c <= 0x200A
    || c == 0x2028 || c == 0x2029 || c == 0x202F || c == 0x205F || c == 0x3000
  }

  /** Everything before the first semicolon. */
  function BeforeSemicolon(s: seq<nat>): seq<nat> {
    if s == [] || s[0] == SEMICOLON then [] else [s[0]] + BeforeSemicolon(s[1..])
  }

  predicate IsHexDigit(c: nat) {
    48 <= c <= 57 || 65 <= c <= 70 || 97 <= c <= 102
  }

  function HexDigit(c: nat): nat
    requires IsHexDigit(c)
  {
    if c <= 57 then c - 48 else if c <= 70 then c - 55 else c - 87
  }

  predicate AllHex(s: seq<nat>) {
    forall i | 0 <= i < |s| :: IsHexDigit(s[i])
  }

  function HexValue(s: seq<nat>): nat
    requires AllHex(s)
  {
    if s == [] then 0 else 16 * HexValue(s[..|s| - 1]) + HexDigit(s[|s| - 1])
  }

  /** `usize::from_str_radix(s, 16)`: an optional plus sign, at least one digit, no overflow. */
  function ParseHex(s: seq<nat>): Option<nat> {
    var digits := if s != [] && s[0] == 43 then s[1..] else s;
    if digits == [] || !AllHex(digits) || HexValue(digits) >= USIZE_LIMIT then None else Some(HexValue(digits))
  }

  /** The size a chunk line announces. */
  function ParseSizeLine(line: seq<byte>): Result<nat, Error> {
    match DecodeUtf8(line)
    case None => Err(NotUtf8)
    case Some(text) =>
      match ParseHex(Trimming.Trim(IsSpace, BeforeSemicolon(text)))
      case None => Err(InvalidChunkSize)
      case Some(size) => Ok(size)
  }

  // ---------------------------------------------------------------- decoding

  function Prepend(data: seq<byte>, r: Result<seq<byte>, Error>): Result<seq<byte>, Error> {
    match r
    case Ok(more) => Ok(data + more)
    case Err(e) => Err(e)
  }

  lemma PrependTwice(a: seq<byte>, b: seq<byte>, r: Result<seq<byte>, Error>)
    ensures Prepend(a, Prepend(b, r)) == Prepend(a + b, r)
  {
    if r.Ok? {
      assert a + (b + r.value) == a + b + r.value;
    }
  }

  /** The announced size and the position where its data starts. */
  function ReadSize(rest: seq<byte>): (r: Result<(nat, nat), Error>)
    ensures r.Ok? ==> 2 <= r.value.1 <= |rest|
  {
    match FindCrlf(rest)
    case None => Err(Malformed)
    case Some(lineEnd) =>
      match ParseSizeLine(rest[..lineEnd])
      case Err(e) => Err(e)
      case Ok(size) => Ok((size, lineEnd + 2))
  }

  /** Anything that reads the announced size and the position of the data off a chunk. */
  type Reader = seq<byte> -> Result<(nat, nat), Error>

  /** Decode what follows `offset` in a body whose remaining bytes are `rest`. */
  function DecodeRest(read: Reader, rest: seq<byte>, offset: nat): Result<seq<byte>, Error>
    decreases |rest|
  {
    match read(rest)
    case Err(e) => Err(e)
    case Ok((size, start)) =>
      if size == 0 then Ok([])
      else if offset + start + size + 2 >= USIZE_LIMIT then Err(ArithmeticPanic)
      else if |rest| < start + size + 2 then Err(Truncated)
      else Prepend(rest[start..start + size], DecodeRest(read, rest[start + size + 2..], offset + start + size + 2))
  }

  /** The whole body, read by the size lines of the RFC. */
  function Decode(body: seq<byte>): Result<seq<byte>, Error> {
    DecodeRest(ReadSize, body, 0)
  }

  /** One turn of the loop, seen from the whole body. */
  lemma LoopStep(read: Reader, body: seq<byte>, decoded: seq<byte>, offset: nat, start: nat, size: nat)
    requires offset <= start && start + size + 2 <= |body| && start + size + 2 < USIZE_LIMIT && size > 0
    requires read(body[offset..]) == Ok((size, start - offset))
    ensures Prepend(decoded, DecodeRest(read, body[offset..], offset))
            == Prepend(decoded + body[start..start + size], DecodeRest(read, body[start + size + 2..], start + size + 2))
  {
    var rest := body[offset..];
    assert body[start..start + size] == rest[start - offset..start - offset + size];
    assert body[start + size + 2..] == rest[start - offset + size + 2..];
    PrependTwice(decoded, body[start..start + size], DecodeRest(read, body[start + size + 2..], start + size + 2));
  }

  /** The decoder's loop, for any reader that stays inside the bytes it is given. Every slice it
      takes is in bounds, and it stops on every input. */
  method DecodeLoop(read: Reader, body: seq<byte>) returns (r: Result<seq<byte>, Error>)
    requires forall s :: read(s).Ok? ==> read(s).value.1 <= |s|
    ensures r == DecodeRest(read, body, 0)
  {
    var decoded: seq<byte> := [];
    var offset: nat := 0;
    assert body[0..] == body;
    PrependNothing(DecodeRest(read, body, 0));
    while true
      invariant offset <= |body|
      invariant DecodeRest(read, body, 0) == Prepend(decoded, DecodeRest(read, body[offset..], offset))
      decreases |body| - offset
    {
      var parsed := read(body[offset..]);
      if parsed.Err? {
        return Err(parsed.error);
      }
      ghost var before := offset;
      var size := parsed.value.0;
      offset := offset + parsed.value.1;
      if size == 0 {
        break;
      }
      if offset + size + 2 >= USIZE_LIMIT {
        return Err(ArithmeticPanic);
      }
      if |body| < offset + size + 2 {
        return Err(Truncated);
      }
      LoopStep(read, body, decoded, before, offset, size);
      decoded := decoded + body[offset..offset + size];
      offset := offset + size + 2;
    }
    assert decoded + [] == decoded;
    return Ok(decoded);
  }

  method DecodeChunkedBody(body: seq<byte>) returns (r: Result<seq<byte>, Error>)
    ensures r == Decode(body)
  {
    r := DecodeLoop(ReadSize, body);
  }

  lemma PrependNothing(r: Result<seq<byte>, Error>)
    ensures Prepend([], r) == r
  {
    if r.Ok? {
      assert [] + r.value == r.value;
    }
  }

  // ---------------------------------------------------------------- encoding

  /** A chunk as the RFC writes it: hexadecimal size, optional white space and extension, data. */
  datatype Chunk = Chunk(size: seq<byte>, extension: seq<byte>, data: seq<byte>)

  predicate IsBlank(s: seq<byte>) {
    forall i | 0 <= i < |s| :: s[i] == 32 || s[i] == 9
  }

  /** Nothing, or blanks and a semicolon and anything that does not end the line. */
  ghost predicate IsExtension(e: seq<byte>) {
    e == [] || exists n: nat :: n < |e| && IsBlank(e[..n]) && e[n] == SEMICOLON
  }

  ghost predicate IsSizeLine(size: seq<byte>, extension: seq<byte>, n: nat) {
    && size != [] && AllHex(size) && HexValue(size) == n
    && IsExtension(extension) && HasNoCrlf(size + extension)
  }

  ghost predicate IsChunk(c: Chunk) {
    c.data != [] && IsSizeLine(c.size, c.extension, |c.data|)
  }

  function EncodeChunk(c: Chunk): seq<byte> {
    c.size + c.extension + ([CR, LF] + (c.data + [CR, LF]))
  }

  /** The chunks, the last chunk, and whatever the trailer section holds. */
  function Encode(chunks: seq<Chunk>, last: Chunk, trailer: seq<byte>): seq<byte> {
    if chunks == [] then last.size + last.extension + ([CR, LF] + trailer)
    else EncodeChunk(chunks[0]) + Encode(chunks[1..], last, trailer)
  }

  function Data(chunks: seq<Chunk>): seq<byte> {
    if chunks == [] then [] else chunks[0].data + Data(chunks[1..])
  }

  predicate Utf8Line(c: Chunk) {
    DecodeUtf8(c.size + c.extension).Some?
  }

  predicate AllUtf8(chunks: seq<Chunk>, last: Chunk) {
    (forall i | 0 <= i < |chunks| :: Utf8Line(chunks[i])) && Utf8Line(last)
  }

  lemma {:induction false} BeforeSemicolonOf(a: seq<nat>, rest: seq<nat>)
    requires SEMICOLON !in a && (rest == [] || rest[0] == SEMICOLON)
    ensures BeforeSemicolon(a + rest) == a
    decreases |a|
  {
    if a == [] {
      assert a + rest == rest;
    } else {
      assert (a + rest)[1..] == a[1..] + rest;
      BeforeSemicolonOf(a[1..], rest);
    }
  }

  // ---------------------------------------------------------------- which size lines are read

  /** White space, at most one plus sign, hexadecimal digits, white space, and then nothing or a
      semicolon and anything. */
  ghost predicate SizeText(text: seq<nat>, lead: seq<nat>, plus: seq<nat>, digits: seq<nat>, trail: seq<nat>, ext: seq<nat>) {
    && text == lead + (plus + digits) + trail + ext
    && Trimming.AllSpace(IsSpace, lead) && Trimming.AllSpace(IsSpace, trail)
    && (plus == [] || plus == [43]) && digits != [] && AllHex(digits)
    && (ext == [] || ext[0] == SEMICOLON)
  }

  lemma {:induction false} SemicolonSplits(s: seq<nat>)
    ensures var a := BeforeSemicolon(s);
            a <= s && SEMICOLON !in a && (|a| == |s| || s[|a|] == SEMICOLON)
    decreases |s|
  {
    if s != [] && s[0] != SEMICOLON {
      SemicolonSplits(s[1..]);
      assert BeforeSemicolon(s) == [s[0]] + BeforeSemicolon(s[1..]);
    }
  }

  lemma ParseHexIs(s: seq<nat>, plus: seq<nat>, digits: seq<nat>)
    requires s == plus + digits && (plus == [] || plus == [43]) && digits != [] && AllHex(digits)
    ensures ParseHex(s) == if HexValue(digits) < USIZE_LIMIT then Some(HexValue(digits)) else None
  {
    assert IsHexDigit(digits[0]);
    assert plus == [] ==> s == digits;
    assert plus == [43] ==> s[1..] == digits;
  }

  lemma SizeTextRead(text: seq<nat>, lead: seq<nat>, plus: seq<nat>, digits: seq<nat>, trail: seq<nat>, ext: seq<nat>)
    requires SizeText(text, lead, plus, digits, trail, ext)
    ensures Trimming.Trim(IsSpace, BeforeSemicolon(text)) == plus + digits
  {
    var front := lead + (plus + digits) + trail;
    assert forall i | 0 <= i < |digits| :: IsHexDigit(digits[i]);
    assert SEMICOLON !in front;
    BeforeSemicolonOf(front, ext);
    assert Trimming.Trimmed(IsSpace, plus + digits) by {
      assert (plus + digits)[|plus + digits| - 1] == digits[|digits| - 1];
      assert (plus + digits)[0] == if plus == [] then digits[0] else 43;
    }
    Trimming.TrimOf(IsSpace, lead, plus + digits, trail);
  }

  lemma SizeTextFound(text: seq<nat>) returns (lead: seq<nat>, plus: seq<nat>, digits: seq<nat>, trail: seq<nat>, ext: seq<nat>)
    requires ParseHex(Trimming.Trim(IsSpace, BeforeSemicolon(text))).Some?
    ensures SizeText(text, lead, plus, digits, trail, ext)
    ensures ParseHex(Trimming.Trim(IsSpace, BeforeSemicolon(text))) == Some(HexValue(digits))
  {
    var front := BeforeSemicolon(text);
    SemicolonSplits(text);
    ext := text[|front|..];
    lead, trail := Trimming.TrimSplits(IsSpace, front);
    var s := Trimming.Trim(IsSpace, front);
    plus := if s[0] == 43 then s[..1] else [];
    digits := s[|plus|..];
    assert s == plus + digits;
    assert text == front + ext;
  }

  /** Exactly which lines are read as which size: the UTF-8 lines of that form whose number fits 64
      bits. */
  lemma SizeLineExactly(line: seq<byte>, n: nat)
    ensures ParseSizeLine(line) == Ok(n)
            <==> n < USIZE_LIMIT && exists text, lead, plus, digits, trail, ext ::
                   DecodeUtf8(line) == Some(text) && SizeText(text, lead, plus, digits, trail, ext) && HexValue(digits) == n
  {
    if ParseSizeLine(line) == Ok(n) {
      var text := DecodeUtf8(line).value;
      var lead, plus, digits, trail, ext := SizeTextFound(text);
    }
    if text, lead, plus, digits, trail, ext :|
      DecodeUtf8(line) == Some(text) && SizeText(text, lead, plus, digits, trail, ext) && HexValue(digits) == n {
      SizeTextRead(text, lead, plus, digits, trail, ext);
      ParseHexIs(plus + digits, plus, digits);
    }
  }

  /** A well-formed size line is read back, unless its extension is not UTF-8. */
  lemma SizeLineRead(size: seq<byte>, extension: seq<byte>, n: nat)
    requires IsSizeLine(size, extension, n) && n < USIZE_LIMIT
    ensures ParseSizeLine(size + extension) == if DecodeUtf8(size + extension).Some? then Ok(n) else Err(NotUtf8)
  {
    if DecodeUtf8(size + extension).Some? {
      AsciiPrefix(size, extension);
      var text := DecodeUtf8(size + extension).value;
      var tail := DecodeUtf8(extension).value;
      assert text == size + tail;
      var blanks := ExtensionBlanks(extension, tail);
      SizeTextOf(size, blanks, tail);
      SizeTextRead(text, [], [], size, blanks, tail[|blanks|..]);
      ParseHexIs([] + size, [], size);
    }
  }

  lemma SizeTextOf(size: seq<nat>, blanks: seq<nat>, tail: seq<nat>)
    requires size != [] && AllHex(size) && blanks <= tail && (tail[|blanks|..] == [] || tail[|blanks|] == SEMICOLON)
    requires forall i | 0 <= i < |blanks| :: IsSpace(blanks[i])
    ensures SizeText(size + tail, [], [], size, blanks, tail[|blanks|..])
  {
    assert size + tail == [] + ([] + size) + blanks + tail[|blanks|..];
  }

  lemma AsciiFirst(b: seq<byte>)
    requires b != [] && b[0] < 0x80 && DecodeUtf8(b).Some?
    ensures DecodeUtf8(b).value != [] && DecodeUtf8(b).value[0] == b[0]
  {
  }

  lemma BlanksThenSemicolon(a: seq<byte>, b: seq<byte>, tail: seq<nat>)
    requires IsBlank(a) && b != [] && b[0] == SEMICOLON && DecodeUtf8(a + b) == Some(tail)
    ensures |a| < |tail| && tail[|a|] == SEMICOLON
    ensures forall i | 0 <= i < |a| :: IsSpace(tail[i]) && tail[i] != SEMICOLON
  {
    AsciiPrefix(a, b);
    AsciiFirst(b);
    assert tail[|a|..][0] == SEMICOLON;
  }

  lemma ExtensionBlanks(extension: seq<byte>, tail: seq<nat>) returns (blanks: seq<nat>)
    requires IsExtension(extension) && DecodeUtf8(extension) == Some(tail)
    ensures blanks <= tail && (tail[|blanks|..] == [] || tail[|blanks|] == SEMICOLON)
    ensures forall i | 0 <= i < |blanks| :: IsSpace(blanks[i]) && blanks[i] != SEMICOLON
  {
    if extension == [] {
      blanks := [];
    } else {
      var n: nat :| n < |extension| && IsBlank(extension[..n]) && extension[n] == SEMICOLON;
      assert extension == extension[..n] + extension[n..];
      BlanksThenSemicolon(extension[..n], extension[n..], tail);
      blanks := tail[..n];
    }
  }

  /** `read` gets the size line of an encoded chunk right, wherever `valid` holds of it. */
  ghost predicate ReadsChunk(read: Reader, valid: Chunk -> bool, c: Chunk, more: seq<byte>) {
    var body, start := EncodeChunk(c) + more, |c.size + c.extension| + 2;
    IsChunk(c) && |body| <= MAX_SLICE ==>
      read(body) == (if valid(c) then Ok((|c.data|, start)) else Err(NotUtf8))
  }

  ghost predicate ReadsLast(read: Reader, valid: Chunk -> bool, last: Chunk, trailer: seq<byte>) {
    IsSizeLine(last.size, last.extension, 0) ==>
      read(last.size + last.extension + ([CR, LF] + trailer))
      == (if valid(last) then Ok((0, |last.size + last.extension| + 2)) else Err(NotUtf8))
  }

  lemma LineReads(size: seq<byte>, extension: seq<byte>, n: nat, line: seq<byte>, after: seq<byte>)
    requires IsSizeLine(size, extension, n) && n < USIZE_LIMIT && line == size + extension
    ensures ReadSize(line + ([CR, LF] + after))
            == if DecodeUtf8(line).Some? then Ok((n, |line| + 2)) else Err(NotUtf8)
  {
    var parsed: Result<nat, Error> := if DecodeUtf8(line).Some? then Ok(n) else Err(NotUtf8);
    assert ParseSizeLine(line) == parsed by {
      SizeLineRead(size, extension, n);
    }
    ReadSizeGives(line, after, parsed);
  }

  lemma ReadSizeGives(line: seq<byte>, after: seq<byte>, parsed: Result<nat, Error>)
    requires HasNoCrlf(line) && ParseSizeLine(line) == parsed
    ensures ReadSize(line + ([CR, LF] + after)) == if parsed.Ok? then Ok((parsed.value, |line| + 2)) else Err(parsed.error)
  {
    ReadSizeOf(line, after);
  }

  lemma ChunkSplits(c: Chunk, more: seq<byte>)
    ensures EncodeChunk(c) + more == c.size + c.extension + ([CR, LF] + (c.data + [CR, LF] + more))
  {
  }

  lemma SizeReads(c: Chunk, more: seq<byte>)
    ensures ReadsChunk(ReadSize, Utf8Line, c, more)
  {
    if IsChunk(c) && |EncodeChunk(c) + more| <= MAX_SLICE {
      ChunkSplits(c, more);
      LineReads(c.size, c.extension, |c.data|, c.size + c.extension, c.data + [CR, LF] + more);
    }
  }

  lemma LastReads(last: Chunk, trailer: seq<byte>)
    ensures ReadsLast(ReadSize, Utf8Line, last, trailer)
  {
    if IsSizeLine(last.size, last.extension, 0) {
      LineReads(last.size, last.extension, 0, last.size + last.extension, trailer);
    }
  }

  /** What decoding an encoding gives, chunk by chunk. */
  function Outcome(valid: Chunk -> bool, chunks: seq<Chunk>, last: Chunk): Result<seq<byte>, Error> {
    if chunks == [] then if valid(last) then Ok([]) else Err(NotUtf8)
    else if valid(chunks[0]) then Prepend(chunks[0].data, Outcome(valid, chunks[1..], last))
    else Err(NotUtf8)
  }

  lemma DecodeData(read: Reader, body: seq<byte>, data: seq<byte>, more: seq<byte>, start: nat, offset: nat)
    requires read(body) == Ok((|data|, start)) && data != []
    requires |body| == start + |data| + 2 + |more| && offset + |body| <= MAX_SLICE
    requires body[start..start + |data|] == data && body[start + |data| + 2..] == more
    ensures DecodeRest(read, body, offset) == Prepend(data, DecodeRest(read, more, offset + start + |data| + 2))
  {
  }

  lemma {:induction false} DecodeEncodeAt(read: Reader, valid: Chunk -> bool, chunks: seq<Chunk>, last: Chunk,
                                          trailer: seq<byte>, body: seq<byte>, offset: nat)
    requires forall c, more :: ReadsChunk(read, valid, c, more)
    requires ReadsLast(read, valid, last, trailer) && IsSizeLine(last.size, last.extension, 0)
    requires forall i | 0 <= i < |chunks| :: IsChunk(chunks[i])
    requires body == Encode(chunks, last, trailer) && offset + |body| <= MAX_SLICE
    ensures DecodeRest(read, body, offset) == Outcome(valid, chunks, last)
    decreases |chunks|
  {
    if chunks != [] {
      var c, more := chunks[0], Encode(chunks[1..], last, trailer);
      DecodeEncodeAt(read, valid, chunks[1..], last, trailer, more, offset + |EncodeChunk(c)|);
      assert ReadsChunk(read, valid, c, more);
      EncodeCons(chunks, last, trailer);
      DecodeChunk(read, valid, c, more, offset);
    }
  }

  lemma EncodeCons(chunks: seq<Chunk>, last: Chunk, trailer: seq<byte>)
    requires chunks != []
    ensures Encode(chunks, last, trailer) == EncodeChunk(chunks[0]) + Encode(chunks[1..], last, trailer)
  {
  }

  /** One chunk in front of a body. */
  lemma DecodeChunk(read: Reader, valid: Chunk -> bool, c: Chunk, more: seq<byte>, offset: nat)
    requires ReadsChunk(read, valid, c, more) && IsChunk(c) && offset + |EncodeChunk(c) + more| <= MAX_SLICE
    ensures DecodeRest(read, EncodeChunk(c) + more, offset)
            == if valid(c) then Prepend(c.data, DecodeRest(read, more, offset + |EncodeChunk(c)|)) else Err(NotUtf8)
  {
    TakeChunk(c, more);
    if valid(c) {
      DecodeData(read, EncodeChunk(c) + more, c.data, more, |c.size + c.extension| + 2, offset);
    }
  }

  lemma {:induction false} OutcomeIsData(valid: Chunk -> bool, chunks: seq<Chunk>, last: Chunk)
    ensures Outcome(valid, chunks, last)
            == if (forall i | 0 <= i < |chunks| :: valid(chunks[i])) && valid(last) then Ok(Data(chunks)) else Err(NotUtf8)
    decreases |chunks|
  {
    if chunks != [] {
      OutcomeIsData(valid, chunks[1..], last);
      assert chunks == [chunks[0]] + chunks[1..];
    }
  }

  /** Decoding inverts encoding: for every list of chunks with arbitrary data, any extensions and
      any trailer, the decoder returns the concatenated data exactly when every size line up to
      the last chunk is UTF-8; otherwise it reports that one is not. */
  lemma DecodeEncode(chunks: seq<Chunk>, last: Chunk, trailer: seq<byte>)
    requires forall i | 0 <= i < |chunks| :: IsChunk(chunks[i])
    requires IsSizeLine(last.size, last.extension, 0)
    requires |Encode(chunks, last, trailer)| <= MAX_SLICE
    ensures Decode(Encode(chunks, last, trailer)) == if AllUtf8(chunks, last) then Ok(Data(chunks)) else Err(NotUtf8)
  {
    forall c, more ensures ReadsChunk(ReadSize, Utf8Line, c, more) {
      SizeReads(c, more);
    }
    LastReads(last, trailer);
    DecodeEncodeAt(ReadSize, Utf8Line, chunks, last, trailer, Encode(chunks, last, trailer), 0);
    OutcomeIsData(Utf8Line, chunks, last);
  }

  /** The refusal is real: a last chunk whose extension is a semicolon and a stray byte is well
      formed and not decoded. */
  lemma ExtensionNotUtf8Refused()
    ensures var last := Chunk([48], [59, 128], []);
            IsSizeLine(last.size, last.extension, 0) && Decode(Encode([], last, [])) == Err(NotUtf8)
  {
    var last := Chunk([48], [59, 128], []);
    assert HexValue([48]) == 0;
    assert last.extension[..0] == [] && IsExtension(last.extension);
    assert DecodeUtf8([128]) == None;
    assert [59, 128][1..] == [128];
    assert DecodeUtf8([59, 128]) == None;
    AsciiPrefix([48], [59, 128]);
    DecodeEncode([], last, []);
  }

  lemma ReadSizeOf(line: seq<byte>, after: seq<byte>)
    requires HasNoCrlf(line)
    ensures ReadSize(line + ([CR, LF] + after))
            == match ParseSizeLine(line) case Err(e) => Err(e) case Ok(n) => Ok((n, |line| + 2))
  {
    CrlfAfterLine(line, after);
    assert (line + ([CR, LF] + after))[..|line|] == line;
  }

  lemma TakeChunk(c: Chunk, more: seq<byte>)
    ensures var body, start := EncodeChunk(c) + more, |c.size + c.extension| + 2;
            && |body| == start + |c.data| + 2 + |more|
            && body[start..start + |c.data|] == c.data && body[start + |c.data| + 2..] == more
  {
    var p := Piece(c.size + c.extension, c.data, [CR, LF]);
    assert EncodeChunk(c) == PieceBytes(p);
    SplitPiece(p, more);
  }

  // ---------------------------------------------------------------- bodies that end inside a chunk

  type LineParser = seq<byte> -> Result<nat, Error>

  type Decoder = (seq<byte>, nat) -> Result<seq<byte>, Error>

  /** A chunk as the decoder takes it off the front of a body: a size line, the data, and two
      bytes after it that the decoder skips without looking at them. */
  datatype Piece = Piece(line: seq<byte>, data: seq<byte>, skipped: seq<byte>)

  ghost predicate IsPiece(parse: LineParser, p: Piece) {
    p.data != [] && |p.skipped| == 2 && HasNoCrlf(p.line) && parse(p.line) == Ok(|p.data|)
  }

  function PieceBytes(p: Piece): seq<byte> {
    p.line + ([CR, LF] + (p.data + p.skipped))
  }

  function Bytes(pieces: seq<Piece>): seq<byte> {
    if pieces == [] then [] else PieceBytes(pieces[0]) + Bytes(pieces[1..])
  }

  function PieceData(pieces: seq<Piece>): seq<byte> {
    if pieces == [] then [] else pieces[0].data + PieceData(pieces[1..])
  }

  lemma BytesCons(pieces: seq<Piece>, rest: seq<byte>)
    requires pieces != []
    ensures Bytes(pieces) + rest == PieceBytes(pieces[0]) + (Bytes(pieces[1..]) + rest)
    ensures |Bytes(pieces)| == |PieceBytes(pieces[0])| + |Bytes(pieces[1..])|
    ensures PieceData(pieces) == pieces[0].data + PieceData(pieces[1..])
  {
    Reassociate(PieceBytes(pieces[0]), Bytes(pieces[1..]), rest);
  }

  lemma Reassociate(a: seq<byte>, b: seq<byte>, c: seq<byte>)
    ensures (a + b) + c == a + (b + c)
  {
  }

  lemma SplitPiece(p: Piece, more: seq<byte>)
    requires |p.skipped| == 2
    ensures var body, start := PieceBytes(p) + more, |p.line| + 2;
            && |body| == start + |p.data| + 2 + |more|
            && body[start..start + |p.data|] == p.data && body[start + |p.data| + 2..] == more
  {
    var body, start := PieceBytes(p) + more, |p.line| + 2;
    assert body == (p.line + [CR, LF]) + (p.data + (p.skipped + more));
    assert body[start..] == p.data + (p.skipped + more);
    assert body[start + |p.data|..] == p.skipped + more;
  }

  /** Decoding takes the piece off the front of any body. */
  ghost predicate Takes(decode: Decoder, p: Piece) {
    forall more, offset: nat | offset + |PieceBytes(p) + more| <= MAX_SLICE ::
      decode(PieceBytes(p) + more, offset) == Prepend(p.data, decode(more, offset + |PieceBytes(p)|))
  }

  lemma {:induction false} AfterPieces(decode: Decoder, pieces: seq<Piece>, rest: seq<byte>, offset: nat)
    requires forall i | 0 <= i < |pieces| :: Takes(decode, pieces[i])
    requires offset + |Bytes(pieces) + rest| <= MAX_SLICE
    ensures decode(Bytes(pieces) + rest, offset)
            == Prepend(PieceData(pieces), decode(rest, offset + |Bytes(pieces)|))
    decreases |pieces|
  {
    if pieces == [] {
      assert Bytes(pieces) + rest == rest;
      PrependNothing(decode(rest, offset));
    } else {
      var p, later := pieces[0], pieces[1..];
      BytesCons(pieces, rest);
      assert Takes(decode, p);
      AfterPieces(decode, later, rest, offset + |PieceBytes(p)|);
      PrependTwice(p.data, PieceData(later), decode(rest, offset + |Bytes(pieces)|));
    }
  }

  lemma PieceSize(p: Piece, more: seq<byte>)
    requires IsPiece(ParseSizeLine, p)
    ensures ReadSize(PieceBytes(p) + more) == Ok((|p.data|, |p.line| + 2))
  {
    assert PieceBytes(p) + more == p.line + ([CR, LF] + (p.data + p.skipped + more));
    ReadSizeOf(p.line, p.data + p.skipped + more);
  }

  lemma TakePiece(read: Reader, p: Piece, more: seq<byte>, offset: nat)
    requires p.data != [] && |p.skipped| == 2 && offset + |PieceBytes(p) + more| <= MAX_SLICE
    requires read(PieceBytes(p) + more) == Ok((|p.data|, |p.line| + 2))
    ensures DecodeRest(read, PieceBytes(p) + more, offset)
            == Prepend(p.data, DecodeRest(read, more, offset + |PieceBytes(p)|))
  {
    SplitPiece(p, more);
    DecodeData(read, PieceBytes(p) + more, p.data, more, |p.line| + 2, offset);
  }

  lemma StopsHere(read: Reader, rest: seq<byte>, start: nat, n: nat, offset: nat)
    requires read(rest) == Ok((n, start)) && 0 < n && |rest| < start + n + 2
    ensures DecodeRest(read, rest, offset)
            == if offset + start + n + 2 >= USIZE_LIMIT then Err(ArithmeticPanic) else Err(Truncated)
  {
  }

  /** A body that ends inside a chunk: pieces, a size line that announces more than is left, and
      what is left. */
  function CutShort(pieces: seq<Piece>, line: seq<byte>, tail: seq<byte>): seq<byte> {
    Bytes(pieces) + (line + ([CR, LF] + tail))
  }

  /** Such a body is refused either way: it is an arithmetic panic exactly when the position of
      the data, the announced size and two more reach 2^64, and truncated otherwise. */
  lemma CutShortOutcome(pieces: seq<Piece>, line: seq<byte>, n: nat, tail: seq<byte>)
    requires forall i | 0 <= i < |pieces| :: IsPiece(ParseSizeLine, pieces[i])
    requires HasNoCrlf(line) && ParseSizeLine(line) == Ok(n) && 0 < n && |tail| < n + 2
    requires |CutShort(pieces, line, tail)| <= MAX_SLICE
    ensures Decode(CutShort(pieces, line, tail))
            == if |Bytes(pieces)| + |line| + 2 + n + 2 >= USIZE_LIMIT then Err(ArithmeticPanic) else Err(Truncated)
  {
    var decode: Decoder := (s, o) => DecodeRest(ReadSize, s, o);
    forall i | 0 <= i < |pieces| ensures Takes(decode, pieces[i]) {
      TakesPiece(pieces[i]);
    }
    AfterPieces(decode, pieces, line + ([CR, LF] + tail), 0);
    CutHere(line, n, tail, |Bytes(pieces)|);
  }

  lemma TakesWhatItReads(read: Reader, p: Piece)
    requires p.data != [] && |p.skipped| == 2
    requires forall more :: read(PieceBytes(p) + more) == Ok((|p.data|, |p.line| + 2))
    ensures Takes((s, o) => DecodeRest(read, s, o), p)
  {
    forall more, offset: nat | offset + |PieceBytes(p) + more| <= MAX_SLICE
      ensures DecodeRest(read, PieceBytes(p) + more, offset)
              == Prepend(p.data, DecodeRest(read, more, offset + |PieceBytes(p)|))
    {
      TakePiece(read, p, more, offset);
    }
  }

  lemma TakesPiece(p: Piece)
    requires IsPiece(ParseSizeLine, p)
    ensures Takes((s, o) => DecodeRest(ReadSize, s, o), p)
  {
    forall more ensures ReadSize(PieceBytes(p) + more) == Ok((|p.data|, |p.line| + 2)) {
      PieceSize(p, more);
    }
    TakesWhatItReads(ReadSize, p);
  }

  lemma CutHere(line: seq<byte>, n: nat, tail: seq<byte>, offset: nat)
    requires HasNoCrlf(line) && ParseSizeLine(line) == Ok(n) && 0 < n && |tail| < n + 2
    ensures DecodeRest(ReadSize, line + ([CR, LF] + tail), offset)
            == if offset + |line| + 2 + n + 2 >= USIZE_LIMIT then Err(ArithmeticPanic) else Err(Truncated)
  {
    ReadSizeOf(line, tail);
    StopsHere(ReadSize, line + ([CR, LF] + tail), |line| + 2, n, offset);
  }

  /** The chunks of the RFC whose size lines are UTF-8 are pieces. */
  lemma ChunkIsPiece(c: Chunk)
    requires IsChunk(c) && Utf8Line(c) && |c.data| <= MAX_SLICE
    ensures IsPiece(ParseSizeLine, Piece(c.size + c.extension, c.data, [CR, LF]))
    ensures PieceBytes(Piece(c.size + c.extension, c.data, [CR, LF])) == EncodeChunk(c)
  {
    SizeLineRead(c.size, c.extension, |c.data|);
  }

  lemma {:induction false} CrlfFound(s: seq<byte>)
    requires FindCrlf(s).Some?
    ensures var n := FindCrlf(s).value;
            HasNoCrlf(s[..n]) && s[n] == CR && s[n + 1] == LF
    decreases |s|
  {
    var n := FindCrlf(s).value;
    if n > 0 {
      var rest := s[1..];
      CrlfFound(rest);
      forall i | 0 <= i < n - 1 ensures !(s[i] == CR && s[i + 1] == LF) {
        if i > 0 {
          assert !(rest[..n - 1][i - 1] == CR && rest[..n - 1][i] == LF);
        }
      }
    }
  }

  /** The body is pieces, a size line for which the position of its data, its size and two more
      reach 2^64, and anything after that. */
  ghost predicate Overflows(parse: LineParser, body: seq<byte>, pieces: seq<Piece>, line: seq<byte>, n: nat,
                            tail: seq<byte>, offset: nat) {
    && body == CutShort(pieces, line, tail)
    && (forall i | 0 <= i < |pieces| :: IsPiece(parse, pieces[i]))
    && HasNoCrlf(line) && parse(line) == Ok(n) && 0 < n
    && offset + |Bytes(pieces)| + |line| + 2 + n + 2 >= USIZE_LIMIT
  }

  /** What is read off the front of a body is a size line, its end, and the bytes after that. */
  ghost predicate ReadsLine(parse: LineParser, rest: seq<byte>, n: nat, start: nat) {
    && 2 <= start <= |rest| && HasNoCrlf(rest[..start - 2]) && parse(rest[..start - 2]) == Ok(n)
    && rest[start - 2] == CR && rest[start - 1] == LF
  }

  lemma SizeLineSplit(rest: seq<byte>)
    requires ReadSize(rest).Ok?
    ensures ReadsLine(ParseSizeLine, rest, ReadSize(rest).value.0, ReadSize(rest).value.1)
  {
    CrlfFound(rest);
  }

  lemma InParts(s: seq<byte>, i: nat, j: nat, k: nat, l: nat)
    requires i <= j <= k <= l <= |s|
    ensures s == s[..i] + (s[i..j] + (s[j..k] + s[k..l])) + s[l..]
  {
  }

  lemma PieceInFront(parse: LineParser, rest: seq<byte>, n: nat, start: nat) returns (p: Piece)
    requires ReadsLine(parse, rest, n, start) && 0 < n && start + n + 2 <= |rest|
    ensures IsPiece(parse, p) && rest == PieceBytes(p) + rest[start + n + 2..] && |PieceBytes(p)| == start + n + 2
    ensures p.data == rest[start..start + n]
  {
    p := Piece(rest[..start - 2], rest[start..start + n], rest[start + n..start + n + 2]);
    assert rest[start - 2..start] == [CR, LF];
    InParts(rest, start - 2, start, start + n, start + n + 2);
  }

  lemma OverflowsHere(parse: LineParser, rest: seq<byte>, n: nat, start: nat, offset: nat)
    requires ReadsLine(parse, rest, n, start) && 0 < n && offset + start + n + 2 >= USIZE_LIMIT
    ensures Overflows(parse, rest, [], rest[..start - 2], n, rest[start..], offset)
  {
    assert rest[start - 2..start] == [CR, LF];
    assert rest == rest[..start - 2] + (rest[start - 2..start] + rest[start..]);
    assert Bytes([]) + rest == rest;
  }

  lemma OverflowsLater(parse: LineParser, body: seq<byte>, p: Piece, more: seq<byte>, later: seq<Piece>, line: seq<byte>,
                       n: nat, tail: seq<byte>, offset: nat)
    requires IsPiece(parse, p) && Overflows(parse, more, later, line, n, tail, offset + |PieceBytes(p)|)
    requires body == PieceBytes(p) + more
    ensures Overflows(parse, body, [p] + later, line, n, tail, offset)
  {
    assert ([p] + later)[1..] == later;
    BytesCons([p] + later, line + ([CR, LF] + tail));
  }

  /** Whatever the reader reads, it reads off a line. */
  ghost predicate ReadsLines(read: Reader, parse: LineParser) {
    forall s :: read(s) != Err(ArithmeticPanic) && (read(s).Ok? ==> ReadsLine(parse, s, read(s).value.0, read(s).value.1))
  }

  lemma SizesAreLines()
    ensures ReadsLines(ReadSize, ParseSizeLine)
  {
    forall s | ReadSize(s).Ok? ensures ReadsLine(ParseSizeLine, s, ReadSize(s).value.0, ReadSize(s).value.1) {
      SizeLineSplit(s);
    }
  }

  lemma PanicStep(read: Reader, parse: LineParser, rest: seq<byte>, offset: nat) returns (n: nat, start: nat)
    requires ReadsLines(read, parse) && DecodeRest(read, rest, offset) == Err(ArithmeticPanic)
    ensures ReadsLine(parse, rest, n, start) && n > 0
    ensures offset + start + n + 2 < USIZE_LIMIT ==>
              && start + n + 2 <= |rest|
              && DecodeRest(read, rest[start + n + 2..], offset + start + n + 2) == Err(ArithmeticPanic)
  {
    n, start := read(rest).value.0, read(rest).value.1;
  }

  /** A panic is either this size line's or comes from behind this piece. */
  lemma PanicSplits(read: Reader, parse: LineParser, rest: seq<byte>, offset: nat)
    returns (here: bool, n: nat, start: nat, p: Piece, more: seq<byte>)
    requires ReadsLines(read, parse) && DecodeRest(read, rest, offset) == Err(ArithmeticPanic)
    ensures here ==> ReadsLine(parse, rest, n, start) && 0 < n && offset + start + n + 2 >= USIZE_LIMIT
    ensures !here ==>
              && IsPiece(parse, p) && rest == PieceBytes(p) + more && |more| < |rest|
              && DecodeRest(read, more, offset + |PieceBytes(p)|) == Err(ArithmeticPanic)
  {
    n, start := PanicStep(read, parse, rest, offset);
    here := offset + start + n + 2 >= USIZE_LIMIT;
    p, more := Piece([], [], []), [];
    if !here {
      p := PieceInFront(parse, rest, n, start);
      more := rest[start + n + 2..];
    }
  }

  lemma {:induction false} PanicOverflows(read: Reader, parse: LineParser, rest: seq<byte>, offset: nat)
    returns (pieces: seq<Piece>, line: seq<byte>, n: nat, tail: seq<byte>)
    requires ReadsLines(read, parse) && DecodeRest(read, rest, offset) == Err(ArithmeticPanic)
    ensures Overflows(parse, rest, pieces, line, n, tail, offset)
    decreases |rest|
  {
    var here, size, start, p, more := PanicSplits(read, parse, rest, offset);
    if here {
      pieces, line, n, tail := [], rest[..start - 2], size, rest[start..];
      OverflowsHere(parse, rest, size, start, offset);
    } else {
      var later: seq<Piece>;
      later, line, n, tail := PanicOverflows(read, parse, more, offset + |PieceBytes(p)|);
      OverflowsLater(parse, rest, p, more, later, line, n, tail, offset);
      pieces := [p] + later;
    }
  }

  /** Decoding panics exactly on bodies that are pieces, then a size line for which the position of
      its data, its size and two more reach 2^64, and then anything. */
  lemma PanicExactly(body: seq<byte>)
    requires |body| <= MAX_SLICE
    ensures Decode(body) == Err(ArithmeticPanic)
            <==> exists pieces, line, n, tail :: Overflows(ParseSizeLine, body, pieces, line, n, tail, 0)
  {
    if Decode(body) == Err(ArithmeticPanic) {
      SizesAreLines();
      var pieces, line, n, tail := PanicOverflows(ReadSize, ParseSizeLine, body, 0);
    }
    if pieces, line, n, tail :| Overflows(ParseSizeLine, body, pieces, line, n, tail, 0) {
      CutShortOutcome(pieces, line, n, tail);
    }
  }

  // ---------------------------------------------------------------- which bodies are accepted

  /** The body is pieces, a size line that announces nothing, and anything after that. */
  ghost predicate Ends(parse: LineParser, body: seq<byte>, pieces: seq<Piece>, line: seq<byte>, tail: seq<byte>) {
    && body == CutShort(pieces, line, tail)
    && (forall i | 0 <= i < |pieces| :: IsPiece(parse, pieces[i]))
    && HasNoCrlf(line) && parse(line) == Ok(0)
  }

  lemma EndHere(line: seq<byte>, tail: seq<byte>, offset: nat)
    requires HasNoCrlf(line) && ParseSizeLine(line) == Ok(0)
    ensures DecodeRest(ReadSize, line + ([CR, LF] + tail), offset) == Ok([])
  {
    ReadSizeOf(line, tail);
  }

  /** Such a body decodes to the data of its pieces, however it is split into them. */
  lemma EndsDecoded(body: seq<byte>, pieces: seq<Piece>, line: seq<byte>, tail: seq<byte>)
    requires Ends(ParseSizeLine, body, pieces, line, tail) && |body| <= MAX_SLICE
    ensures Decode(body) == Ok(PieceData(pieces))
  {
    var decode: Decoder := (s, o) => DecodeRest(ReadSize, s, o);
    forall i | 0 <= i < |pieces| ensures Takes(decode, pieces[i]) {
      TakesPiece(pieces[i]);
    }
    AfterPieces(decode, pieces, line + ([CR, LF] + tail), 0);
    EndHere(line, tail, |Bytes(pieces)|);
    assert PieceData(pieces) + [] == PieceData(pieces);
  }

  lemma OkStep(read: Reader, parse: LineParser, rest: seq<byte>, offset: nat, data: seq<byte>)
    returns (n: nat, start: nat, later: seq<byte>)
    requires ReadsLines(read, parse) && DecodeRest(read, rest, offset) == Ok(data)
    ensures ReadsLine(parse, rest, n, start)
    ensures n == 0 ==> data == []
    ensures n > 0 ==>
              && start + n + 2 <= |rest| && data == rest[start..start + n] + later
              && DecodeRest(read, rest[start + n + 2..], offset + start + n + 2) == Ok(later)
  {
    n, start := read(rest).value.0, read(rest).value.1;
    later := [];
    if n > 0 {
      later := DecodeRest(read, rest[start + n + 2..], offset + start + n + 2).value;
    }
  }

  lemma EndsHere(parse: LineParser, rest: seq<byte>, start: nat)
    requires ReadsLine(parse, rest, 0, start)
    ensures Ends(parse, rest, [], rest[..start - 2], rest[start..])
  {
    assert rest[start - 2..start] == [CR, LF];
    assert rest == rest[..start - 2] + (rest[start - 2..start] + rest[start..]);
    assert Bytes([]) + rest == rest;
  }

  lemma EndsLater(parse: LineParser, body: seq<byte>, p: Piece, more: seq<byte>, later: seq<Piece>, line: seq<byte>, tail: seq<byte>)
    requires IsPiece(parse, p) && Ends(parse, more, later, line, tail) && body == PieceBytes(p) + more
    ensures Ends(parse, body, [p] + later, line, tail)
    ensures PieceData([p] + later) == p.data + PieceData(later)
  {
    assert ([p] + later)[1..] == later;
    BytesCons([p] + later, line + ([CR, LF] + tail));
  }

  /** An accepted body is this piece and another accepted body. */
  ghost predicate GoesOn(read: Reader, parse: LineParser, rest: seq<byte>, offset: nat, data: seq<byte>, p: Piece,
                         more: seq<byte>, later: seq<byte>) {
    && IsPiece(parse, p) && rest == PieceBytes(p) + more && |more| < |rest| && data == p.data + later
    && DecodeRest(read, more, offset + |PieceBytes(p)|) == Ok(later)
  }

  lemma OkPiece(read: Reader, parse: LineParser, rest: seq<byte>, offset: nat, data: seq<byte>, n: nat, start: nat,
                later: seq<byte>)
    returns (p: Piece, more: seq<byte>)
    requires ReadsLine(parse, rest, n, start) && 0 < n && start + n + 2 <= |rest|
    requires data == rest[start..start + n] + later
    requires DecodeRest(read, rest[start + n + 2..], offset + start + n + 2) == Ok(later)
    ensures GoesOn(read, parse, rest, offset, data, p, more, later)
  {
    p := PieceInFront(parse, rest, n, start);
    more := rest[start + n + 2..];
  }

  /** An accepted body either ends with this size line or goes on behind this piece. */
  lemma OkSplits(read: Reader, parse: LineParser, rest: seq<byte>, offset: nat, data: seq<byte>)
    returns (here: bool, start: nat, p: Piece, more: seq<byte>, later: seq<byte>)
    requires ReadsLines(read, parse) && DecodeRest(read, rest, offset) == Ok(data)
    ensures here ==> ReadsLine(parse, rest, 0, start) && data == []
    ensures !here ==> GoesOn(read, parse, rest, offset, data, p, more, later)
  {
    var n: nat;
    n, start, later := OkStep(read, parse, rest, offset, data);
    here, p, more := n == 0, Piece([], [], []), [];
    if !here {
      p, more := OkPiece(read, parse, rest, offset, data, n, start, later);
    }
  }

  lemma {:induction false} AcceptedEnds(read: Reader, parse: LineParser, rest: seq<byte>, offset: nat, data: seq<byte>)
    returns (pieces: seq<Piece>, line: seq<byte>, tail: seq<byte>)
    requires ReadsLines(read, parse) && DecodeRest(read, rest, offset) == Ok(data)
    ensures Ends(parse, rest, pieces, line, tail) && PieceData(pieces) == data
    decreases |rest|
  {
    var here, start, p, more, later := OkSplits(read, parse, rest, offset, data);
    if here {
      pieces, line, tail := [], rest[..start - 2], rest[start..];
      EndsHere(parse, rest, start);
    } else {
      var others: seq<Piece>;
      others, line, tail := AcceptedEnds(read, parse, more, offset + |PieceBytes(p)|, later);
      EndsLater(parse, rest, p, more, others, line, tail);
      pieces := [p] + others;
    }
  }

  /** The accepted bodies are exactly those, and decoding gives the data of the pieces. */
  lemma AcceptsExactly(body: seq<byte>)
    requires |body| <= MAX_SLICE
    ensures Decode(body).Ok? <==> exists pieces, line, tail :: Ends(ParseSizeLine, body, pieces, line, tail)
    ensures forall pieces, line, tail | Ends(ParseSizeLine, body, pieces, line, tail) :: Decode(body) == Ok(PieceData(pieces))
  {
    if Decode(body).Ok? {
      SizesAreLines();
      var pieces, line, tail := AcceptedEnds(ReadSize, ParseSizeLine, body, 0, Decode(body).value);
    }
    forall pieces, line, tail | Ends(ParseSizeLine, body, pieces, line, tail) ensures Decode(body) == Ok(PieceData(pieces)) {
      EndsDecoded(body, pieces, line, tail);
    }
  }

  lemma OneDigitLine(digit: byte)
    requires IsHexDigit(digit)
    ensures HasNoCrlf([digit]) && ParseSizeLine([digit]) == Ok(HexDigit(digit))
  {
    var n := HexDigit(digit);
    assert [digit][..0] == [] && HexValue([]) == 0;
    assert HexValue([digit]) == n;
    assert [digit] + [] == [digit];
    assert DecodeUtf8([]) == Some([]);
    AsciiPrefix([digit], []);
    assert IsSizeLine([digit], [], n);
    SizeLineRead([digit], [], n);
  }

  /** Not only chunked encodings are accepted: after a chunk of one byte any two bytes will do. */
  lemma AnySkippedBytes(one: byte, x: byte, skipped: seq<byte>, zero: byte)
    requires one == 49 && zero == 48 && |skipped| == 2
    ensures Decode([one] + ([CR, LF] + ([x] + skipped)) + ([zero] + ([CR, LF] + []))) == Ok([x])
  {
    var p := Piece([one], [x], skipped);
    var body := PieceBytes(p) + ([zero] + ([CR, LF] + []));
    OneDigitLine(one);
    OneDigitLine(zero);
    assert [p][1..] == [] && Bytes([]) == [] && PieceData([]) == [];
    assert Bytes([p]) == PieceBytes(p) + [] == PieceBytes(p);
    assert PieceData([p]) == [x] + [] == [x];
    assert Ends(ParseSizeLine, body, [p], [zero], []);
    EndsDecoded(body, [p], [zero], []);
  }

  lemma OneDigitFirst(size: seq<byte>, extension: seq<byte>, n: nat, after: seq<byte>, one: byte, rest: seq<byte>)
    requires IsSizeLine(size, extension, n) && one == 49
    requires size + extension + ([CR, LF] + after) == [one] + ([CR, LF] + rest)
    ensures size + extension == [one] && n == 1 && after == rest
  {
    var line, body := size + extension, [one] + ([CR, LF] + rest);
    CrlfAfterLine(line, after);
    CrlfAfterLine([one], rest);
    assert line == body[..1] == [one];
    assert body[3..] == rest && body[|line| + 2..] == after;
    assert size == [one] && [one][..0] == [];
    assert HexValue([]) == 0 && HexValue([one]) == 1;
  }

  /** Unless those two are CR LF, the body is no encoding of anything. */
  lemma OtherwiseNoEncoding(one: byte, x: byte, skipped: seq<byte>, rest: seq<byte>,
                            chunks: seq<Chunk>, last: Chunk, trailer: seq<byte>)
    requires one == 49 && |skipped| == 2
    requires forall i | 0 <= i < |chunks| :: IsChunk(chunks[i])
    requires IsSizeLine(last.size, last.extension, 0)
    requires Encode(chunks, last, trailer) == [one] + ([CR, LF] + ([x] + skipped)) + rest
    ensures skipped == [CR, LF]
  {
    var body := [one] + ([CR, LF] + ([x] + skipped)) + rest;
    var tail := [x] + skipped + rest;
    assert body == [one] + ([CR, LF] + tail);
    if chunks == [] {
      OneDigitFirst(last.size, last.extension, 0, trailer, one, tail);
    } else {
      var c := chunks[0];
      var after := c.data + [CR, LF] + Encode(chunks[1..], last, trailer);
      assert Encode(chunks, last, trailer) == c.size + c.extension + ([CR, LF] + after);
      OneDigitFirst(c.size, c.extension, |c.data|, after, one, tail);
      assert tail[1..3] == skipped && after[1..3] == [CR, LF];
    }
  }

  // ---------------------------------------------------------------- a guard against the panic

  /** A guard to check before the call: no position of the body starts a size line that announces
      2^63 - 1 or more. */
  ghost predicate SizesFit(body: seq<byte>) {
    forall i | 0 <= i <= |body| :: ReadSize(body[i..]).Ok? ==> ReadSize(body[i..]).value.0 < MAX_SLICE
  }

  lemma NoPanicWhenSizesFit(body: seq<byte>)
    requires |body| <= MAX_SLICE && SizesFit(body)
    ensures Decode(body) != Err(ArithmeticPanic)
  {
    PanicExactly(body);
    if pieces, line, n, tail :| Overflows(ParseSizeLine, body, pieces, line, n, tail, 0) {
      var i := |Bytes(pieces)|;
      assert body[i..] == line + ([CR, LF] + tail);
      ReadSizeOf(line, tail);
    }
  }

  /** A two-line body is enough to reach it: sixteen hexadecimal digits and nothing else. */
  lemma SixteenFsPanic()
    ensures var line := seq(16, _ => 70 as byte);
            Decode(line + ([CR, LF] + [])) == Err(ArithmeticPanic)
  {
    var line := seq(16, _ => 70 as byte);
    AllFs(16, line);
    assert Pow16(4) == 0x1_0000;
    assert Pow16(8) == 0x1_0000_0000;
    assert Pow16(12) == 0x1_0000_0000_0000;
    assert Pow16(16) == USIZE_LIMIT;
    assert HexValue(line) == USIZE_LIMIT - 1;
    assert IsSizeLine(line, [], USIZE_LIMIT - 1) by {
      assert line + [] == line;
    }
    assert line + [] == line;
    AsciiPrefix(line, []);
    SizeLineRead(line, [], USIZE_LIMIT - 1);
    ReadSizeOf(line, []);
  }

  function Pow16(n: nat): nat {
    if n == 0 then 1 else 16 * Pow16(n - 1)
  }

  lemma {:induction false} HexConcat(a: seq<nat>, b: seq<nat>)
    requires AllHex(a) && AllHex(b)
    ensures AllHex(a + b) && HexValue(a + b) == HexValue(a) * Pow16(|b|) + HexValue(b)
    decreases |b|
  {
    if b == [] {
      assert a + b == a;
    } else {
      var init := b[..|b| - 1];
      HexConcat(a, init);
      assert (a + b)[..|a + b| - 1] == a + init;
      ShiftBySixteen(HexValue(a), Pow16(|init|), HexValue(init));
    }
  }

  lemma ShiftBySixteen(x: nat, p: nat, y: nat)
    ensures 16 * (x * p + y) == x * (16 * p) + 16 * y
  {
  }

  lemma OneHexDigit(c: nat)
    ensures 48 <= c <= 57 ==> AllHex([c]) && HexValue([c]) == c - 48
    ensures 65 <= c <= 70 ==> AllHex([c]) && HexValue([c]) == c - 55
    ensures 97 <= c <= 102 ==> AllHex([c]) && HexValue([c]) == c - 87
    ensures AllHex([c]) ==> 48 <= c <= 57 || 65 <= c <= 70 || 97 <= c <= 102
  {
    assert [c][..0] == [] && [c][0] == c;
    assert HexValue([]) == 0;
  }

  lemma {:induction false} AllFs(n: nat, s: seq<byte>)
    requires |s| == n && forall i | 0 <= i < n :: s[i] == 70
    ensures AllHex(s) && HexValue(s) + 1 == Pow16(n)
  {
    if n > 0 {
      AllFs(n - 1, s[..n - 1]);
    }
  }
}
