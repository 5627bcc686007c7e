/**
 * The typed wire codec of `send` and `read`: a type tag and a literal become
 * the bytes that `DataOutputStream` writes, and the bytes available on the
 * input stream become the value that `DataInputStream` returns. Every encoding
 * is big-endian. `float` and `double` are recognised but not modelled.
 */
module Codec {
  import opened Wrappers
  import opened JavaText
  import opened Literals

  /** One unsigned octet on the wire. */
  type Byte = b: int | 0 <= b < 0x100

  datatype TypeTag =
    | UtfStringTag | FloatTag | IntTag | LongTag | ByteTag
    | ByteStringTag | DoubleTag | BooleanTag | Char16Tag | Char8Tag

  /** The name the user types for each tag, matched ignoring case. */
  function Keyword(t: TypeTag): JString {
    match t
    case UtfStringTag => Lit("utfstring")
    case FloatTag => Lit("float")
    case IntTag => Lit("int")
    case LongTag => Lit("long")
    case ByteTag => Lit("byte")
    case ByteStringTag => Lit("bytestring")
    case DoubleTag => Lit("double")
    case BooleanTag => Lit("boolean")
    case Char16Tag => Lit("char16")
    case Char8Tag => Lit("char8")
  }

  lemma KeywordInjective(t1: TypeTag, t2: TypeTag)
    requires Keyword(t1) == Keyword(t2)
    ensures t1 == t2
  {
    var k := Keyword(t1);
    assert |k| == |Keyword(t2)|;
    if |k| == 9 || |k| == 5 || |k| == 4 || |k| == 6 || |k| == 10 {
      assert k[0] == Keyword(t2)[0];
      assert k[1] == Keyword(t2)[1];
    }
  }

  /** The chain of case-insensitive comparisons that `send` and `read` make, in source order. */
  function ParseTag(name: JString): (r: Option<TypeTag>)
    ensures forall t :: r == Some(t) <==> MatchesKeyword(name, Keyword(t))
  {
    var r :=
      if MatchesKeyword(name, Keyword(UtfStringTag)) then Some(UtfStringTag)
      else if MatchesKeyword(name, Keyword(FloatTag)) then Some(FloatTag)
      else if MatchesKeyword(name, Keyword(IntTag)) then Some(IntTag)
      else if MatchesKeyword(name, Keyword(LongTag)) then Some(LongTag)
      else if MatchesKeyword(name, Keyword(ByteTag)) then Some(ByteTag)
      else if MatchesKeyword(name, Keyword(ByteStringTag)) then Some(ByteStringTag)
      else if MatchesKeyword(name, Keyword(DoubleTag)) then Some(DoubleTag)
      else if MatchesKeyword(name, Keyword(BooleanTag)) then Some(BooleanTag)
      else if MatchesKeyword(name, Keyword(Char16Tag)) then Some(Char16Tag)
      else if MatchesKeyword(name, Keyword(Char8Tag)) then Some(Char8Tag)
      else None;
    assert forall t :: MatchesKeyword(name, Keyword(t)) ==> r == Some(t) by {
      forall t | MatchesKeyword(name, Keyword(t)) ensures r == Some(t) {
        assert r.Some? && MatchesKeyword(name, Keyword(r.value));
        KeywordMatchUnique(name, Keyword(t), Keyword(r.value));
        KeywordInjective(t, r.value);
      }
    }
    r
  }

  // ---------------------------------------------------------------------
  // Fixed-width integers: `writeInt`, `writeLong`, `writeByte` and their readers.

  function Pow256(width: nat): (p: nat)
    ensures p >= 1
  {
    if width == 0 then 1 else 256 * Pow256(width - 1)
  }

  lemma Pow256Values()
    ensures Pow256(1) == 0x100 && Pow256(2) == 0x1_0000
    ensures Pow256(4) == 0x1_0000_0000
    ensures Pow256(8) == 0x1_0000_0000_0000_0000
  {
    assert Pow256(2) == 0x1_0000;
    assert Pow256(4) == 0x1_0000_0000;
    assert Pow256(6) == 0x1_0000_0000_0000;
  }

  /** The `width` low-order bytes of `n`, most significant first. */
  function BigEndian(n: nat, width: nat): (r: seq<Byte>)
    requires n < Pow256(width)
    ensures |r| == width
  {
    if width == 0 then [] else BigEndian(n / 256, width - 1) + [n % 256]
  }

  /** The unsigned number that bytes spell, most significant first. */
  function UnsignedValue(b: seq<Byte>): (n: nat)
    ensures n < Pow256(|b|)
  {
    if b == [] then 0 else UnsignedValue(b[..|b| - 1]) * 256 + b[|b| - 1]
  }

  lemma {:induction false} UnsignedBigEndian(n: nat, width: nat)
    requires n < Pow256(width)
    ensures UnsignedValue(BigEndian(n, width)) == n
  {
    if width > 0 {
      var b := BigEndian(n, width);
      assert b[..|b| - 1] == BigEndian(n / 256, width - 1);
      UnsignedBigEndian(n / 256, width - 1);
    }
  }

  lemma {:induction false} BigEndianUnsigned(b: seq<Byte>)
    ensures BigEndian(UnsignedValue(b), |b|) == b
  {
    if b != [] {
      var p := b[..|b| - 1];
      BigEndianUnsigned(p);
      var n := UnsignedValue(b);
      assert n / 256 == UnsignedValue(p) && n % 256 == b[|b| - 1];
      assert b == p + [b[|b| - 1]];
    }
  }

  /** Two's complement in `width` bytes, as `DataOutputStream` writes an integer of that width. */
  function TwosComplement(v: int, width: nat): (r: seq<Byte>)
    requires 1 <= width && -(Pow256(width) / 2) <= v < Pow256(width) / 2
    ensures |r| == width
  {
    BigEndian(if v >= 0 then v else v + Pow256(width), width)
  }

  /** The signed integer that bytes spell in two's complement, as `DataInputStream` reads it. */
  function SignedValue(b: seq<Byte>): (v: int)
    requires |b| >= 1
    ensures -(Pow256(|b|) / 2) <= v < Pow256(|b|) / 2
  {
    var u := UnsignedValue(b);
    if u >= Pow256(|b|) / 2 then u - Pow256(|b|) else u
  }

  lemma Pow256Even(width: nat)
    requires width >= 1
    ensures Pow256(width) == 2 * (Pow256(width) / 2)
  {
  }

  /** Reading back what was written gives the integer back. */
  lemma SignedTwosComplement(v: int, width: nat)
    requires 1 <= width && -(Pow256(width) / 2) <= v < Pow256(width) / 2
    ensures SignedValue(TwosComplement(v, width)) == v
  {
    Pow256Even(width);
    UnsignedBigEndian(if v >= 0 then v else v + Pow256(width), width);
  }

  /** Writing back what was read gives the bytes back: every byte pattern is some integer. */
  lemma TwosComplementSigned(b: seq<Byte>)
    requires |b| >= 1
    ensures TwosComplement(SignedValue(b), |b|) == b
  {
    Pow256Even(|b|);
    BigEndianUnsigned(b);
  }

  // ---------------------------------------------------------------------
  // Characters and the byte string.

  /** `(char) b` for the signed Java byte whose bits are `b`: bytes from 0x80 up extend to 0xFF80..0xFFFF. */
  function SignExtend(b: Byte): (c: CodeUnit)
    ensures c % 256 == b
    ensures c / 256 == if b < 0x80 then 0 else 0xFF
    ensures c == b <==> b < 0x80
  {
    if b < 0x80 then b else 0xFF00 + b
  }

  /** `(byte) c`: the low byte of a code unit. */
  function LowByte(c: CodeUnit): Byte { c % 256 }

  function LowBytes(s: JString): (r: seq<Byte>)
    ensures |r| == |s| && forall i :: 0 <= i < |s| ==> r[i] == LowByte(s[i])
  {
    seq(|s|, i requires 0 <= i < |s| => LowByte(s[i]))
  }

  function SignExtendAll(b: seq<Byte>): (r: JString)
    ensures |r| == |b| && forall i :: 0 <= i < |b| ==> r[i] == SignExtend(b[i])
  {
    seq(|b|, i requires 0 <= i < |b| => SignExtend(b[i]))
  }

  /** The bytes `send bytestring` writes: one low byte per code unit, then the 0x00 sentinel. */
  function EncodeByteString(s: JString): (r: seq<Byte>)
    ensures |r| == |s| + 1 && r[|s|] == 0
    ensures r[..|s|] == LowBytes(s)
  {
    LowBytes(s) + [0]
  }

  /** The position of the first 0x00 byte, or the length when there is none. */
  function FirstZero(b: seq<Byte>): (z: nat)
    ensures z <= |b|
    ensures forall i :: 0 <= i < z ==> b[i] != 0
    ensures z < |b| ==> b[z] == 0
  {
    if b == [] || b[0] == 0 then 0 else 1 + FirstZero(b[1..])
  }

  // ---------------------------------------------------------------------
  // Java's modified UTF-8 (`writeUTF` / `readUTF`).

  /** Bytes per code unit: 0x0001..0x007F take one, 0x0000 and 0x0080..0x07FF two, the rest three. */
  function UtfLength(c: CodeUnit): nat {
    if 0x0001 <= c <= 0x007F then 1 else if c <= 0x07FF then 2 else 3
  }

  function UtfByteCount(s: JString): nat {
    if s == [] then 0 else UtfLength(s[0]) + UtfByteCount(s[1..])
  }

  /** The modified UTF-8 bytes of one code unit (the masks and shifts of `writeUTF`). */
  function EncodeUnit(c: CodeUnit): (r: seq<Byte>)
    ensures |r| == UtfLength(c)
    ensures UtfLength(c) == 1 ==> r[0] == c
    ensures UtfLength(c) == 2 ==> 0xC0 <= r[0] < 0xE0 && 0x80 <= r[1] < 0xC0
    ensures UtfLength(c) == 3 ==> 0xE0 <= r[0] < 0xF0 && 0x80 <= r[1] < 0xC0 && 0x80 <= r[2] < 0xC0
  {
    if 0x0001 <= c <= 0x007F then [c]
    else if c <= 0x07FF then [0xC0 + c / 0x40, 0x80 + c % 0x40]
    else [0xE0 + c / 0x1000, 0x80 + (c / 0x40) % 0x40, 0x80 + c % 0x40]
  }

  function ModifiedUtf8(s: JString): seq<Byte> {
    if s == [] then [] else EncodeUnit(s[0]) + ModifiedUtf8(s[1..])
  }

  lemma {:induction false} ModifiedUtf8Length(s: JString)
    ensures |ModifiedUtf8(s)| == UtfByteCount(s)
  {
    if s != [] {
      ModifiedUtf8Length(s[1..]);
    }
  }

  datatype SendError =
    | NumberFormat      // `valueOf` threw NumberFormatException
    | CharLength        // a char tag was given other than one character
    | TooLong(utflen: nat)  // `writeUTF` threw: the encoding exceeds 65535 bytes
    | NotModelled       // `float` and `double`

  datatype Encoded = Bytes(bytes: seq<Byte>) | Rejected(why: SendError)

  /** `writeUTF`: the two-byte length, then the modified UTF-8 bytes; refused beyond 65535 bytes. */
  function EncodeUtf(s: JString): (r: Encoded)
    ensures r.Rejected? <==> UtfByteCount(s) > 0xFFFF
    ensures r.Rejected? ==> r.why == TooLong(UtfByteCount(s))
    ensures r.Bytes? ==>
      |r.bytes| == 2 + UtfByteCount(s) &&
      (r.bytes[0] as int) * 256 + r.bytes[1] == UtfByteCount(s) &&
      r.bytes[2..] == ModifiedUtf8(s)
  {
    ModifiedUtf8Length(s);
    var body := ModifiedUtf8(s);
    if |body| > 0xFFFF then Rejected(TooLong(|body|))
    else Bytes([|body| / 256, |body| % 256] + body)
  }

  function Prepend(c: CodeUnit, rest: Option<JString>): Option<JString> {
    match rest
    case Some(s) => Some([c] + s)
    case None => None
  }

  /** `readUTF`'s decoding loop over the bytes of one string; None is a UTFDataFormatException. */
  function DecodeModifiedUtf8(b: seq<Byte>): (r: Option<JString>)
    ensures r.Some? ==> |r.value| <= |b| <= 3 * |r.value|
    ensures (forall i :: 0 <= i < |b| ==> b[i] < 0x80) ==> r == Some(b)
    decreases |b|
  {
    if b == [] then Some([])
    else
      var c: int := b[0];
      if c < 0x80 then assert b == [b[0]] + b[1..]; Prepend(c, DecodeModifiedUtf8(b[1..]))
      else if c / 0x10 == 0xC || c / 0x10 == 0xD then
        if |b| < 2 || b[1] / 0x40 != 2 then None
        else Prepend((c % 0x20) * 0x40 + (b[1] as int) % 0x40, DecodeModifiedUtf8(b[2..]))
      else if c / 0x10 == 0xE then
        if |b| < 3 || b[1] / 0x40 != 2 || b[2] / 0x40 != 2 then None
        else Prepend((c % 0x10) * 0x1000 + ((b[1] as int) % 0x40) * 0x40 + (b[2] as int) % 0x40, DecodeModifiedUtf8(b[3..]))
      else None
  }

  lemma DecodeTwoByteUnit(c: CodeUnit)
    requires UtfLength(c) == 2
    ensures var b := EncodeUnit(c);
      (b[0] as int) / 0x10 == 0xC || (b[0] as int) / 0x10 == 0xD
    ensures var b := EncodeUnit(c);
      ((b[0] as int) % 0x20) * 0x40 + (b[1] as int) % 0x40 == c
  {
    var hi, lo := c / 0x40, c % 0x40;
    assert c == hi * 0x40 + lo;
    assert (0xC0 + hi) % 0x20 == hi;
    assert (0x80 + lo) % 0x40 == lo;
  }

  lemma DecodeThreeByteUnit(c: CodeUnit)
    requires UtfLength(c) == 3
    ensures var b := EncodeUnit(c); (b[0] as int) / 0x10 == 0xE
    ensures var b := EncodeUnit(c);
      ((b[0] as int) % 0x10) * 0x1000 + ((b[1] as int) % 0x40) * 0x40 + (b[2] as int) % 0x40 == c
  {
    var top, mid, lo := c / 0x1000, (c / 0x40) % 0x40, c % 0x40;
    assert c / 0x40 == top * 0x40 + mid;
    assert c == (c / 0x40) * 0x40 + lo;
    assert (0xE0 + top) % 0x10 == top;
    assert (0x80 + mid) % 0x40 == mid;
    assert (0x80 + lo) % 0x40 == lo;
  }

  lemma DecodeUnit(c: CodeUnit, rest: seq<Byte>)
    ensures DecodeModifiedUtf8(EncodeUnit(c) + rest) == Prepend(c, DecodeModifiedUtf8(rest))
  {
    var b := EncodeUnit(c) + rest;
    var n := UtfLength(c);
    assert b[n..] == rest;
    if n == 2 {
      DecodeTwoByteUnit(c);
    } else if n == 3 {
      DecodeThreeByteUnit(c);
    }
  }

  /** `readUTF` decodes what `writeUTF` encodes. */
  lemma {:induction false} DecodeModifiedUtf8RoundTrip(s: JString)
    ensures DecodeModifiedUtf8(ModifiedUtf8(s)) == Some(s)
  {
    if s != [] {
      DecodeUnit(s[0], ModifiedUtf8(s[1..]));
      DecodeModifiedUtf8RoundTrip(s[1..]);
      assert [s[0]] + s[1..] == s;
    }
  }

  // ---------------------------------------------------------------------
  // `send`: a tag and a literal to bytes.

  /** `Boolean.valueOf`: true exactly for "true" in any case; it never fails. */
  function ParseBoolean(data: JString): (b: bool)
    ensures b ==> |data| == 4
    ensures data == Lit("true") || data == Lit("TRUE") || data == Lit("True") ==> b
    ensures data == Lit("false") ==> !b
  {
    MatchesKeyword(data, Lit("true"))
  }

  /** What `send` hands to the output stream for a tag and a literal, or why it writes nothing. */
  function Encode(t: TypeTag, data: JString): (r: Encoded)
    ensures t == FloatTag || t == DoubleTag ==> r == Rejected(NotModelled)
    ensures t == BooleanTag || t == ByteStringTag ==> r.Bytes?
    ensures r.Bytes? && IsIntegerTag(t) ==> |r.bytes| == Width(t)
    ensures r.Bytes? && t == BooleanTag ==> |r.bytes| == 1 && r.bytes[0] <= 1
    ensures r.Bytes? && t == Char8Tag ==> |r.bytes| == 1
    ensures r.Bytes? && t == Char16Tag ==> |r.bytes| == 2
    ensures r.Bytes? && t == ByteStringTag ==> |r.bytes| == |data| + 1 && r.bytes[|data|] == 0
    ensures r.Bytes? && t == UtfStringTag ==> |r.bytes| == 2 + UtfByteCount(data) <= 2 + 0xFFFF
  {
    match t
    case UtfStringTag => EncodeUtf(data)
    case FloatTag => Rejected(NotModelled)
    case IntTag =>
      (match ParseInt(data)
       case Some(v) => Pow256Values(); Bytes(TwosComplement(v, 4))
       case None => Rejected(NumberFormat))
    case LongTag =>
      (match ParseLong(data)
       case Some(v) => Pow256Values(); Bytes(TwosComplement(v, 8))
       case None => Rejected(NumberFormat))
    case ByteTag =>
      (match ParseByte(data)
       case Some(v) => Pow256Values(); Bytes(TwosComplement(v, 1))
       case None => Rejected(NumberFormat))
    case ByteStringTag => Bytes(EncodeByteString(data))
    case DoubleTag => Rejected(NotModelled)
    case BooleanTag => Bytes([if ParseBoolean(data) then 1 else 0])
    case Char16Tag => if |data| != 1 then Rejected(CharLength) else Bytes([data[0] / 256, data[0] % 256])
    case Char8Tag => if |data| != 1 then Rejected(CharLength) else Bytes([LowByte(data[0])])
  }

  // ---------------------------------------------------------------------
  // `read`: the available bytes to a value.

  /** What `read` prints after "Read: ". */
  datatype Value =
    | Number(n: int)
    | Truth(b: bool)
    | Character(c: CodeUnit)
    | Text(s: JString)

  /**
   * One read from the bytes available on the input stream. `Got` consumed
   * `used` bytes. `Exhausted` is end of stream or the read timeout: the model
   * cannot tell them apart, and either way every available byte is consumed;
   * `shown` is what the byte-string loop had already printed. `Malformed` is
   * `readUTF` rejecting its `used` bytes.
   */
  datatype ReadStep =
    | Got(value: Value, used: nat)
    | Exhausted(shown: JString)
    | Malformed(used: nat)
    | NotModelledRead

  /** `readInt`, `readLong`, `readByte`: `width` bytes in two's complement. */
  function ReadFixed(avail: seq<Byte>, width: nat): (r: ReadStep)
    requires width >= 1
    ensures r.Got? <==> |avail| >= width
    ensures r.Got? ==> r.used == width && r.value == Number(SignedValue(avail[..width]))
  {
    if |avail| < width then Exhausted([]) else Got(Number(SignedValue(avail[..width])), width)
  }

  /** The length N in the first two bytes of a `writeUTF` record (0 when fewer than two are available). */
  function UtfPrefix(avail: seq<Byte>): nat {
    if |avail| < 2 then 0 else (avail[0] as int) * 256 + avail[1]
  }

  /** `readUTF`: a two-byte length N, then N bytes of modified UTF-8. */
  function ReadUtf(avail: seq<Byte>): (r: ReadStep)
    ensures r.Got? || r.Malformed? || r.Exhausted?
    ensures r.Exhausted? <==> |avail| < 2 || |avail| < 2 + UtfPrefix(avail)
    ensures r.Exhausted? ==> r.shown == []
    ensures r.Got? || r.Malformed? ==>
      |avail| >= 2 && r.used == 2 + UtfPrefix(avail) && r.used <= |avail|
    ensures r.Malformed? <==> |avail| >= 2 + UtfPrefix(avail) && DecodeModifiedUtf8(avail[2..2 + UtfPrefix(avail)]).None?
    ensures r.Got? ==> r.value == Text(DecodeModifiedUtf8(avail[2..r.used]).value)
  {
    if |avail| < 2 then Exhausted([])
    else
      var n := (avail[0] as int) * 256 + avail[1];
      if |avail| < 2 + n then Exhausted([])
      else
        match DecodeModifiedUtf8(avail[2..2 + n])
        case Some(s) => Got(Text(s), 2 + n)
        case None => Malformed(2 + n)
  }

  /** The byte-string loop: bytes up to and including the first 0x00, each shown as `(char)` of a signed byte. */
  function ScanByteString(avail: seq<Byte>): (r: ReadStep)
    ensures r.Got? <==> 0 in avail
    ensures r.Got? ==> r.used == FirstZero(avail) + 1 && r.value == Text(SignExtendAll(avail[..FirstZero(avail)]))
    ensures r.Exhausted? ==> r.shown == SignExtendAll(avail)
  {
    var z := FirstZero(avail);
    if z < |avail| then Got(Text(SignExtendAll(avail[..z])), z + 1)
    else
      assert 0 !in avail by {
        forall i | 0 <= i < |avail| ensures avail[i] != 0 { }
      }
      Exhausted(SignExtendAll(avail))
  }

  /** What `read` takes from the available input for a tag. */
  function ReadFrom(t: TypeTag, avail: seq<Byte>): (r: ReadStep)
    ensures r.Got? || r.Malformed? ==> 1 <= r.used <= |avail|
    ensures r == NotModelledRead <==> t == FloatTag || t == DoubleTag
    ensures r.Malformed? ==> t == UtfStringTag
    ensures IsIntegerTag(t) ==> (r.Got? <==> |avail| >= Width(t)) && (r.Got? ==> r.used == Width(t))
    ensures t == BooleanTag || t == Char8Tag ==> (r.Got? <==> |avail| >= 1) && (r.Got? ==> r.used == 1)
    ensures t == Char16Tag ==> (r.Got? <==> |avail| >= 2) && (r.Got? ==> r.used == 2)
    ensures t == ByteStringTag ==> (r.Got? <==> 0 in avail)
  {
    match t
    case UtfStringTag => ReadUtf(avail)
    case FloatTag => NotModelledRead
    case IntTag => ReadFixed(avail, 4)
    case LongTag => ReadFixed(avail, 8)
    case ByteTag => ReadFixed(avail, 1)
    case ByteStringTag => ScanByteString(avail)
    case DoubleTag => NotModelledRead
    case BooleanTag => if |avail| < 1 then Exhausted([]) else Got(Truth(avail[0] != 0), 1)
    case Char16Tag => if |avail| < 2 then Exhausted([]) else Got(Character((avail[0] as int) * 256 + avail[1]), 2)
    case Char8Tag => if |avail| < 1 then Exhausted([]) else Got(Character(SignExtend(avail[0])), 1)
  }

  // ---------------------------------------------------------------------
  // Properties of the codec.

  /** Bytes per tag for the fixed-width integers. */
  function Width(t: TypeTag): nat {
    match t
    case IntTag => 4
    case LongTag => 8
    case _ => 1
  }

  predicate IsIntegerTag(t: TypeTag) {
    t == IntTag || t == LongTag || t == ByteTag
  }

  /** The `valueOf` each integer tag parses its literal with. */
  function ParseFor(t: TypeTag, data: JString): Option<int>
    requires IsIntegerTag(t)
  {
    match t
    case IntTag => ParseInt(data)
    case LongTag => ParseLong(data)
    case _ => ParseByte(data)
  }

  lemma RangeWidth(t: TypeTag)
    requires IsIntegerTag(t)
    ensures t == IntTag ==> Pow256(Width(t)) / 2 == IntMax + 1 && -(Pow256(Width(t)) / 2) == IntMin
    ensures t == LongTag ==> Pow256(Width(t)) / 2 == LongMax + 1 && -(Pow256(Width(t)) / 2) == LongMin
    ensures t == ByteTag ==> Pow256(Width(t)) / 2 == ByteMax + 1 && -(Pow256(Width(t)) / 2) == ByteMin
  {
    Pow256Values();
  }

  /**
   * `int`, `long` and `byte` write exactly 4, 8 and 1 bytes when the literal
   * parses in range, and those bytes read back as the literal's value; every
   * other literal writes nothing.
   */
  lemma IntegerSendThenRead(t: TypeTag, data: JString, rest: seq<Byte>)
    requires IsIntegerTag(t)
    ensures Encode(t, data).Bytes? <==> ParseFor(t, data).Some?
    ensures Encode(t, data).Rejected? ==> Encode(t, data).why == NumberFormat
    ensures Encode(t, data).Bytes? ==>
      |Encode(t, data).bytes| == Width(t) &&
      ReadFrom(t, Encode(t, data).bytes + rest) == Got(Number(ParseFor(t, data).value), Width(t))
  {
    var e := Encode(t, data);
    if e.Bytes? {
      RangeWidth(t);
      var v := ParseFor(t, data).value;
      assert e.bytes == TwosComplement(v, Width(t));
      SignedTwosComplement(v, Width(t));
      assert (e.bytes + rest)[..Width(t)] == e.bytes;
    }
  }

  /** Every value a fixed-width read returns is written back, in decimal, as the same bytes. */
  lemma IntegerReadThenSend(t: TypeTag, b: seq<Byte>)
    requires IsIntegerTag(t) && |b| == Width(t)
    ensures ReadFrom(t, b).Got?
    ensures Encode(t, FormatDecimal(SignedValue(b))) == Bytes(b)
  {
    RangeWidth(t);
    var v := SignedValue(b);
    ParseFormatDecimal(v);
    TwosComplementSigned(b);
    assert b[..Width(t)] == b;
  }

  /** `send int 42` writes 00 00 00 2A. */
  lemma SendInt42()
    ensures Encode(IntTag, Lit("42")) == Bytes([0x00, 0x00, 0x00, 0x2A])
  {
    var d := Lit("42");
    assert d == ['4' as int, '2' as int];
    assert Unsigned(d) == d;
    assert d[..1] == ['4' as int];
    assert DigitsValue(d) == 42;
    Pow256Values();
    assert TwosComplement(42, 4) == BigEndian(42, 4);
    assert BigEndian(0, 3) == [0, 0, 0];
  }

  /** `bytestring` writes one byte per code unit and then a single 0x00. */
  lemma ByteStringLayout(data: JString)
    ensures Encode(ByteStringTag, data) == Bytes(LowBytes(data) + [0])
    ensures |Encode(ByteStringTag, data).bytes| == |data| + 1
  {
  }

  /**
   * Reading a byte string back stops at the sentinel and yields each byte
   * sign-extended, provided no code unit has a zero low byte.
   */
  lemma {:induction false} ByteStringSendThenRead(data: JString, rest: seq<Byte>)
    requires forall i :: 0 <= i < |data| ==> LowByte(data[i]) != 0
    ensures ReadFrom(ByteStringTag, Encode(ByteStringTag, data).bytes + rest) ==
      Got(Text(SignExtendAll(LowBytes(data))), |data| + 1)
  {
    var b := EncodeByteString(data) + rest;
    assert b[..|data|] == LowBytes(data);
    assert b[|data|] == 0;
    assert 0 in b;
    var z := FirstZero(b);
    assert z == |data|;
  }

  /** So a text of code units 0x01..0x7F comes back unchanged. */
  lemma ByteStringAsciiRoundTrip(data: JString, rest: seq<Byte>)
    requires forall i :: 0 <= i < |data| ==> 0x01 <= data[i] <= 0x7F
    ensures ReadFrom(ByteStringTag, Encode(ByteStringTag, data).bytes + rest) == Got(Text(data), |data| + 1)
  {
    ByteStringSendThenRead(data, rest);
    assert SignExtendAll(LowBytes(data)) == data;
  }

  /**
   * `send bytestring` does not reject a code unit whose low byte is zero (NUL
   * among them): it is written, and reading back stops there.
   */
  lemma ByteStringEmbeddedNul(front: JString, c: CodeUnit, back: JString, rest: seq<Byte>)
    requires forall i :: 0 <= i < |front| ==> LowByte(front[i]) != 0
    requires LowByte(c) == 0
    ensures Encode(ByteStringTag, front + [c] + back).Bytes?
    ensures ReadFrom(ByteStringTag, Encode(ByteStringTag, front + [c] + back).bytes + rest) ==
      Got(Text(SignExtendAll(LowBytes(front))), |front| + 1)
  {
    var data := front + [c] + back;
    var b := EncodeByteString(data) + rest;
    assert b[|front|] == 0;
    assert 0 in b;
    var z := FirstZero(b);
    assert z == |front|;
    assert b[..z] == LowBytes(front);
  }

  /** `boolean` never fails, writes 0x01 exactly for "true" in any case, and any nonzero byte reads as true. */
  lemma BooleanSendThenRead(data: JString, b: Byte, rest: seq<Byte>)
    ensures Encode(BooleanTag, data) == Bytes([if MatchesKeyword(data, Lit("true")) then 0x01 else 0x00])
    ensures ReadFrom(BooleanTag, Encode(BooleanTag, data).bytes + rest) == Got(Truth(MatchesKeyword(data, Lit("true"))), 1)
    ensures ReadFrom(BooleanTag, [b] + rest) == Got(Truth(b != 0), 1)
  {
  }

  /** `char16` and `char8` need exactly one character and write nothing otherwise. */
  lemma CharLengthChecked(t: TypeTag, data: JString)
    requires t == Char16Tag || t == Char8Tag
    ensures Encode(t, data).Rejected? <==> |data| != 1
    ensures Encode(t, data).Rejected? ==> Encode(t, data).why == CharLength
  {
  }

  /** `char16` writes the code unit big-endian and reads it back unchanged. */
  lemma Char16SendThenRead(data: JString, rest: seq<Byte>)
    requires |data| == 1
    ensures Encode(Char16Tag, data) == Bytes([data[0] / 256, data[0] % 256])
    ensures ReadFrom(Char16Tag, Encode(Char16Tag, data).bytes + rest) == Got(Character(data[0]), 2)
  {
  }

  /** `char8` writes the low byte; reading sign-extends it, so code units 0x00..0x7F come back unchanged. */
  lemma Char8SendThenRead(data: JString, rest: seq<Byte>)
    requires |data| == 1
    ensures Encode(Char8Tag, data) == Bytes([LowByte(data[0])])
    ensures ReadFrom(Char8Tag, Encode(Char8Tag, data).bytes + rest) == Got(Character(SignExtend(LowByte(data[0]))), 1)
    ensures data[0] <= 0x7F ==> ReadFrom(Char8Tag, Encode(Char8Tag, data).bytes + rest) == Got(Character(data[0]), 1)
  {
  }

  /**
   * `utfstring` writes a two-byte big-endian length N and N bytes of modified
   * UTF-8, nothing at all when N exceeds 65535, and reads back the same text.
   */
  lemma UtfSendThenRead(s: JString, rest: seq<Byte>)
    ensures Encode(UtfStringTag, s).Rejected? <==> UtfByteCount(s) > 0xFFFF
    ensures Encode(UtfStringTag, s).Bytes? ==>
      ReadFrom(UtfStringTag, Encode(UtfStringTag, s).bytes + rest) == Got(Text(s), 2 + UtfByteCount(s))
  {
    var e := EncodeUtf(s);
    if e.Bytes? {
      var b := e.bytes + rest;
      var n := UtfByteCount(s);
      assert (b[0] as int) * 256 + b[1] == n;
      assert b[2..2 + n] == ModifiedUtf8(s);
      DecodeModifiedUtf8RoundTrip(s);
    }
  }

  /** Byte counts of modified UTF-8 per code unit class. */
  lemma {:induction false} UtfByteCountBounds(s: JString)
    ensures |s| <= UtfByteCount(s) <= 3 * |s|
    ensures (forall i :: 0 <= i < |s| ==> 0x01 <= s[i] <= 0x7F) ==> UtfByteCount(s) == |s|
  {
    if s != [] {
      UtfByteCountBounds(s[1..]);
    }
  }
}
