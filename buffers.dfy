/** Byte-level accessors over a block of MODBUS registers (src/buffers.ts).

    A register block arrives as a byte buffer whose byte 0 is the high byte of
    the register numbered `startRegister`. Registers are 16-bit big-endian
    words (section 4.2 of the MODBUS Application Protocol Specification
    V1.1b3); a 32-bit value spans two consecutive registers, high word first.
    Every accessor locates its field through `OffsetOf`. */
module Buffers {

  type byte = b: int | 0 <= b < 256

  datatype Option<+T> = None | Some(value: T)

  datatype Signedness = Signed | Unsigned

  /** The three ways an accessor fails. */
  datatype Error =
      /** `offsetOf` rejected the register (src/buffers.ts:12-16). */
    | BadOffset(bufferLength: nat, startRegister: int, register: int)
      /** `numberAt` was asked for a width other than 1 or 2 registers. */
    | BadNumberRequest(length: int, signed: Signedness)
      /** Node's `Buffer.readXX` found fewer than `width` bytes at `offset`. */
    | ReadOutOfRange(offset: nat, width: nat, bufferLength: nat)

  datatype Result<+T> = Ok(value: T) | Err(error: Error) {
    predicate IsFailure() { Err? }
    function PropagateFailure<U>(): Result<U> requires Err? { Err(error) }
    function Extract(): T requires Ok? { value }
  }

  function Min(a: int, b: int): (m: int)
    ensures m <= a && m <= b && (m == a || m == b)
  {
    if a <= b then a else b
  }

  function Pow(base: nat, exp: nat): (r: nat)
    ensures base > 0 ==> r > 0
  {
    if exp == 0 then 1 else base * Pow(base, exp - 1)
  }

  lemma PowersOf256()
    ensures Pow(256, 2) == 65536 && Pow(256, 4) == 4294967296
  {
    assert Pow(256, 1) == 256;
    assert Pow(256, 3) == 16777216;
  }

  // ---------------------------------------------------------------------
  // offsetOf

  /** Byte offset of `register` in a block starting at `startRegister`;
      the single bounds check of the accessors. It checks the first byte
      only: a wider read starting inside the buffer may still run past it. */
  function OffsetOf(buffer: seq<byte>, startRegister: int, register: int): (r: Result<nat>)
    ensures r.Ok? <==> startRegister <= register && 2 * (register - startRegister) < |buffer|
    ensures r.Ok? ==> r.value == 2 * (register - startRegister) && r.value % 2 == 0
    ensures r.Err? ==> r.error == BadOffset(|buffer|, startRegister, register)
  {
    var offset := (register - startRegister) * 2;
    if offset < 0 || offset >= |buffer| then
      Err(BadOffset(|buffer|, startRegister, register))
    else
      Ok(offset)
  }

  /** Stated on registers: `offsetOf` accepts exactly the registers of the
      block, i.e. the `(|buffer| + 1) / 2` registers from `startRegister` on. */
  lemma OffsetOfAcceptsExactlyTheBlock(buffer: seq<byte>, startRegister: int, register: int)
    ensures OffsetOf(buffer, startRegister, register).Ok?
        <==> startRegister <= register < startRegister + (|buffer| + 1) / 2
  {
  }

  // ---------------------------------------------------------------------
  // Big-endian integers

  /** The unsigned value of `bs` read most significant byte first. */
  function BigEndian(bs: seq<byte>): (n: nat)
    ensures n < Pow(256, |bs|)
  {
    if bs == [] then 0 else BigEndian(bs[..|bs| - 1]) * 256 + bs[|bs| - 1]
  }

  /** The `width` bytes of `n`, most significant first (its inverse). */
  function ToBigEndian(n: nat, width: nat): (bs: seq<byte>)
    ensures |bs| == width
  {
    if width == 0 then [] else ToBigEndian(n / 256, width - 1) + [n % 256]
  }

  lemma {:induction false} BigEndianOfToBigEndian(n: nat, width: nat)
    requires n < Pow(256, width)
    ensures BigEndian(ToBigEndian(n, width)) == n
  {
    if width > 0 {
      var bs := ToBigEndian(n, width);
      var init, q := bs[..|bs| - 1], n / 256;
      assert q < Pow(256, width - 1);
      assert init == ToBigEndian(q, width - 1);
      BigEndianOfToBigEndian(q, width - 1);
      assert BigEndian(bs) == BigEndian(init) * 256 + n % 256;
      assert BigEndian(init) == q && q * 256 + n % 256 == n;
    }
  }

  lemma {:induction false} ToBigEndianOfBigEndian(bs: seq<byte>)
    ensures ToBigEndian(BigEndian(bs), |bs|) == bs
  {
    if bs != [] {
      var init := bs[..|bs| - 1];
      ToBigEndianOfBigEndian(init);
      assert bs == init + [bs[|bs| - 1]];
    }
  }

  /** Splitting a big-endian run: the leading bytes weigh 256^|tail|. */
  lemma {:induction false} BigEndianAppend(head: seq<byte>, tail: seq<byte>)
    ensures BigEndian(head + tail) == BigEndian(head) * Pow(256, |tail|) + BigEndian(tail)
  {
    if tail == [] {
      assert head + tail == head;
    } else {
      var all := head + tail;
      var init := tail[..|tail| - 1];
      var last := tail[|tail| - 1];
      assert all[..|all| - 1] == head + init;
      BigEndianAppend(head, init);
      var h, b, p := BigEndian(head), BigEndian(init), Pow(256, |init|);
      assert Pow(256, |tail|) == 256 * p;
      assert BigEndian(tail) == b * 256 + last by {
        assert tail[..|tail| - 1] == init;
      }
      assert BigEndian(all) == BigEndian(head + init) * 256 + last;
      ShiftByte(h, p, b, last);
    }
  }

  lemma ShiftByte(h: int, p: int, b: int, last: int)
    ensures (h * p + b) * 256 + last == h * (256 * p) + (b * 256 + last)
  {
  }

  /** One register is `b0·256 + b1`. */
  lemma RegisterWord(b0: byte, b1: byte)
    ensures BigEndian([b0, b1]) == b0 * 256 + b1
  {
    assert [b0, b1][..1] == [b0];
    assert [b0][..0] == [];
  }

  /** A 32-bit value is two registers, high word first. */
  lemma HighWordFirst(bs: seq<byte>)
    requires |bs| == 4
    ensures BigEndian(bs) == BigEndian(bs[..2]) * 65536 + BigEndian(bs[2..])
  {
    assert bs == bs[..2] + bs[2..];
    BigEndianAppend(bs[..2], bs[2..]);
    PowersOf256();
  }

  /** Whether `x` fits a `width`-byte integer of the given signedness. */
  predicate InRange(x: int, width: nat, signed: Signedness) {
    match signed
    case Unsigned => 0 <= x < Pow(256, width)
    case Signed => -(Pow(256, width) / 2) <= x < Pow(256, width) / 2
  }

  /** What `readUInt16BE`, `readInt16BE`, `readUInt32BE` and `readInt32BE`
      produce from their bytes: the big-endian value, taken as two's
      complement when signed. */
  function DecodeInteger(bs: seq<byte>, signed: Signedness): (x: int)
    requires |bs| > 0
    ensures InRange(x, |bs|, signed)
  {
    var u := BigEndian(bs);
    var modulus := Pow(256, |bs|);
    var half := 128 * Pow(256, |bs| - 1);
    assert modulus == 2 * half && modulus / 2 == half;
    if signed == Signed && u >= modulus / 2 then u - modulus else u
  }

  /** The wire form of an in-range integer. */
  function EncodeInteger(x: int, width: nat, signed: Signedness): (bs: seq<byte>)
    requires width > 0 && InRange(x, width, signed)
    ensures |bs| == width
  {
    ToBigEndian(if x < 0 then x + Pow(256, width) else x, width)
  }

  lemma DecodeEncodeInteger(x: int, width: nat, signed: Signedness)
    requires width > 0 && InRange(x, width, signed)
    ensures DecodeInteger(EncodeInteger(x, width, signed), signed) == x
  {
    BigEndianOfToBigEndian(if x < 0 then x + Pow(256, width) else x, width);
  }

  lemma EncodeDecodeInteger(bs: seq<byte>, signed: Signedness)
    requires |bs| > 0
    ensures EncodeInteger(DecodeInteger(bs, signed), |bs|, signed) == bs
  {
    ToBigEndianOfBigEndian(bs);
  }

  /** The four ranges of the integer reads. */
  lemma DecodedRanges(bs: seq<byte>)
    requires |bs| == 2 || |bs| == 4
    ensures |bs| == 2 ==> 0 <= DecodeInteger(bs, Unsigned) <= 65535
    ensures |bs| == 2 ==> -32768 <= DecodeInteger(bs, Signed) <= 32767
    ensures |bs| == 4 ==> 0 <= DecodeInteger(bs, Unsigned) <= 4294967295
    ensures |bs| == 4 ==> -2147483648 <= DecodeInteger(bs, Signed) <= 2147483647
  {
    PowersOf256();
  }

  /** Signed and unsigned reads of the same bytes agree on the lower half
      and differ by 2^(8·width) on the upper half. */
  lemma SignedIsTwosComplement(bs: seq<byte>)
    requires |bs| > 0
    ensures var u := DecodeInteger(bs, Unsigned);
            var s := DecodeInteger(bs, Signed);
            (s == u || s == u - Pow(256, |bs|)) && (s < 0 <==> u >= Pow(256, |bs|) / 2)
  {
  }

  // ---------------------------------------------------------------------
  // numberAt

  /** An exact decimal number, `mantissa · 10^-places`. */
  datatype Decimal = Decimal(mantissa: int, places: nat) {
    function Value(): real {
      mantissa as real / Pow(10, places) as real
    }
  }

  /** The integer read, times `10^-decimalPlaces` when `decimalPlaces` is
      present and positive, and unchanged otherwise. */
  function Scale(integerValue: int, decimalPlaces: Option<int>): (d: Decimal)
    ensures d.mantissa == integerValue
    ensures decimalPlaces.None? || decimalPlaces.value <= 0 ==> d.Value() == integerValue as real
    ensures decimalPlaces.Some? && decimalPlaces.value > 0
            ==> d.Value() * Pow(10, decimalPlaces.value) as real == integerValue as real
  {
    if decimalPlaces.None? || decimalPlaces.value <= 0 then
      Decimal(integerValue, 0)
    else
      Decimal(integerValue, decimalPlaces.value)
  }

  /** Reads `width` bytes at `offset` as Node's `Buffer.readXX` does,
      throwing when they run past the end of the buffer. */
  function ReadInteger(buffer: seq<byte>, offset: nat, width: nat, signed: Signedness): (r: Result<int>)
    requires width > 0
    ensures r.Ok? <==> offset + width <= |buffer|
    ensures r.Ok? ==> InRange(r.value, width, signed)
  {
    if offset + width > |buffer| then
      Err(ReadOutOfRange(offset, width, |buffer|))
    else
      Ok(DecodeInteger(buffer[offset..offset + width], signed))
  }

  /** `numberAt`: a 1- or 2-register integer at `register`, scaled by
      `10^-decimalPlaces`. The offset check comes first, then the width
      check, then the read itself. */
  function NumberAt(buffer: seq<byte>, startRegister: int, register: int, length: int,
                    signed: Signedness, decimalPlaces: Option<int>): (r: Result<Decimal>)
    ensures OffsetOf(buffer, startRegister, register).Err? ==> r == Err(OffsetOf(buffer, startRegister, register).error)
    ensures OffsetOf(buffer, startRegister, register).Ok? && length != 1 && length != 2
            ==> r == Err(BadNumberRequest(length, signed))
    ensures r.Ok? <==> startRegister <= register && (length == 1 || length == 2)
                       && 2 * (register - startRegister) + 2 * length <= |buffer|
    ensures r.Ok? ==> var offset := 2 * (register - startRegister);
                      r.value == Scale(DecodeInteger(buffer[offset..offset + 2 * length], signed), decimalPlaces)
  {
    var offset :- OffsetOf(buffer, startRegister, register);
    if length != 1 && length != 2 then
      Err(BadNumberRequest(length, signed))
    else
      var integerValue :- ReadInteger(buffer, offset, 2 * length, signed);
      Ok(Scale(integerValue, decimalPlaces))
  }

  /** Whether two buffers hold the same bytes at offsets `[from, to)`, as
      far as `buffer` reaches. */
  predicate SameBytes(buffer: seq<byte>, other: seq<byte>, from: int, to: int)
    requires |buffer| == |other|
  {
    forall k :: 0 <= k < |buffer| && from <= k < to ==> buffer[k] == other[k]
  }

  /** `numberAt` reads nothing but its own registers: two buffers of the
      same length that agree on those bytes give the same result, error or
      value. */
  lemma NumberAtReadsOnlyItsRegisters(buffer: seq<byte>, other: seq<byte>, startRegister: int, register: int,
                                      length: int, signed: Signedness, decimalPlaces: Option<int>)
    requires |buffer| == |other|
    requires var offset := 2 * (register - startRegister);
             SameBytes(buffer, other, offset, offset + 2 * length)
    ensures NumberAt(buffer, startRegister, register, length, signed, decimalPlaces)
         == NumberAt(other, startRegister, register, length, signed, decimalPlaces)
  {
    var offset := 2 * (register - startRegister);
    if 0 <= offset && (length == 1 || length == 2) && offset + 2 * length <= |buffer| {
      assert buffer[offset..offset + 2 * length] == other[offset..offset + 2 * length];
    }
  }

  /** Without positive decimal places `numberAt` returns the raw integer. */
  lemma NumberAtUnscaled(buffer: seq<byte>, startRegister: int, register: int, length: int,
                         signed: Signedness, decimalPlaces: Option<int>)
    requires decimalPlaces.None? || decimalPlaces.value <= 0
    requires NumberAt(buffer, startRegister, register, length, signed, decimalPlaces).Ok?
    ensures var offset := 2 * (register - startRegister);
            NumberAt(buffer, startRegister, register, length, signed, decimalPlaces)
              == Ok(Decimal(DecodeInteger(buffer[offset..offset + 2 * length], signed), 0))
  {
  }

  /** Writing an in-range integer at a register and reading it back with the
      same width and signedness yields it, scaled. */
  lemma NumberAtRoundTrip(before: seq<byte>, x: int, after: seq<byte>, startRegister: int, register: int,
                          length: int, signed: Signedness, decimalPlaces: Option<int>)
    requires length == 1 || length == 2
    requires InRange(x, 2 * length, signed)
    requires |before| == 2 * (register - startRegister)
    ensures NumberAt(before + EncodeInteger(x, 2 * length, signed) + after, startRegister, register,
                     length, signed, decimalPlaces) == Ok(Scale(x, decimalPlaces))
  {
    var encoded := EncodeInteger(x, 2 * length, signed);
    var buffer := before + encoded + after;
    var offset := |before|;
    assert buffer[offset..offset + 2 * length] == encoded;
    DecodeEncodeInteger(x, 2 * length, signed);
  }

  /** `offsetOf` does not cover the width of the read: a two-register read
      at the last register of a buffer passes the offset check and then
      fails in the read. */
  lemma OffsetCheckDoesNotCoverWidth()
    ensures OffsetOf([0, 0], 7, 7) == Ok(0)
    ensures NumberAt([0, 0], 7, 7, 2, Unsigned, None) == Err(ReadOutOfRange(0, 4, 2))
  {
  }

  /** On a buffer of whole registers a one-register read never fails once
      the offset check passes. */
  lemma SingleRegisterReadFits(buffer: seq<byte>, startRegister: int, register: int,
                               signed: Signedness, decimalPlaces: Option<int>)
    requires |buffer| % 2 == 0
    ensures NumberAt(buffer, startRegister, register, 1, signed, decimalPlaces).Ok?
        <==> OffsetOf(buffer, startRegister, register).Ok?
  {
  }

  /** A decimal example: the register 0x04D2 = 1234 read with two decimal
      places is 12.34, and with none is 1234. */
  lemma NumberAtDecimalExample()
    ensures NumberAt([0x04, 0xD2], 100, 100, 1, Unsigned, Some(2)) == Ok(Decimal(1234, 2))
    ensures Decimal(1234, 2).Value() == 12.34
    ensures NumberAt([0x04, 0xD2], 100, 100, 1, Unsigned, None) == Ok(Decimal(1234, 0))
  {
    RegisterWord(0x04, 0xD2);
    assert [0x04, 0xD2][0..2] == [0x04, 0xD2];
  }

  // ---------------------------------------------------------------------
  // asciiAt

  const Nul: char := 0 as char

  /** Node's 'ascii' decoding: each byte with its high bit cleared. */
  function DecodeAscii(bs: seq<byte>): (s: string) {
    seq(|bs|, i requires 0 <= i < |bs| => (bs[i] % 128) as char)
  }

  /** The bytes of 7-bit text. */
  function EncodeAscii(s: string): (bs: seq<byte>)
    requires forall i :: 0 <= i < |s| ==> s[i] < 128 as char
  {
    seq(|s|, i requires 0 <= i < |s| => s[i] as int)
  }

  /** Node's `toString(encoding, start, end)` byte range: the end is clamped
      to the buffer, and an empty or reversed range gives no bytes. */
  function ByteRange(buffer: seq<byte>, startOffset: nat, endOffset: int): (bs: seq<byte>)
    requires startOffset <= |buffer|
    ensures |bs| <= |buffer| - startOffset
    ensures endOffset > startOffset ==> bs == buffer[startOffset..Min(endOffset, |buffer|)]
    ensures endOffset <= startOffset ==> bs == []
  {
    if endOffset <= startOffset then [] else buffer[startOffset..Min(endOffset, |buffer|)]
  }

  /** `n` NUL bytes, the right padding of a text field. */
  function NulPadding(n: nat): (bs: seq<byte>)
    ensures |bs| == n && forall i :: 0 <= i < n ==> bs[i] == 0
  {
    seq(n, _ => 0)
  }

  /** `s` with `r` as its prefix, and only NULs after it. */
  predicate IsTrimmedOf(r: string, s: string) {
    && r <= s
    && (r == [] || r[|r| - 1] != Nul)
    && forall i :: |r| <= i < |s| ==> s[i] == Nul
  }

  /** The replacement of `/\x00+$/` by "": the maximal trailing run of NULs
      removed. */
  function TrimTrailingNul(s: string): (r: string)
    ensures IsTrimmedOf(r, s)
  {
    if s != [] && s[|s| - 1] == Nul then TrimTrailingNul(s[..|s| - 1]) else s
  }

  /** There is only one way to trim: `TrimTrailingNul` is the unique prefix
      that does not end in NUL and leaves only NULs behind. */
  lemma {:induction false} TrimmedIsUnique(r: string, s: string)
    requires IsTrimmedOf(r, s)
    ensures r == TrimTrailingNul(s)
  {
    if s != [] && s[|s| - 1] == Nul {
      assert |r| < |s|;
      TrimmedIsUnique(r, s[..|s| - 1]);
    } else {
      assert |r| == |s|;
    }
  }

  /** Interior NULs survive: everything up to the last non-NUL is kept. */
  lemma TrimKeepsInterior(s: string, i: nat)
    requires i < |s| && s[i] != Nul
    ensures i < |TrimTrailingNul(s)| && TrimTrailingNul(s)[i] == s[i]
  {
  }

  lemma TrimAllNul(s: string)
    requires forall i :: 0 <= i < |s| ==> s[i] == Nul
    ensures TrimTrailingNul(s) == ""
  {
  }

  lemma TrimIdempotent(s: string)
    ensures TrimTrailingNul(TrimTrailingNul(s)) == TrimTrailingNul(s)
  {
    var t := TrimTrailingNul(s);
    TrimmedIsUnique(t, t);
  }

  /** The text Node's `toString('ascii', startOffset, endOffset)` gives,
      without its trailing NULs: the contents of a text field. */
  function FieldText(buffer: seq<byte>, startOffset: nat, endOffset: int): (text: string)
    requires startOffset <= |buffer|
    ensures IsTrimmedOf(text, DecodeAscii(ByteRange(buffer, startOffset, endOffset)))
  {
    TrimTrailingNul(DecodeAscii(ByteRange(buffer, startOffset, endOffset)))
  }

  /** `asciiAt`: `length` registers of text at `register`, trailing NULs
      removed. Only the start is bounds-checked; a run past the end of the
      buffer is cut short silently. */
  function AsciiAt(buffer: seq<byte>, startRegister: int, register: int, length: int): (r: Result<string>)
    ensures r.Ok? <==> OffsetOf(buffer, startRegister, register).Ok?
    ensures r.Err? ==> r.error == BadOffset(|buffer|, startRegister, register)
    ensures r.Ok? ==> var startOffset := 2 * (register - startRegister);
                      && |r.value| <= |buffer| - startOffset
                      && (length <= 0 ==> r.value == "")
                      && IsTrimmedOf(r.value, DecodeAscii(ByteRange(buffer, startOffset, startOffset + 2 * length)))
  {
    var startOffset :- OffsetOf(buffer, startRegister, register);
    var endOffset := startOffset + length * 2;
    Ok(FieldText(buffer, startOffset, endOffset))
  }

  /** A field that runs past the end of the buffer is cut short silently:
      it reads as the text of every byte from its offset to the end. */
  lemma AsciiAtTruncates(buffer: seq<byte>, startRegister: int, register: int, length: int)
    requires OffsetOf(buffer, startRegister, register).Ok?
    requires 2 * (register - startRegister) + 2 * length > |buffer|
    ensures var startOffset := 2 * (register - startRegister);
            AsciiAt(buffer, startRegister, register, length) == Ok(TrimTrailingNul(DecodeAscii(buffer[startOffset..])))
  {
    var startOffset := 2 * (register - startRegister);
    assert ByteRange(buffer, startOffset, startOffset + length * 2) == buffer[startOffset..];
  }

  /** The wire format of a text field: 7-bit text right-padded with NULs to
      the field width reads back as the text. */
  lemma AsciiAtRoundTrip(before: seq<byte>, text: string, padding: nat, after: seq<byte>,
                         startRegister: int, register: int, length: int)
    requires forall i :: 0 <= i < |text| ==> text[i] < 128 as char
    requires text == [] || text[|text| - 1] != Nul
    requires |text| + padding == 2 * length && length > 0
    requires |before| == 2 * (register - startRegister)
    ensures AsciiAt(before + (EncodeAscii(text) + NulPadding(padding)) + after,
                    startRegister, register, length) == Ok(text)
  {
    var field := EncodeAscii(text) + NulPadding(padding);
    var buffer := before + field + after;
    var startOffset := |before|;
    assert OffsetOf(buffer, startRegister, register) == Ok(startOffset);
    assert ByteRange(buffer, startOffset, startOffset + length * 2) == field by {
      assert buffer[startOffset..startOffset + |field|] == field;
    }
    PaddedTextDecodes(text, padding);
    assert AsciiAt(buffer, startRegister, register, length) == Ok(FieldText(buffer, startOffset, startOffset + length * 2));
  }

  lemma PaddedTextDecodes(text: string, padding: nat)
    requires forall i :: 0 <= i < |text| ==> text[i] < 128 as char
    requires text == [] || text[|text| - 1] != Nul
    ensures TrimTrailingNul(DecodeAscii(EncodeAscii(text) + NulPadding(padding))) == text
  {
    var field := EncodeAscii(text) + NulPadding(padding);
    var decoded := DecodeAscii(field);
    assert IsTrimmedOf(text, decoded) by {
      forall i | 0 <= i < |text| ensures decoded[i] == text[i] {
        assert field[i] == text[i] as int;
      }
      forall i | |text| <= i < |decoded| ensures decoded[i] == Nul {
        assert field[i] == 0;
      }
    }
    TrimmedIsUnique(text, decoded);
  }

  /** An all-NUL field reads as "". */
  lemma AsciiAtAllNul(buffer: seq<byte>, startRegister: int, register: int, length: int)
    requires OffsetOf(buffer, startRegister, register).Ok?
    requires var startOffset := 2 * (register - startRegister);
             forall i :: startOffset <= i < |buffer| && i < startOffset + 2 * length ==> buffer[i] == 0
    ensures AsciiAt(buffer, startRegister, register, length) == Ok("")
  {
    var startOffset := 2 * (register - startRegister);
    var text := DecodeAscii(ByteRange(buffer, startOffset, startOffset + 2 * length));
    TrimAllNul(text);
  }

  /** The example `[0x41, 0x42, 0x00, 0x00]` over two registers reads "AB". */
  lemma AsciiAtExample()
    ensures AsciiAt([0x41, 0x42, 0x00, 0x00], 0, 0, 2) == Ok("AB")
  {
    var bytes: seq<byte> := [0x41, 0x42, 0x00, 0x00];
    AsciiAtRoundTrip([], "AB", 2, [], 0, 0, 2);
    assert [] + (EncodeAscii("AB") + NulPadding(2)) + [] == bytes by {
      assert EncodeAscii("AB") == [0x41, 0x42];
      assert NulPadding(2) == [0, 0];
    }
  }
}
