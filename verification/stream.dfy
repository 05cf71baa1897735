/** The binary serializer of stream.h: big-endian integer fields, booleans, the
    null-terminated string format, range-checked reads, the in-memory reader and
    the server that hands out a fixed list of streams. */
module Streams {
  import opened Wrappers
  import opened Sequences
  import opened Integers
  import opened Dimensions

  /** The exceptions of stream.h and compressed_stream.h (all `IOException`s). */
  datatype IOError = EOF | UTFDataFormat | InvalidDataValue | NoStreamsLeft | LZ77Format

  // ---------------------------------------------------------------------------
  // Big-endian fields

  function Pow256(n: nat): (r: nat)
    ensures r >= 1
    ensures n >= 1 ==> r >= 256 && r % 2 == 0
  {
    if n == 0 then 1 else 256 * Pow256(n - 1)
  }

  /** The number whose big-endian encoding is `s`, high byte first. */
  function BigEndian(s: seq<u8>): (v: nat)
    ensures v < Pow256(|s|)
  {
    if |s| == 0 then 0
    else
      var high := BigEndian(s[..|s| - 1]);
      assert high * 256 <= (Pow256(|s| - 1) - 1) * 256;
      high * 256 + s[|s| - 1]
  }

  /** The bytes after a big-endian prefix shift it left by their own width. */
  lemma {:induction false} BigEndianConcat(a: seq<u8>, b: seq<u8>)
    ensures BigEndian(a + b) == BigEndian(a) * Pow256(|b|) + BigEndian(b)
    decreases |b|
  {
    if |b| == 0 {
      assert a + b == a;
    } else {
      var b' := b[..|b| - 1];
      assert (a + b)[..|a + b| - 1] == a + b';
      BigEndianConcat(a, b');
      assert (a + b)[|a + b| - 1] == b[|b| - 1];
      assert BigEndian(a + b) == BigEndian(a + b') * 256 + b[|b| - 1];
      assert BigEndian(b) == BigEndian(b') * 256 + b[|b| - 1];
      ShiftDistributes(BigEndian(a), Pow256(|b'|), BigEndian(b'));
    }
  }

  lemma ShiftDistributes(x: int, p: int, y: int)
    ensures (x * p + y) * 256 == x * (p * 256) + y * 256
  {
  }

  /** The outcome of reading an `n`-byte big-endian field at `start`: its value, or
      `EOF` when the memory ends first. */
  function FieldAt(mem: seq<u8>, start: nat, n: nat): (r: Result<nat, IOError>)
    ensures r.Success? ==> r.value < Pow256(n)
  {
    if start + n <= |mem| then Success(BigEndian(mem[start..start + n])) else Failure(EOF)
  }

  /** The same field reinterpreted as a signed two's-complement integer. */
  function SignedFieldAt(mem: seq<u8>, start: nat, n: nat): (r: Result<int, IOError>)
    requires n >= 1
    ensures r.Success? ==> -(Pow256(n) / 2) <= r.value < Pow256(n) / 2
  {
    match FieldAt(mem, start, n)
    case Success(x) => Success(ToSigned(x, Pow256(n)))
    case Failure(e) => Failure(e)
  }

  /** Where the reader stands after trying to read `n` bytes at `start`. */
  function Advance(mem: seq<u8>, start: nat, n: nat): nat
  {
    if start + n <= |mem| then start + n else |mem|
  }

  /** `Reader::limitAfterRead`: the value, or `InvalidDataValue` when it lies outside
      `[min, max]`. */
  function LimitAfterRead(v: int, min: int, max: int): (r: Result<int, IOError>)
    ensures r.Success? <==> min <= v <= max
    ensures r.Success? ==> r.value == v
    ensures r.Failure? ==> r.error == InvalidDataValue
  {
    if v < min || v > max then Failure(InvalidDataValue) else Success(v)
  }

  /** A read followed by `limitAfterRead`; a failed read keeps its error. */
  function Limited(read: Result<int, IOError>, min: int, max: int): Result<int, IOError>
  {
    match read
    case Success(v) => LimitAfterRead(v, min, max)
    case Failure(e) => Failure(e)
  }

  function U16Bytes(v: u16): (r: seq<u8>)
    ensures |r| == 2
  {
    [v / 0x100, v % 0x100]
  }

  function U32Bytes(v: u32): (r: seq<u8>)
    ensures |r| == 4
  {
    U16Bytes(v / 0x1_0000) + U16Bytes(v % 0x1_0000)
  }

  function U64Bytes(v: u64): (r: seq<u8>)
    ensures |r| == 8
  {
    U32Bytes(v / 0x1_0000_0000) + U32Bytes(v % 0x1_0000_0000)
  }

  /** `writeU16` puts the high byte first, and `readU16` reads it back. */
  lemma U16RoundTrip(v: u16, rest: seq<u8>)
    ensures (U16Bytes(v) + rest)[0] == v / 0x100
    ensures FieldAt(U16Bytes(v) + rest, 0, 2) == Success(v)
  {
    var s := U16Bytes(v) + rest;
    assert s[0..2] == U16Bytes(v);
    assert U16Bytes(v)[..1] == [v / 0x100];
    assert [v / 0x100][..0] == [];
    assert BigEndian([v / 0x100]) == v / 0x100;
    assert BigEndian(U16Bytes(v)) == (v / 0x100) * 0x100 + v % 0x100;
  }

  lemma U32RoundTrip(v: u32, rest: seq<u8>)
    ensures FieldAt(U32Bytes(v) + rest, 0, 4) == Success(v)
  {
    var s := U32Bytes(v) + rest;
    assert s[0..4] == U32Bytes(v);
    U16RoundTrip(v / 0x1_0000, []);
    U16RoundTrip(v % 0x1_0000, []);
    assert U16Bytes(v / 0x1_0000) + [] == U16Bytes(v / 0x1_0000);
    assert U16Bytes(v % 0x1_0000) + [] == U16Bytes(v % 0x1_0000);
    BigEndianConcat(U16Bytes(v / 0x1_0000), U16Bytes(v % 0x1_0000));
    Pow256Values();
  }

  lemma U64RoundTrip(v: u64, rest: seq<u8>)
    ensures FieldAt(U64Bytes(v) + rest, 0, 8) == Success(v)
  {
    var s := U64Bytes(v) + rest;
    assert s[0..8] == U64Bytes(v);
    U32RoundTrip(v / 0x1_0000_0000, []);
    U32RoundTrip(v % 0x1_0000_0000, []);
    assert U32Bytes(v / 0x1_0000_0000) + [] == U32Bytes(v / 0x1_0000_0000);
    assert U32Bytes(v % 0x1_0000_0000) + [] == U32Bytes(v % 0x1_0000_0000);
    BigEndianConcat(U32Bytes(v / 0x1_0000_0000), U32Bytes(v % 0x1_0000_0000));
    Pow256Values();
    assert v == (v / 0x1_0000_0000) * 0x1_0000_0000 + v % 0x1_0000_0000;
  }

  lemma Pow256Values()
    ensures Pow256(2) == 0x1_0000 && Pow256(4) == 0x1_0000_0000
  {
    assert Pow256(1) == 0x100;
    assert Pow256(3) == 0x100_0000;
  }

  /** The signed writers emit the unsigned form; the signed readers undo it. */
  lemma S16RoundTrip(v: i16, rest: seq<u8>)
    ensures SignedFieldAt(U16Bytes(ToUnsigned(v, 0x1_0000)) + rest, 0, 2) == Success(v)
  {
    U16RoundTrip(ToUnsigned(v, 0x1_0000), rest);
    SignedRoundTrip(v, 0x1_0000);
  }

  lemma S32RoundTrip(v: i32, rest: seq<u8>)
    ensures SignedFieldAt(U32Bytes(ToUnsigned(v, 0x1_0000_0000)) + rest, 0, 4) == Success(v)
  {
    U32RoundTrip(ToUnsigned(v, 0x1_0000_0000), rest);
    SignedRoundTrip(v, 0x1_0000_0000);
  }

  lemma S64RoundTrip(v: i64, rest: seq<u8>)
    ensures SignedFieldAt(U64Bytes(ToUnsigned(v, 0x1_0000_0000_0000_0000)) + rest, 0, 8) == Success(v)
  {
    U64RoundTrip(ToUnsigned(v, 0x1_0000_0000_0000_0000), rest);
    SignedRoundTrip(v, 0x1_0000_0000_0000_0000);
  }

  lemma S8RoundTrip(v: i8, rest: seq<u8>)
    ensures SignedFieldAt([ToUnsigned(v, 0x100)] + rest, 0, 1) == Success(v)
  {
    var s := [ToUnsigned(v, 0x100)] + rest;
    assert s[0..1] == [s[0]];
    assert [s[0]][..0] == [];
    SignedRoundTrip(v, 0x100);
  }

  // ---------------------------------------------------------------------------
  // Booleans

  function BoolByte(b: bool): u8
  {
    if b then 1 else 0
  }

  /** `readBool` is true exactly for a nonzero byte, so it inverts `writeBool`. */
  lemma BoolRoundTrip(b: bool)
    ensures (BoolByte(b) != 0) == b
    ensures BoolByte(b) <= 1
  {
  }

  // ---------------------------------------------------------------------------
  // The string format: a UTF-8-like encoding terminated by a single 0 byte

  /** One step of `readString`: the terminator, or a character and its byte count. */
  datatype StringStep = Terminator | CodePoint(ch: WChar, size: nat)

  /** `(b & 0xC0) == 0x80` */
  predicate IsContinuation(b: u8)
  {
    b / 0x40 == 2
  }

  /** One iteration of the `readString` loop on the bytes `s` still to be read. */
  function DecodeStep(s: seq<u8>): (r: Result<StringStep, IOError>)
    ensures r.Success? && r.value.Terminator? ==> |s| >= 1 && s[0] == 0
    ensures r.Success? && r.value.CodePoint? ==> 1 <= r.value.size <= |s| && r.value.size <= 4
  {
    if |s| == 0 then Failure(EOF)
    else
      var b1: int := s[0];
      if b1 == 0 then Success(Terminator)
      // (b1 & 0x80) == 0
      else if b1 < 0x80 then Success(CodePoint(b1, 1))
      // (b1 & 0xE0) == 0xC0
      else if b1 / 0x20 == 6 then
        if |s| < 2 then Failure(EOF)
        else if !IsContinuation(s[1]) then Failure(UTFDataFormat)
        else Success(CodePoint((s[1] as int) % 0x40 + (b1 % 0x20) * 0x40, 2))
      // (b1 & 0xF0) == 0xE0
      else if b1 / 0x10 == 0xE then
        if |s| < 2 then Failure(EOF)
        else if !IsContinuation(s[1]) then Failure(UTFDataFormat)
        else if |s| < 3 then Failure(EOF)
        else if !IsContinuation(s[2]) then Failure(UTFDataFormat)
        else Success(CodePoint((s[2] as int) % 0x40 + ((s[1] as int) % 0x40) * 0x40 + (b1 % 0x10) * 0x1000, 3))
      // (b1 & 0xF8) == 0xF0
      else if b1 / 8 == 0x1E then
        if |s| < 2 then Failure(EOF)
        else if !IsContinuation(s[1]) then Failure(UTFDataFormat)
        else if |s| < 3 then Failure(EOF)
        else if !IsContinuation(s[2]) then Failure(UTFDataFormat)
        else if |s| < 4 then Failure(EOF)
        else if !IsContinuation(s[3]) then Failure(UTFDataFormat)
        else
          var v := CodePoint4(s[0], s[1], s[2], s[3]);
          if v >= 0x10FFFF then Failure(UTFDataFormat) else Success(CodePoint(v, 4))
      else Failure(UTFDataFormat)
  }

  /** `readString` on the bytes `s`: the string and the number of bytes consumed,
      terminator included. */
  function DecodeString(s: seq<u8>): (r: Result<(seq<WChar>, nat), IOError>)
    ensures r.Success? ==> 1 <= r.value.1 <= |s|
    decreases |s|
  {
    match DecodeStep(s)
    case Failure(e) => Failure(e)
    case Success(Terminator) => Success(([], 1))
    case Success(CodePoint(ch, n)) =>
      match DecodeString(s[n..])
      case Failure(e) => Failure(e)
      case Success((rest, m)) => Success(([ch] + rest, n + m))
  }

  /** The value of a 4-byte form: `b4 & 0x3F | (b3 & 0x3F) << 6 | (b2 & 0x3F) << 12 | (b1 & 7) << 18`. */
  function CodePoint4(b1: u8, b2: u8, b3: u8, b4: u8): int
  {
    (b4 as int) % 0x40 + ((b3 as int) % 0x40) * 0x40 + ((b2 as int) % 0x40) * 0x1000 + ((b1 as int) % 8) * 0x4_0000
  }

  /** The bytes `writeString` emits for one character. */
  function EncodeChar(ch: WChar): (r: seq<u8>)
    ensures 1 <= |r| <= 4
    ensures forall i :: 0 <= i < |r| ==> r[i] != 0
  {
    if ch != 0 && ch < 0x80 then [ch]
    else if ch < 0x800 then
      [0xC0 + (ch / 0x40) % 0x20, 0x80 + ch % 0x40]
    else if ch < 0x1000 then
      [0xE0 + (ch / 0x1000) % 0x10, 0x80 + (ch / 0x40) % 0x40, 0x80 + ch % 0x40]
    else
      [0xF0 + (ch / 0x4_0000) % 8, 0x80 + (ch / 0x1000) % 0x40, 0x80 + (ch / 0x40) % 0x40, 0x80 + ch % 0x40]
  }

  function EncodeChars(s: seq<WChar>): (r: seq<u8>)
    ensures forall i :: 0 <= i < |r| ==> r[i] != 0
  {
    if |s| == 0 then [] else EncodeChar(s[0]) + EncodeChars(s[1..])
  }

  /** `writeString`: the characters, then exactly one 0 byte, which is the only 0. */
  function EncodeString(s: seq<WChar>): (r: seq<u8>)
    ensures |r| >= 1 && r[|r| - 1] == 0
    ensures forall i :: 0 <= i < |r| - 1 ==> r[i] != 0
  {
    EncodeChars(s) + [0]
  }

  lemma {:induction false} EncodeCharsSnoc(s: seq<WChar>, ch: WChar)
    ensures EncodeChars(s + [ch]) == EncodeChars(s) + EncodeChar(ch)
  {
    if |s| == 0 {
      assert s + [ch] == [ch];
      assert [ch][1..] == [];
    } else {
      assert (s + [ch])[1..] == s[1..] + [ch];
      EncodeCharsSnoc(s[1..], ch);
    }
  }

  /** A character the decoder accepts comes back from its own encoding. */
  lemma CharRoundTrip(ch: WChar, rest: seq<u8>)
    requires ch < 0x10FFFF
    ensures DecodeStep(EncodeChar(ch) + rest) == Success(CodePoint(ch, |EncodeChar(ch)|))
  {
    if ch != 0 && ch < 0x80 {
    } else if ch < 0x800 {
      CharRoundTrip2(ch, rest);
    } else if ch < 0x1000 {
      CharRoundTrip3(ch, rest);
    } else {
      CharRoundTrip4(ch, rest);
    }
  }

  lemma CharRoundTrip2(ch: WChar, rest: seq<u8>)
    requires ch == 0 || 0x80 <= ch < 0x800
    ensures DecodeStep(EncodeChar(ch) + rest) == Success(CodePoint(ch, 2))
  {
    var s := EncodeChar(ch) + rest;
    var q := ch / 0x40;
    assert ch == q * 0x40 + ch % 0x40;
    assert q < 0x20;
    assert s[0] == 0xC0 + q && s[1] == 0x80 + ch % 0x40;
    assert (s[0] as int) % 0x20 == q;
    assert (s[1] as int) % 0x40 == ch % 0x40;
  }

  lemma CharRoundTrip3(ch: WChar, rest: seq<u8>)
    requires 0x800 <= ch < 0x1000
    ensures DecodeStep(EncodeChar(ch) + rest) == Success(CodePoint(ch, 3))
  {
    var s := EncodeChar(ch) + rest;
    var q := ch / 0x40;
    assert ch == q * 0x40 + ch % 0x40;
    assert q < 0x40;
    assert ch / 0x1000 == 0;
    assert s[0] == 0xE0 && s[1] == 0x80 + q && s[2] == 0x80 + ch % 0x40;
    assert (s[2] as int) % 0x40 == ch % 0x40;
    assert (s[1] as int) % 0x40 == q;
  }

  lemma CharRoundTrip4(ch: WChar, rest: seq<u8>)
    requires 0x1000 <= ch < 0x10FFFF
    ensures DecodeStep(EncodeChar(ch) + rest) == Success(CodePoint(ch, 4))
  {
    var s := EncodeChar(ch) + rest;
    FourByteDigits(ch);
    assert s[0] == 0xF0 + ch / 0x4_0000 && s[1] == 0x80 + (ch / 0x1000) % 0x40;
    assert s[2] == 0x80 + (ch / 0x40) % 0x40 && s[3] == 0x80 + ch % 0x40;
  }

  /** The four-byte form's fields put back together give the character. */
  lemma FourByteDigits(ch: WChar)
    requires 0x1000 <= ch < 0x10FFFF
    ensures ch / 0x4_0000 < 8 && (ch / 0x4_0000) % 8 == ch / 0x4_0000
    ensures CodePoint4(0xF0 + ch / 0x4_0000, 0x80 + (ch / 0x1000) % 0x40, 0x80 + (ch / 0x40) % 0x40,
                       0x80 + ch % 0x40) == ch
  {
    var q := ch / 0x40;
    var q2 := q / 0x40;
    var q3 := q2 / 0x40;
    var r1 := (q % 0x40) * 0x40 + ch % 0x40;
    assert ch == q2 * 0x1000 + r1;
    DivUnique(ch, q2, r1, 0x1000);
    var r2 := (q2 % 0x40) * 0x1000 + r1;
    assert ch == q3 * 0x4_0000 + r2;
    DivUnique(ch, q3, r2, 0x4_0000);
  }

  /** `readString(writeString(s)) == s` for every string whose characters are below
      0x10FFFF, and the reader stops right after the terminator. */
  lemma {:induction false} StringRoundTrip(s: seq<WChar>, rest: seq<u8>)
    requires forall i :: 0 <= i < |s| ==> s[i] < 0x10FFFF
    ensures DecodeString(EncodeString(s) + rest) == Success((s, |EncodeString(s)|))
  {
    var bytes := EncodeString(s) + rest;
    if |s| == 0 {
      assert bytes[0] == 0;
    } else {
      var c, tail := EncodeChar(s[0]), EncodeString(s[1..]) + rest;
      assert bytes == c + tail;
      CharRoundTrip(s[0], tail);
      assert bytes[|c|..] == tail;
      DecodeStringUnfold(bytes);
      StringRoundTrip(s[1..], rest);
      assert |EncodeString(s)| == |c| + |EncodeString(s[1..])|;
      assert [s[0]] + s[1..] == s;
    }
  }

  /** The three ways `readString` rejects its input as malformed. */
  lemma StringRejects(s: seq<u8>)
    requires |s| >= 1
    requires || (0x80 <= s[0] < 0xC0 || s[0] >= 0xF8)
             || (|s| >= 2 && 0xC0 <= s[0] < 0xF8 && !IsContinuation(s[1]))
             || (|s| >= 4 && 0xF0 <= s[0] < 0xF8 && IsContinuation(s[1]) && IsContinuation(s[2])
                 && IsContinuation(s[3])
                 && CodePoint4(s[0], s[1], s[2], s[3]) >= 0x10FFFF)
    ensures DecodeString(s) == Failure(UTFDataFormat)
  {
  }

  /** The outcome of a string read that consumed `k` bytes into `prefix` before
      continuing with `rest`. */
  function Then(prefix: seq<WChar>, k: nat, rest: Result<(seq<WChar>, nat), IOError>): Result<(seq<WChar>, nat), IOError>
  {
    match rest
    case Failure(e) => Failure(e)
    case Success((str, m)) => Success((prefix + str, k + m))
  }

  /** `DecodeString` after one `DecodeStep`. */
  lemma DecodeStringUnfold(s: seq<u8>)
    ensures DecodeStep(s).Failure? ==> DecodeString(s) == Failure(DecodeStep(s).error)
    ensures DecodeStep(s) == Success(Terminator) ==> DecodeString(s) == Success(([], 1))
    ensures DecodeStep(s).Success? && DecodeStep(s).value.CodePoint? ==>
              DecodeString(s) == Then([DecodeStep(s).value.ch], DecodeStep(s).value.size,
                                      DecodeString(s[DecodeStep(s).value.size..]))
  {
  }

  lemma ThenEmpty(r: Result<(seq<WChar>, nat), IOError>)
    ensures Then([], 0, r) == r
  {
    if r.Success? {
      assert [] + r.value.0 == r.value.0;
    }
  }

  lemma ThenAssoc(prefix: seq<WChar>, k: nat, ch: WChar, n: nat, r: Result<(seq<WChar>, nat), IOError>)
    ensures Then(prefix, k, Then([ch], n, r)) == Then(prefix + [ch], k + n, r)
  {
    if r.Success? {
      assert prefix + ([ch] + r.value.0) == (prefix + [ch]) + r.value.0;
    }
  }

  /** One step of the `readString` loop, on the decoding of the whole input: with
      `str` read (`k` bytes) and `s` left, a failing step fails the whole, a terminator
      ends it with `str`, and a character moves it from `s` to the rest of `s`. */
  lemma ThenStep(whole: Result<(seq<WChar>, nat), IOError>, str: seq<WChar>, k: nat, s: seq<u8>)
    requires whole == Then(str, k, DecodeString(s))
    ensures DecodeStep(s).Failure? ==> whole == Failure(DecodeStep(s).error)
    ensures DecodeStep(s) == Success(Terminator) ==> whole == Success((str, k + 1))
    ensures DecodeStep(s).Success? && DecodeStep(s).value.CodePoint? ==>
              whole == Then(str + [DecodeStep(s).value.ch], k + DecodeStep(s).value.size,
                            DecodeString(s[DecodeStep(s).value.size..]))
  {
    DecodeStringUnfold(s);
    if DecodeStep(s) == Success(Terminator) {
      assert str + [] == str;
    }
    if DecodeStep(s).Success? && DecodeStep(s).value.CodePoint? {
      var step := DecodeStep(s).value;
      ThenAssoc(str, k, step.ch, step.size, DecodeString(s[step.size..]));
    }
  }

  // ---------------------------------------------------------------------------
  // MemoryReader

  /** A `Reader` over a fixed block of memory. The reads that `Reader` builds on
      `readByte` are methods of this class. */
  class MemoryReader {
    const mem: seq<u8>
    var offset: nat

    ghost predicate Valid()
      reads this
    {
      offset <= |mem|
    }

    constructor(mem: seq<u8>)
      ensures Valid() && this.mem == mem && offset == 0
    {
      this.mem := mem;
      offset := 0;
    }

    /** The bytes still to be read. */
    function Remaining(): (r: seq<u8>)
      requires Valid()
      reads this
      ensures |r| == |mem| - offset
    {
      mem[offset..]
    }

    method ReadByte() returns (r: Result<u8, IOError>)
      requires Valid()
      modifies this
      ensures Valid()
      ensures old(offset) < |mem| ==> r == Success(mem[old(offset)]) && offset == old(offset) + 1
      ensures old(offset) >= |mem| ==> r == Failure(EOF) && offset == old(offset)
    {
      if offset >= |mem| {
        return Failure(EOF);
      }
      r := Success(mem[offset]);
      offset := offset + 1;
    }

    method ReadBytes(count: nat) returns (r: Result<seq<u8>, IOError>)
      requires Valid()
      modifies this
      ensures Valid() && offset == Advance(mem, old(offset), count)
      ensures old(offset) + count <= |mem| ==> r == Success(mem[old(offset)..old(offset) + count])
      ensures old(offset) + count > |mem| ==> r == Failure(EOF)
    {
      var bytes: seq<u8> := [];
      for i := 0 to count
        invariant Valid() && offset == old(offset) + i && old(offset) + i <= |mem|
        invariant bytes == mem[old(offset)..offset]
      {
        var b := ReadByte();
        if b.Failure? {
          return Failure(b.error);
        }
        bytes := bytes + [b.value];
      }
      return Success(bytes);
    }

    method ReadU8() returns (r: Result<u8, IOError>)
      requires Valid()
      modifies this
      ensures Valid() && offset == Advance(mem, old(offset), 1)
      ensures r == FieldAt(mem, old(offset), 1)
    {
      r := ReadByte();
      if r.Success? {
        assert mem[old(offset)..old(offset) + 1][..0] == [];
      }
    }

    method ReadS8() returns (r: Result<i8, IOError>)
      requires Valid()
      modifies this
      ensures Valid() && offset == Advance(mem, old(offset), 1)
      ensures r == SignedFieldAt(mem, old(offset), 1)
    {
      var v :- ReadU8();
      return Success(ToSigned(v, 0x100));
    }

    method ReadU16() returns (r: Result<u16, IOError>)
      requires Valid()
      modifies this
      ensures Valid() && offset == Advance(mem, old(offset), 2)
      ensures r == FieldAt(mem, old(offset), 2)
    {
      var high :- ReadU8();
      var low :- ReadU8();
      var start := old(offset);
      assert start + 2 <= |mem|;
      BigEndianConcat(mem[start..start + 1], mem[start + 1..start + 2]);
      SliceConcat(mem, start, start + 1, start + 2);
      // (v << 8) | low
      return Success((high as int) * 0x100 + low);
    }

    method ReadS16() returns (r: Result<i16, IOError>)
      requires Valid()
      modifies this
      ensures Valid() && offset == Advance(mem, old(offset), 2)
      ensures r == SignedFieldAt(mem, old(offset), 2)
    {
      var v :- ReadU16();
      return Success(ToSigned(v, 0x1_0000));
    }

    method ReadU32() returns (r: Result<u32, IOError>)
      requires Valid()
      modifies this
      ensures Valid() && offset == Advance(mem, old(offset), 4)
      ensures r == FieldAt(mem, old(offset), 4)
    {
      var high :- ReadU16();
      var low :- ReadU16();
      var start := old(offset);
      assert start + 4 <= |mem|;
      BigEndianConcat(mem[start..start + 2], mem[start + 2..start + 4]);
      SliceConcat(mem, start, start + 2, start + 4);
      // (v << 16) | low
      return Success((high as int) * 0x1_0000 + low);
    }

    method ReadS32() returns (r: Result<i32, IOError>)
      requires Valid()
      modifies this
      ensures Valid() && offset == Advance(mem, old(offset), 4)
      ensures r == SignedFieldAt(mem, old(offset), 4)
    {
      var v :- ReadU32();
      return Success(ToSigned(v, 0x1_0000_0000));
    }

    method ReadU64() returns (r: Result<u64, IOError>)
      requires Valid()
      modifies this
      ensures Valid() && offset == Advance(mem, old(offset), 8)
      ensures r == FieldAt(mem, old(offset), 8)
    {
      var high :- ReadU32();
      var low :- ReadU32();
      var start := old(offset);
      assert start + 8 <= |mem|;
      BigEndianConcat(mem[start..start + 4], mem[start + 4..start + 8]);
      SliceConcat(mem, start, start + 4, start + 8);
      // (v << 32) | low
      return Success((high as int) * 0x1_0000_0000 + low);
    }

    method ReadS64() returns (r: Result<i64, IOError>)
      requires Valid()
      modifies this
      ensures Valid() && offset == Advance(mem, old(offset), 8)
      ensures r == SignedFieldAt(mem, old(offset), 8)
    {
      var v :- ReadU64();
      return Success(ToSigned(v, 0x1_0000_0000_0000_0000));
    }

    method ReadBool() returns (r: Result<bool, IOError>)
      requires Valid()
      modifies this
      ensures Valid() && offset == Advance(mem, old(offset), 1)
      ensures old(offset) < |mem| ==> r == Success(mem[old(offset)] != 0)
      ensures old(offset) >= |mem| ==> r == Failure(EOF)
    {
      var v :- ReadByte();
      return Success(v != 0);
    }

    /** One iteration of the `readString` loop. */
    method ReadStringStep() returns (r: Result<StringStep, IOError>)
      requires Valid()
      modifies this
      ensures Valid() && old(offset) <= offset
      ensures r == DecodeStep(old(Remaining()))
      ensures r.Success? && r.value.Terminator? ==> offset == old(offset) + 1
      ensures r.Success? && r.value.CodePoint? ==> offset == old(offset) + r.value.size
    {
      ghost var s := Remaining();
      var b1 :- ReadByte();
      if b1 == 0 {
        return Success(Terminator);
      } else if b1 < 0x80 {
        return Success(CodePoint(b1, 1));
      } else if b1 / 0x20 == 6 {
        var b2 :- ReadByte();
        if !IsContinuation(b2) {
          return Failure(UTFDataFormat);
        }
        return Success(CodePoint((b2 as int) % 0x40 + ((b1 as int) % 0x20) * 0x40, 2));
      } else if b1 / 0x10 == 0xE {
        var b2 :- ReadByte();
        if !IsContinuation(b2) {
          return Failure(UTFDataFormat);
        }
        var b3 :- ReadByte();
        if !IsContinuation(b3) {
          return Failure(UTFDataFormat);
        }
        return Success(CodePoint((b3 as int) % 0x40 + ((b2 as int) % 0x40) * 0x40 + ((b1 as int) % 0x10) * 0x1000, 3));
      } else if b1 / 8 == 0x1E {
        var b2 :- ReadByte();
        if !IsContinuation(b2) {
          return Failure(UTFDataFormat);
        }
        var b3 :- ReadByte();
        if !IsContinuation(b3) {
          return Failure(UTFDataFormat);
        }
        var b4 :- ReadByte();
        if !IsContinuation(b4) {
          return Failure(UTFDataFormat);
        }
        var v := CodePoint4(b1, b2, b3, b4);
        if v >= 0x10FFFF {
          return Failure(UTFDataFormat);
        }
        return Success(CodePoint(v, 4));
      } else {
        return Failure(UTFDataFormat);
      }
    }

    method ReadString() returns (r: Result<seq<WChar>, IOError>)
      requires Valid()
      modifies this
      ensures Valid()
      ensures DecodeString(old(Remaining())).Success? ==>
                r == Success(DecodeString(old(Remaining())).value.0)
                && offset == old(offset) + DecodeString(old(Remaining())).value.1
      ensures DecodeString(old(Remaining())).Failure? ==>
                r == Failure(DecodeString(old(Remaining())).error)
    {
      var str: seq<WChar> := [];
      ThenEmpty(DecodeString(Remaining()));
      while true
        invariant Valid() && old(offset) <= offset
        invariant DecodeString(mem[old(offset)..]) == Then(str, offset - old(offset), DecodeString(Remaining()))
        decreases |mem| - offset
      {
        ghost var s := Remaining();
        ghost var k := offset - old(offset);
        ThenStep(DecodeString(mem[old(offset)..]), str, k, s);
        var step := ReadStringStep();
        if step.Failure? {
          return Failure(step.error);
        }
        if step.value.Terminator? {
          return Success(str);
        }
        assert s[step.value.size..] == Remaining();
        str := str + [step.value.ch];
      }
    }

    method ReadLimitedU8(min: u8, max: u8) returns (r: Result<int, IOError>)
      requires Valid()
      modifies this
      ensures Valid() && offset == Advance(mem, old(offset), 1)
      ensures r == Limited(FieldAt(mem, old(offset), 1), min, max)
    {
      var v :- ReadU8();
      r := LimitAfterRead(v, min, max);
    }

    method ReadLimitedS8(min: i8, max: i8) returns (r: Result<int, IOError>)
      requires Valid()
      modifies this
      ensures Valid() && offset == Advance(mem, old(offset), 1)
      ensures r == Limited(SignedFieldAt(mem, old(offset), 1), min, max)
    {
      var v :- ReadS8();
      r := LimitAfterRead(v, min, max);
    }

    method ReadLimitedU16(min: u16, max: u16) returns (r: Result<int, IOError>)
      requires Valid()
      modifies this
      ensures Valid() && offset == Advance(mem, old(offset), 2)
      ensures r == Limited(FieldAt(mem, old(offset), 2), min, max)
    {
      var v :- ReadU16();
      r := LimitAfterRead(v, min, max);
    }

    method ReadLimitedS16(min: i16, max: i16) returns (r: Result<int, IOError>)
      requires Valid()
      modifies this
      ensures Valid() && offset == Advance(mem, old(offset), 2)
      ensures r == Limited(SignedFieldAt(mem, old(offset), 2), min, max)
    {
      var v :- ReadS16();
      r := LimitAfterRead(v, min, max);
    }

    method ReadLimitedU32(min: u32, max: u32) returns (r: Result<int, IOError>)
      requires Valid()
      modifies this
      ensures Valid() && offset == Advance(mem, old(offset), 4)
      ensures r == Limited(FieldAt(mem, old(offset), 4), min, max)
    {
      var v :- ReadU32();
      r := LimitAfterRead(v, min, max);
    }

    method ReadLimitedS32(min: i32, max: i32) returns (r: Result<int, IOError>)
      requires Valid()
      modifies this
      ensures Valid() && offset == Advance(mem, old(offset), 4)
      ensures r == Limited(SignedFieldAt(mem, old(offset), 4), min, max)
    {
      var v :- ReadS32();
      r := LimitAfterRead(v, min, max);
    }

    method ReadLimitedU64(min: u64, max: u64) returns (r: Result<int, IOError>)
      requires Valid()
      modifies this
      ensures Valid() && offset == Advance(mem, old(offset), 8)
      ensures r == Limited(FieldAt(mem, old(offset), 8), min, max)
    {
      var v :- ReadU64();
      r := LimitAfterRead(v, min, max);
    }

    method ReadLimitedS64(min: i64, max: i64) returns (r: Result<int, IOError>)
      requires Valid()
      modifies this
      ensures Valid() && offset == Advance(mem, old(offset), 8)
      ensures r == Limited(SignedFieldAt(mem, old(offset), 8), min, max)
    {
      var v :- ReadS64();
      r := LimitAfterRead(v, min, max);
    }

    /** `readDimension`: a byte in `0 .. Last - 1`, anything else is invalid data. */
    method ReadDimension() returns (r: Result<Dimension, IOError>)
      requires Valid()
      modifies this
      ensures Valid() && offset == Advance(mem, old(offset), 1)
      ensures old(offset) < |mem| && mem[old(offset)] < Last ==> r == Success(FromIndex(mem[old(offset)]))
      ensures old(offset) < |mem| && mem[old(offset)] >= Last ==> r == Failure(InvalidDataValue)
      ensures old(offset) >= |mem| ==> r == Failure(EOF)
    {
      var v :- ReadLimitedU8(0, Last - 1);
      assert mem[old(offset)..old(offset) + 1][..0] == [];
      return Success(FromIndex(v));
    }
  }

  // ---------------------------------------------------------------------------
  // Writer

  /** A `Writer`, seen through the bytes passed to `writeByte` so far. */
  class Writer {
    var bytes: seq<u8>

    constructor()
      ensures bytes == []
    {
      bytes := [];
    }

    method WriteByte(v: u8)
      modifies this
      ensures bytes == old(bytes) + [v]
    {
      bytes := bytes + [v];
    }

    /** `flush` does nothing on a plain writer. */
    method Flush()
      modifies this
      ensures bytes == old(bytes)
    {
    }

    method WriteBytes(a: seq<u8>)
      modifies this
      ensures bytes == old(bytes) + a
    {
      for i := 0 to |a|
        invariant bytes == old(bytes) + a[..i]
      {
        WriteByte(a[i]);
      }
    }

    method WriteU8(v: u8)
      modifies this
      ensures bytes == old(bytes) + [v]
    {
      WriteByte(v);
    }

    method WriteS8(v: i8)
      modifies this
      ensures bytes == old(bytes) + [ToUnsigned(v, 0x100)]
    {
      WriteByte(ToUnsigned(v, 0x100));
    }

    method WriteU16(v: u16)
      modifies this
      ensures bytes == old(bytes) + U16Bytes(v)
    {
      WriteU8(v / 0x100);
      WriteU8(v % 0x100);
    }

    method WriteS16(v: i16)
      modifies this
      ensures bytes == old(bytes) + U16Bytes(ToUnsigned(v, 0x1_0000))
    {
      WriteU16(ToUnsigned(v, 0x1_0000));
    }

    method WriteU32(v: u32)
      modifies this
      ensures bytes == old(bytes) + U32Bytes(v)
    {
      WriteU16(v / 0x1_0000);
      WriteU16(v % 0x1_0000);
    }

    method WriteS32(v: i32)
      modifies this
      ensures bytes == old(bytes) + U32Bytes(ToUnsigned(v, 0x1_0000_0000))
    {
      WriteU32(ToUnsigned(v, 0x1_0000_0000));
    }

    method WriteU64(v: u64)
      modifies this
      ensures bytes == old(bytes) + U64Bytes(v)
    {
      WriteU32(v / 0x1_0000_0000);
      WriteU32(v % 0x1_0000_0000);
    }

    method WriteS64(v: i64)
      modifies this
      ensures bytes == old(bytes) + U64Bytes(ToUnsigned(v, 0x1_0000_0000_0000_0000))
    {
      WriteU64(ToUnsigned(v, 0x1_0000_0000_0000_0000));
    }

    method WriteBool(v: bool)
      modifies this
      ensures bytes == old(bytes) + [BoolByte(v)]
    {
      WriteU8(if v then 1 else 0);
    }

    method WriteString(s: seq<WChar>)
      modifies this
      ensures bytes == old(bytes) + EncodeString(s)
    {
      for i := 0 to |s|
        invariant bytes == old(bytes) + EncodeChars(s[..i])
      {
        var ch := s[i];
        WriteStringChar(ch);
        EncodeCharsSnoc(s[..i], ch);
        SliceLaws(s, i);
        AppendAssoc(old(bytes), EncodeChars(s[..i]), EncodeChar(ch));
      }
      assert s[..|s|] == s;
      WriteU8(0);
      AppendAssoc(old(bytes), EncodeChars(s), [0]);
    }

    /** The body of the `writeString` loop for one character. */
    method WriteStringChar(ch: WChar)
      modifies this
      ensures bytes == old(bytes) + EncodeChar(ch)
    {
      if ch != 0 && ch < 0x80 {
        WriteU8(ch);
      } else if ch < 0x800 {
        WriteU8(0xC0 + (ch / 0x40) % 0x20);
        WriteU8(0x80 + ch % 0x40);
      } else if ch < 0x1000 {
        WriteU8(0xE0 + (ch / 0x1000) % 0x10);
        WriteU8(0x80 + (ch / 0x40) % 0x40);
        WriteU8(0x80 + ch % 0x40);
      } else {
        WriteU8(0xF0 + (ch / 0x4_0000) % 8);
        WriteU8(0x80 + (ch / 0x1000) % 0x40);
        WriteU8(0x80 + (ch / 0x40) % 0x40);
        WriteU8(0x80 + ch % 0x40);
      }
    }

    method WriteDimension(d: Dimension)
      modifies this
      ensures bytes == old(bytes) + [Index(d)]
    {
      WriteU8(Index(d));
    }
  }

  // ---------------------------------------------------------------------------
  // StreamServerWrapper

  /** A server that hands out a fixed list of streams and then defers to the next
      server in its chain, if any. */
  class StreamServerWrapper<S> {
    var streams: seq<S>
    const nextServer: StreamServerWrapper?<S>
    ghost const Repr: set<object>
    ghost const depth: nat

    ghost predicate Valid()
      decreases depth
    {
      this in Repr
      && (nextServer != null ==>
            nextServer in Repr && nextServer.Repr <= Repr && this !in nextServer.Repr
            && nextServer.depth < depth && nextServer.Valid())
    }

    /** The streams `accept` will return, in order: this server's, then the chain's. */
    ghost function Pending(): seq<S>
      requires Valid()
      reads Repr
      decreases depth
    {
      streams + (if nextServer == null then [] else nextServer.Pending())
    }

    constructor(streams: seq<S>, nextServer: StreamServerWrapper?<S>)
      requires nextServer != null ==> nextServer.Valid()
      ensures Valid() && fresh(Repr - (if nextServer == null then {} else nextServer.Repr))
      ensures this.streams == streams && this.nextServer == nextServer
      ensures Pending() == streams + (if nextServer == null then [] else nextServer.Pending())
    {
      this.streams := streams;
      this.nextServer := nextServer;
      Repr := {this} + (if nextServer == null then {} else nextServer.Repr);
      depth := if nextServer == null then 0 else nextServer.depth + 1;
    }

    method Accept() returns (r: Result<S, IOError>)
      requires Valid()
      modifies Repr
      ensures Valid()
      ensures old(Pending()) == [] ==> r == Failure(NoStreamsLeft) && Pending() == []
      ensures old(Pending()) != [] ==> r == Success(old(Pending())[0]) && Pending() == old(Pending())[1..]
      decreases depth
    {
      if |streams| == 0 {
        if nextServer == null {
          return Failure(NoStreamsLeft);
        }
        r := nextServer.Accept();
        return;
      }
      r := Success(streams[0]);
      streams := streams[1..];
    }
  }
}
