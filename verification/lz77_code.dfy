/** The LZ77 code format of compressed_stream.h and what a sequence of codes stands
    for. A code is three bytes: `nextByte`, then a big-endian 16-bit word holding a
    6-bit `length` above a 10-bit `offset`. */
module LZ77Codes {
  import opened Wrappers
  import opened Sequences
  import opened Integers
  import opened Streams

  const LengthBits: nat := 6
  const OffsetBits: nat := 10
  const MaxLength: nat := 63
  const MaxOffset: nat := 1023
  /** The number of bytes of history both ends keep (`maxOffset + 1`). */
  const BufferSize: nat := 1024

  /** `LZ77CodeType`. */
  datatype Code = Code(length: nat, offset: nat, nextByte: u8) {

    predicate HasNextByte()
    {
      length != 0 || offset == 0
    }

    predicate Eof()
    {
      length == 0 && offset != 0
    }

    /** `LZ77CodeType::read`: a byte, then a 16-bit word; input that ends inside the
        word is a format error. */
    static method Read(reader: MemoryReader) returns (r: Result<Code, IOError>)
      requires reader.Valid()
      modifies reader
      ensures reader.Valid()
      ensures r == ParseCode(old(reader.Remaining()))
      ensures r.Success? ==> reader.Remaining() == old(reader.Remaining())[3..]
    {
      ghost var s := reader.Remaining();
      var nextByte :- reader.ReadByte();
      var v := reader.ReadU16();
      if v.Failure? {
        return Failure(LZ77Format);
      }
      assert reader.mem[old(reader.offset) + 1..old(reader.offset) + 3] == s[1..3];
      // length = v >> offsetBits, offset = v & maxOffset
      return Success(Code(v.value / 0x400, v.value % 0x400, nextByte));
    }

    /** `LZ77CodeType::write`. */
    method Write(writer: Writer)
      modifies writer
      ensures writer.bytes == old(writer.bytes) + CodeBytes(this)
    {
      writer.WriteByte(nextByte);
      writer.WriteU16(CodeWord(this));
    }
  }

  /** The default code, which marks that a new code must be read. */
  function DefaultCode(): (c: Code)
    ensures c.Eof() && !c.HasNextByte()
  {
    Code(0, 1, 0)
  }

  /** A code that stands for the single byte `b`. */
  function Literal(b: u8): (c: Code)
    ensures !c.Eof() && c.HasNextByte() && c.nextByte == b
  {
    Code(0, 0, b)
  }

  /** `eof()` and `hasNextByte()` are complementary. */
  lemma EofIffNoNextByte(c: Code)
    ensures c.Eof() <==> !c.HasNextByte()
  {
  }

  /** The 16-bit word of a code: `(offset & maxOffset) | (length << offsetBits)`,
      truncated to `uint16_t`. */
  function CodeWord(c: Code): u16
  {
    (c.offset % 0x400 + c.length * 0x400) % 0x1_0000
  }

  function CodeBytes(c: Code): (r: seq<u8>)
    ensures |r| == 3
  {
    [c.nextByte] + U16Bytes(CodeWord(c))
  }

  /** `read` applied to the bytes `s`. */
  function ParseCode(s: seq<u8>): (r: Result<Code, IOError>)
    ensures r.Success? ==> |s| >= 3
  {
    if |s| == 0 then Failure(EOF)
    else if |s| < 3 then Failure(LZ77Format)
    else
      var v := BigEndian(s[1..3]);
      Success(Code(v / 0x400, v % 0x400, s[0]))
  }

  /** A code whose fields fit their bit widths. */
  predicate Encodable(c: Code)
  {
    c.length <= MaxLength && c.offset <= MaxOffset
  }

  /** A code that fits is written as `nextByte` and the big-endian word
      `length << 10 | offset`, and reading those bytes gives the code back. */
  lemma CodeRoundTrip(c: Code, rest: seq<u8>)
    requires Encodable(c)
    ensures CodeWord(c) == c.length * 0x400 + c.offset
    ensures CodeBytes(c) == [c.nextByte, CodeWord(c) / 0x100, CodeWord(c) % 0x100]
    ensures ParseCode(CodeBytes(c) + rest) == Success(c)
  {
    var w := CodeWord(c);
    assert w == c.length * 0x400 + c.offset;
    var s := CodeBytes(c) + rest;
    assert s[1..3] == U16Bytes(w);
    U16RoundTrip(w, []);
    assert U16Bytes(w) + [] == U16Bytes(w);
    assert U16Bytes(w)[0..2] == U16Bytes(w);
    assert BigEndian(s[1..3]) == w;
    DivUnique(w, c.length, c.offset, 0x400);
  }

  /** `read` fails with a format error when the input ends after `nextByte` or inside
      the word, and with `EOF` only when no byte of the code is there. */
  lemma ParseTruncated(s: seq<u8>)
    requires |s| < 3
    ensures ParseCode(s) == (if |s| == 0 then Failure(EOF) else Failure(LZ77Format))
  {
  }

  /** The bytes written for a sequence of codes. */
  function Serialize(codes: seq<Code>): (r: seq<u8>)
    ensures |r| == 3 * |codes|
  {
    if |codes| == 0 then [] else CodeBytes(codes[0]) + Serialize(codes[1..])
  }

  lemma {:induction false} SerializeSnoc(codes: seq<Code>, c: Code)
    ensures Serialize(codes + [c]) == Serialize(codes) + CodeBytes(c)
  {
    if |codes| == 0 {
      assert codes + [c] == [c];
      assert [c][1..] == [];
    } else {
      assert (codes + [c])[1..] == codes[1..] + [c];
      SerializeSnoc(codes[1..], c);
    }
  }

  // ---------------------------------------------------------------------------
  // The history and what codes stand for

  function Min(a: nat, b: nat): nat
  {
    if a < b then a else b
  }

  /** `buffer` is the history after the bytes `out`: the last (at most `BufferSize`)
      bytes, newest at index 0. */
  ghost predicate IsHistoryOf(buffer: seq<u8>, out: seq<u8>)
  {
    |buffer| == Min(|out|, BufferSize)
    && forall i :: 0 <= i < |buffer| ==> buffer[i] == out[|out| - 1 - i]
  }

  /** `push_front(b)` followed by `pop_back()` once the history is over-full. */
  function PushHistory(buffer: seq<u8>, b: u8): (r: seq<u8>)
    ensures |r| == Min(|buffer| + 1, BufferSize)
  {
    var pushed := [b] + buffer;
    if |pushed| > BufferSize then pushed[..BufferSize] else pushed
  }

  lemma PushHistoryExtends(buffer: seq<u8>, out: seq<u8>, b: u8)
    requires IsHistoryOf(buffer, out)
    ensures IsHistoryOf(PushHistory(buffer, b), out + [b])
  {
    var r := PushHistory(buffer, b);
    var out' := out + [b];
    forall i | 0 <= i < |r|
      ensures r[i] == out'[|out'| - 1 - i]
    {
      if i > 0 {
        assert r[i] == buffer[i - 1];
      }
    }
  }

  /** The `length` bytes a back-reference copies: each is the byte `offset` places
      back in the history, and is itself added to the history before the next. */
  function CopyBack(out: seq<u8>, offset: nat, length: nat): (r: seq<u8>)
    requires offset < |out|
    ensures |r| == length
    decreases length
  {
    if length == 0 then []
    else
      var b := out[|out| - 1 - offset];
      [b] + CopyBack(out + [b], offset, length - 1)
  }

  /** A copy that does not run past the newest byte reads a slice of the history. */
  lemma {:induction false} CopyBackSlice(out: seq<u8>, offset: nat, length: nat)
    requires offset < |out| && length <= offset + 1
    ensures CopyBack(out, offset, length) == out[|out| - 1 - offset .. |out| - 1 - offset + length]
    decreases length
  {
    if length > 0 {
      var b := out[|out| - 1 - offset];
      CopyBackSlice(out + [b], offset, length - 1);
      var out' := out + [b];
      assert out'[|out'| - 1 - offset .. |out'| - 1 - offset + length - 1]
          == out[|out| - offset .. |out| - 1 - offset + length];
    }
  }

  /** The bytes a code stands for after the history `out`: nothing for an end-of-input
      code, `nextByte` for a literal, and for a back-reference its copy then `nextByte`.
      A back-reference beyond the history is a format error. */
  function Expand(out: seq<u8>, c: Code): (r: Result<seq<u8>, IOError>)
    ensures r.Success? ==> |r.value| == (if c.Eof() then 0 else c.length + 1)
  {
    if c.Eof() then Success([])
    else if c.length == 0 then Success([c.nextByte])
    else if c.offset >= Min(|out|, BufferSize) then Failure(LZ77Format)
    else Success(CopyBack(out, c.offset, c.length) + [c.nextByte])
  }

  /** `first`, followed by the outcome `r` of expanding what comes after it. */
  function Prepend(first: seq<u8>, r: Result<seq<u8>, IOError>): Result<seq<u8>, IOError>
  {
    if r.Failure? then r else Success(first + r.value)
  }

  /** The bytes a sequence of codes stands for after the history `out`. */
  function ExpandAll(codes: seq<Code>, out: seq<u8>): Result<seq<u8>, IOError>
  {
    if |codes| == 0 then Success([])
    else
      var e := Expand(out, codes[0]);
      if e.Failure? then Failure(e.error)
      else Prepend(e.value, ExpandAll(codes[1..], out + e.value))
  }

  lemma ExpandAllCons(c: Code, codes: seq<Code>, out: seq<u8>)
    requires Expand(out, c).Success?
    ensures ExpandAll([c] + codes, out)
            == Prepend(Expand(out, c).value, ExpandAll(codes, out + Expand(out, c).value))
  {
    assert ([c] + codes)[0] == c;
    assert ([c] + codes)[1..] == codes;
  }

  /** A successful expansion of a non-empty sequence is its first code's bytes, then
      the rest's. */
  lemma ExpandAllUncons(codes: seq<Code>, out: seq<u8>) returns (first: seq<u8>, rest: seq<u8>)
    requires |codes| > 0 && ExpandAll(codes, out).Success?
    ensures Expand(out, codes[0]) == Success(first)
    ensures ExpandAll(codes[1..], out + first) == Success(rest)
    ensures ExpandAll(codes, out).value == first + rest
  {
    first := Expand(out, codes[0]).value;
    rest := ExpandAll(codes[1..], out + first).value;
  }

  lemma ExpandAllSingle(c: Code, out: seq<u8>, y: seq<u8>)
    requires Expand(out, c) == Success(y)
    ensures ExpandAll([c], out) == Success(y)
  {
    ExpandAllCons(c, [], out);
    assert [c] + [] == [c] && y + [] == y;
  }

  lemma {:induction false} ExpandAllSnoc(codes: seq<Code>, out: seq<u8>, c: Code, x: seq<u8>, y: seq<u8>)
    requires ExpandAll(codes, out) == Success(x)
    requires Expand(out + x, c) == Success(y)
    ensures ExpandAll(codes + [c], out) == Success(x + y)
  {
    if |codes| == 0 {
      assert codes + [c] == [c] && x == [] && out + x == out && x + y == y;
      ExpandAllSingle(c, out, y);
    } else {
      var first, rest := ExpandAllUncons(codes, out);
      AppendAssoc(out, first, rest);
      ExpandAllSnoc(codes[1..], out + first, c, rest, y);
      assert codes + [c] == [codes[0]] + (codes[1..] + [c]);
      ExpandAllCons(codes[0], codes[1..] + [c], out);
      AppendAssoc(first, rest, y);
    }
  }
}
