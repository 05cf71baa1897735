/** `ExpandReader` of compressed_stream.h: a reader that expands LZ77 codes read from
    an underlying reader, one byte per call. */
module LZ77Expand {
  import opened Wrappers
  import opened Sequences
  import opened Integers
  import opened Streams
  import opened LZ77Codes

  /** What one `readByte` call returns and the state it leaves behind. */
  datatype StepOut = StepOut(byte: u8, code: Code, buffer: seq<u8>, rest: seq<u8>)

  /** One `readByte` call from the current code `code`, the history `buffer` and the
      unread input `input`: codes are read while the current one marks end of input;
      a literal yields its byte, a back-reference the history byte at its offset. */
  function Step(code: Code, buffer: seq<u8>, input: seq<u8>): (r: Result<StepOut, IOError>)
    ensures r.Success? ==> r.value.buffer == PushHistory(buffer, r.value.byte)
    ensures r.Success? ==> !r.value.code.Eof() || r.value.code == DefaultCode()
    decreases |input|
  {
    if code.Eof() then
      match ParseCode(input)
      case Failure(e) => Failure(e)
      case Success(c) => Step(c, buffer, input[3..])
    else if code.length == 0 then
      Success(StepOut(code.nextByte, DefaultCode(), PushHistory(buffer, code.nextByte), input))
    else if code.offset >= |buffer| then
      Failure(LZ77Format)
    else
      var b := buffer[code.offset];
      var next := if code.length - 1 == 0 then Literal(code.nextByte) else code.(length := code.length - 1);
      Success(StepOut(b, next, PushHistory(buffer, b), input))
  }

  /** A back-reference that reaches beyond the history is a format error. */
  lemma StepRejectsFarOffset(code: Code, buffer: seq<u8>, input: seq<u8>)
    requires !code.Eof() && code.length > 0 && code.offset >= |buffer|
    ensures Step(code, buffer, input) == Failure(LZ77Format)
  {
  }

  /** The decoder state (`code`, `buffer`, unread codes `codes`) after the bytes `out`
      stands for the bytes `expected`. */
  ghost predicate StandsFor(code: Code, buffer: seq<u8>, codes: seq<Code>, out: seq<u8>, expected: seq<u8>)
  {
    && IsHistoryOf(buffer, out)
    && (forall i :: 0 <= i < |codes| ==> Encodable(codes[i]))
    && ExpandAll([code] + codes, out) == Success(expected)
  }

  /** What one `readByte` call does from a state that stands for `expected`: it
      yields `expected[0]` after consuming `k` codes and reaches a state that stands
      for the rest, or fails with `EOF` when nothing is left. */
  ghost predicate StepYields(code: Code, buffer: seq<u8>, codes: seq<Code>, out: seq<u8>, expected: seq<u8>, k: nat)
  {
    && k <= |codes|
    && (expected == [] ==> Step(code, buffer, Serialize(codes)) == Failure(EOF))
    && (expected != [] ==>
          var s := Step(code, buffer, Serialize(codes));
          && s.Success? && s.value.byte == expected[0]
          && s.value.rest == Serialize(codes[k..])
          && StandsFor(s.value.code, s.value.buffer, codes[k..], out + [expected[0]], expected[1..]))
  }

  /** One `readByte` call yields the next byte the pending code and the unread codes
      stand for, and leaves a state that stands for the remaining bytes. When nothing
      remains, it fails with `EOF`. */
  lemma {:induction false} StepExpands(code: Code, buffer: seq<u8>, codes: seq<Code>, out: seq<u8>, expected: seq<u8>)
    returns (k: nat)
    requires StandsFor(code, buffer, codes, out, expected)
    ensures StepYields(code, buffer, codes, out, expected, k)
    decreases |codes|, 1
  {
    if code.Eof() {
      k := StepExpandsEof(code, buffer, codes, out, expected);
    } else if code.length == 0 {
      StepExpandsLiteral(code, buffer, codes, out, expected);
      k := 0;
    } else {
      StepExpandsCopy(code, buffer, codes, out, expected);
      k := 0;
    }
  }

  lemma {:induction false} StepExpandsEof(code: Code, buffer: seq<u8>, codes: seq<Code>, out: seq<u8>, expected: seq<u8>)
    returns (k: nat)
    requires StandsFor(code, buffer, codes, out, expected) && code.Eof()
    ensures StepYields(code, buffer, codes, out, expected, k)
    decreases |codes|, 0
  {
    assert Expand(out, code) == Success([]);
    ExpandAllCons(code, codes, out);
    assert out + [] == out;
    var tail := ExpandAll(codes, out).value;
    assert expected == [] + tail == tail;
    if |codes| == 0 {
      k := 0;
    } else {
      var c0 := codes[0];
      CodeRoundTrip(c0, Serialize(codes[1..]));
      assert Serialize(codes)[3..] == Serialize(codes[1..]);
      assert codes == [c0] + codes[1..];
      var k' := StepExpands(c0, buffer, codes[1..], out, expected);
      k := k' + 1;
      assert codes[1..][k'..] == codes[k..];
    }
  }

  lemma StepExpandsLiteral(code: Code, buffer: seq<u8>, codes: seq<Code>, out: seq<u8>, expected: seq<u8>)
    requires StandsFor(code, buffer, codes, out, expected) && !code.Eof() && code.length == 0
    ensures StepYields(code, buffer, codes, out, expected, 0)
  {
    var nb := code.nextByte;
    assert Expand(out, code) == Success([nb]);
    ExpandAllCons(code, codes, out);
    var tail := ExpandAll(codes, out + [nb]).value;
    assert expected == [nb] + tail;
    assert codes[0..] == codes;
    PushHistoryExtends(buffer, out, nb);
    assert Expand(out + [nb], DefaultCode()) == Success([]);
    ExpandAllCons(DefaultCode(), codes, out + [nb]);
    assert (out + [nb]) + [] == out + [nb];
    assert expected[1..] == [] + tail;
  }

  lemma StepExpandsCopy(code: Code, buffer: seq<u8>, codes: seq<Code>, out: seq<u8>, expected: seq<u8>)
    requires StandsFor(code, buffer, codes, out, expected) && !code.Eof() && code.length > 0
    ensures StepYields(code, buffer, codes, out, expected, 0)
  {
    assert Expand(out, code).Success? by {
      assert ([code] + codes)[0] == code;
    }
    ExpandAllCons(code, codes, out);
    var e := Expand(out, code).value;
    var tail := ExpandAll(codes, out + e).value;
    assert expected == e + tail;
    assert codes[0..] == codes;
    var off, len, nb := code.offset, code.length, code.nextByte;
    var b := buffer[off];
    assert b == out[|out| - 1 - off];
    var copy := CopyBack(out + [b], off, len - 1);
    assert e == [b] + copy + [nb];
    var next := if len - 1 == 0 then Literal(nb) else code.(length := len - 1);
    assert off < Min(|out + [b]|, BufferSize);
    if len - 1 == 0 {
      assert copy == [] && copy + [nb] == [nb];
      assert Expand(out + [b], next) == Success(copy + [nb]);
    } else {
      assert !next.Eof() && next.length == len - 1 && next.offset == off && next.nextByte == nb;
      assert Expand(out + [b], next) == Success(copy + [nb]);
    }
    PushHistoryExtends(buffer, out, b);
    ExpandAllCons(next, codes, out + [b]);
    AppendAssoc([b], copy, [nb]);
    AppendAssoc(out, [b], copy + [nb]);
    AppendAssoc([b], copy + [nb], tail);
    assert ([b] + ((copy + [nb]) + tail))[1..] == (copy + [nb]) + tail;
  }

  class ExpandReader {
    const reader: MemoryReader
    /** The history, newest byte first. */
    var buffer: seq<u8>
    var currentCode: Code
    /** Every byte returned so far. */
    ghost var output: seq<u8>

    ghost predicate Valid()
      reads this, reader
    {
      reader.Valid() && IsHistoryOf(buffer, output)
    }

    constructor(reader: MemoryReader)
      requires reader.Valid()
      ensures Valid() && this.reader == reader
      ensures buffer == [] && currentCode == DefaultCode() && output == []
    {
      this.reader := reader;
      buffer := [];
      currentCode := DefaultCode();
      output := [];
    }

    method ReadByte() returns (r: Result<u8, IOError>)
      requires Valid()
      modifies this, reader
      ensures Valid()
      ensures var s := Step(old(currentCode), old(buffer), old(reader.Remaining()));
              && (s.Success? ==>
                    && r == Success(s.value.byte)
                    && currentCode == s.value.code && buffer == s.value.buffer
                    && reader.Remaining() == s.value.rest
                    && output == old(output) + [s.value.byte])
              && (s.Failure? ==> r == Failure(s.error))
    {
      while currentCode.Eof()
        invariant reader.Valid() && buffer == old(buffer) && output == old(output)
        invariant Step(currentCode, buffer, reader.Remaining())
                  == Step(old(currentCode), old(buffer), old(reader.Remaining()))
        decreases |reader.Remaining()|
      {
        var c :- Code.Read(reader);
        currentCode := c;
      }
      var b: u8;
      if currentCode.length == 0 {
        b := currentCode.nextByte;
        currentCode := DefaultCode();
      } else {
        if currentCode.offset >= |buffer| {
          return Failure(LZ77Format);
        }
        b := buffer[currentCode.offset];
        currentCode := currentCode.(length := currentCode.length - 1);
        if currentCode.length == 0 {
          currentCode := Literal(currentCode.nextByte);
        }
      }
      PushHistoryExtends(buffer, output, b);
      // push_front, then pop_back when over-full
      buffer := [b] + buffer;
      if |buffer| > BufferSize {
        buffer := buffer[..BufferSize];
      }
      output := output + [b];
      return Success(b);
    }
  }
}
