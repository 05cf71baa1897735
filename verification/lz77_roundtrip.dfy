/** Bytes written through a `CompressWriter` and read back through an `ExpandReader`
    come back unchanged, followed by end of input. */
module LZ77RoundTrip {
  import opened Wrappers
  import opened Sequences
  import opened Integers
  import opened Streams
  import opened LZ77Codes
  import opened LZ77Expand
  import opened LZ77Compress

  /** Writes `data` through a `CompressWriter` over a memory writer and flushes it:
      the written bytes are codes that stand for `data`. */
  method Compress(data: seq<u8>) returns (bytes: seq<u8>, ghost codes: seq<Code>)
    ensures bytes == Serialize(codes) && Writable(codes)
    ensures ExpandAll(codes, []) == Success(data)
  {
    var sink := new Writer();
    var compressor := new CompressWriter(sink);
    for i := 0 to |data|
      invariant compressor.Valid() && compressor.Input() == data[..i]
      invariant compressor.prefix == []
    {
      compressor.WriteByte(data[i]);
      assert data[..i + 1] == data[..i] + [data[i]];
    }
    compressor.Flush();
    assert data[..|data|] == data;
    codes := compressor.codes;
    bytes := sink.bytes;
  }

  /** A fresh `ExpandReader`, whose code is the default one and whose history is
      empty, over the codes for `data` stands for `data`. */
  lemma StartStandsFor(codes: seq<Code>, data: seq<u8>)
    requires Writable(codes) && ExpandAll(codes, []) == Success(data)
    ensures StandsFor(DefaultCode(), [], codes, [], data)
  {
    ExpandAllCons(DefaultCode(), codes, []);
    assert [] + data == data;
    var empty: seq<u8> := [];
    assert empty + empty == empty;
  }

  /** The state of the reading loop after `expanded` has been read: the reader's
      pending code and history, followed by the codes from `k` on, stand for the rest
      of `data`. */
  ghost predicate Reading(expander: ExpandReader, codes: seq<Code>, k: nat, data: seq<u8>, expanded: seq<u8>)
    reads expander, expander.reader
  {
    && expander.Valid() && expander.output == expanded
    && |expanded| <= |data| && expanded == data[..|expanded|]
    && k <= |codes| && expander.reader.Remaining() == Serialize(codes[k..])
    && StandsFor(expander.currentCode, expander.buffer, codes[k..], expanded, data[|expanded|..])
  }

  /** Reads the bytes `bytes` through an `ExpandReader` until a read fails: the bytes
      read are those the codes stand for, and the failure is `EOF`. */
  method ExpandToEnd(bytes: seq<u8>, ghost codes: seq<Code>, ghost data: seq<u8>)
    returns (expanded: seq<u8>, after: IOError)
    requires bytes == Serialize(codes) && Writable(codes)
    requires ExpandAll(codes, []) == Success(data)
    ensures expanded == data && after == EOF
  {
    var expander := OpenExpander(bytes, codes, data);
    expanded := [];
    ghost var k: nat := 0;
    while true
      invariant Reading(expander, codes, k, data, expanded)
      decreases |data| - |expanded|
    {
      var r;
      ghost var n;
      r, n := ReadNext(expander, codes, k, data, expanded);
      if r.Failure? {
        return expanded, r.error;
      }
      expanded := expanded + [r.value];
      k := k + n;
    }
  }

  /** A new `ExpandReader` over a new memory reader over `bytes`, before any read. */
  method OpenExpander(bytes: seq<u8>, ghost codes: seq<Code>, ghost data: seq<u8>)
    returns (expander: ExpandReader)
    requires bytes == Serialize(codes) && Writable(codes)
    requires ExpandAll(codes, []) == Success(data)
    ensures fresh(expander) && fresh(expander.reader)
    ensures Reading(expander, codes, 0, data, [])
  {
    var reader := new MemoryReader(bytes);
    expander := new ExpandReader(reader);
    StartStandsFor(codes, data);
    assert codes[0..] == codes && data[0..] == data && data[..0] == [];
    assert reader.Remaining() == bytes;
  }

  /** One iteration of the reading loop: one `readByte` call, which yields the next
      byte of `data` after the `|expanded|` already read, or fails with `EOF` once all
      of `data` has been read. */
  method ReadNext(expander: ExpandReader, ghost codes: seq<Code>, ghost k: nat, ghost data: seq<u8>,
                  ghost expanded: seq<u8>)
    returns (r: Result<u8, IOError>, ghost n: nat)
    requires Reading(expander, codes, k, data, expanded)
    modifies expander, expander.reader
    ensures r.Failure? ==> r.error == EOF && expanded == data
    ensures r.Success? ==> |expanded| < |data| && Reading(expander, codes, k + n, data, expanded + [r.value])
  {
    ghost var expected := data[|expanded|..];
    n := StepExpands(expander.currentCode, expander.buffer, codes[k..], expanded, expected);
    ghost var s := Step(expander.currentCode, expander.buffer, Serialize(codes[k..]));
    r := expander.ReadByte();
    if r.Failure? {
      assert s.Failure?;
      assert expected == [];
      assert data[..|expanded|] == data;
      return;
    }
    assert s.Success? && expected != [];
    assert r.value == s.value.byte == expected[0];
    assert codes[k..][n..] == codes[k + n..];
    assert expected[1..] == data[|expanded| + 1..];
    assert data[..|expanded| + 1] == expanded + [expected[0]];
  }

  /** Compressing then expanding gives every byte back, in order, and the read after
      the last one reports `EOF`. */
  method CompressThenExpand(data: seq<u8>) returns (expanded: seq<u8>, after: IOError)
    ensures expanded == data && after == EOF
  {
    var bytes, codes := Compress(data);
    expanded, after := ExpandToEnd(bytes, codes, data);
  }
}
