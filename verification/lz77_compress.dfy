/** `CompressWriter` of compressed_stream.h: a writer that keeps the last 1024 bytes
    it has coded as a history, indexes every history position by its byte value, and
    emits a back-reference for the longest match of the pending input it finds there,
    or a literal. */
module LZ77Compress {
  import opened Wrappers
  import opened Sequences
  import opened Integers
  import opened Streams
  import opened LZ77Codes

  /** `CompressWriter::Match`: a history index and a match length. */
  datatype Match = Match(location: int, length: nat)

  /** `m` is a usable match for the pending `input`: its first `length` bytes equal
      the history bytes from index `location` towards the newest one. */
  ghost predicate IsMatch(m: Match, input: seq<u8>, buffer: seq<u8>)
  {
    && m.length <= |input|
    && (m.length > 0 ==>
          && 0 <= m.location < |buffer|
          && m.length <= m.location + 1
          && forall k :: 0 <= k < m.length ==> input[k] == buffer[m.location - k])
  }

  /** The pending `input` matches `len` bytes of the history starting at position `p`,
      whose history index is `location - p`. */
  ghost predicate MatchFrom(p: int, len: nat, location: int, input: seq<u8>, buffer: seq<u8>)
  {
    IsMatch(Match(location - p, len), input, buffer)
  }

  /** A match from `p` longer than `len` bytes continues past `len`: the history byte
      after the first `len` is present and equals the pending byte at `len`. */
  lemma MatchContinues(p: int, len: nat, longer: nat, location: int, input: seq<u8>, buffer: seq<u8>)
    requires MatchFrom(p, longer, location, input, buffer) && len < longer
    ensures len < |input|
    ensures 0 <= location - (p + len) < |buffer| && buffer[location - (p + len)] == input[len]
  {
    assert input[len] == buffer[location - p - len];
  }

  /** Bytes that match the history from `location` back to the newest byte are what a
      back-reference to `location` copies. */
  lemma MatchIsCopy(m: Match, input: seq<u8>, buffer: seq<u8>, history: seq<u8>)
    requires IsMatch(m, input, buffer) && IsHistoryOf(buffer, history) && m.length >= 2
    ensures m.location < |history|
    ensures CopyBack(history, m.location, m.length - 1) == input[..m.length - 1]
  {
    var d, len := m.location, m.length - 1;
    CopyBackSlice(history, d, len);
    var slice := history[|history| - 1 - d .. |history| - 1 - d + len];
    forall k | 0 <= k < len
      ensures slice[k] == input[k]
    {
      assert input[k] == buffer[d - k] == history[|history| - 1 - (d - k)];
      assert slice[k] == history[|history| - 1 - d + k];
    }
  }

  /** The code `writeCode` emits for a match of two or more bytes stands for the
      matched bytes. */
  lemma MatchExpands(m: Match, input: seq<u8>, buffer: seq<u8>, history: seq<u8>)
    requires IsMatch(m, input, buffer) && IsHistoryOf(buffer, history)
    requires 2 <= m.length <= MaxLength + 1
    ensures Encodable(Code(m.length - 1, m.location, input[m.length - 1]))
    ensures !Code(m.length - 1, m.location, input[m.length - 1]).Eof()
    ensures Expand(history, Code(m.length - 1, m.location, input[m.length - 1]))
            == Success(input[..m.length])
  {
    MatchIsCopy(m, input, buffer, history);
    assert input[..m.length] == input[..m.length - 1] + [input[m.length - 1]];
  }

  /** Codes `write` can store without losing bits, none of them an end-of-input code. */
  predicate Writable(codes: seq<Code>)
  {
    forall i :: 0 <= i < |codes| ==> Encodable(codes[i]) && !codes[i].Eof()
  }

  /** Appending a code that stands for `y` after the bytes `x` the earlier codes stand
      for extends what they stand for by `y`, and the bytes written by the code. */
  lemma AppendCode(codes: seq<Code>, code: Code, x: seq<u8>, y: seq<u8>)
    requires Writable(codes) && ExpandAll(codes, []) == Success(x)
    requires Encodable(code) && !code.Eof() && Expand(x, code) == Success(y)
    ensures Writable(codes + [code])
    ensures ExpandAll(codes + [code], []) == Success(x + y)
    ensures Serialize(codes + [code]) == Serialize(codes) + CodeBytes(code)
  {
    SerializeSnoc(codes, code);
    assert [] + x == x;
    ExpandAllSnoc(codes, [], code, x, y);
  }

  /** `nodes[u]` lists exactly the positions that hold the byte value `u` in the
      history `buffer`, whose newest byte is at position `location`. */
  ghost predicate Indexes(nodes: seq<seq<int>>, buffer: seq<u8>, location: int)
  {
    && |nodes| == 256
    && (forall u, p :: 0 <= u < 256 && p in nodes[u] ==>
          0 <= location - p < |buffer| && buffer[location - p] == u)
    && (forall i :: 0 <= i < |buffer| ==> location - i in nodes[buffer[i]])
  }

  /** Recording a new byte at the next position keeps the index right. */
  lemma PushIndexes(nodes: seq<seq<int>>, buffer: seq<u8>, location: int, v: u8)
    requires Indexes(nodes, buffer, location)
    ensures Indexes(nodes[v := [location + 1] + nodes[v]], [v] + buffer, location + 1)
  {
    var lists, pushed := nodes[v := [location + 1] + nodes[v]], [v] + buffer;
    forall u, p | 0 <= u < 256 && p in lists[u]
      ensures 0 <= location + 1 - p < |pushed| && pushed[location + 1 - p] == u
    {
      if p != location + 1 || u != v {
        assert p in nodes[u];
        assert pushed[location + 1 - p] == buffer[location - p];
      }
    }
    forall i | 0 <= i < |pushed|
      ensures location + 1 - i in lists[pushed[i]]
    {
      if i > 0 {
        assert pushed[i] == buffer[i - 1];
        assert location - (i - 1) in nodes[buffer[i - 1]];
      }
    }
  }

  /** Dropping the positions past the end of a shortened history keeps the index
      right. */
  lemma PruneIndexes(lists: seq<seq<int>>, pruned: seq<seq<int>>, full: seq<u8>, location: int, size: nat)
    requires Indexes(lists, full, location) && size <= |full| && |pruned| == 256
    requires forall u, p :: 0 <= u < 256 ==> (p in pruned[u] <==> p in lists[u] && location - p < size)
    ensures Indexes(pruned, full[..size], location)
  {
    forall u, p | 0 <= u < 256 && p in pruned[u]
      ensures 0 <= location - p < size && full[..size][location - p] == u
    {
      assert p in lists[u];
    }
    forall i | 0 <= i < size
      ensures location - i in pruned[full[..size][i]]
    {
      assert location - i in lists[full[i]];
    }
  }

  /** The pruning loops of `addByte`: keeps, of every position list, exactly the
      positions whose history index `location - p` is below `size`, in order. */
  method PruneNodes(lists: seq<seq<int>>, location: int, size: nat) returns (r: seq<seq<int>>)
    requires |lists| == 256
    ensures |r| == 256
    ensures forall u, p :: 0 <= u < 256 ==> (p in r[u] <==> p in lists[u] && location - p < size)
  {
    r := lists;
    for j := 0 to 256
      invariant |r| == 256
      invariant forall u :: j <= u < 256 ==> r[u] == lists[u]
      invariant forall u, p :: 0 <= u < j ==> (p in r[u] <==> p in lists[u] && location - p < size)
    {
      var list := r[j];
      var kept: seq<int> := [];
      for i := 0 to |list|
        invariant forall p :: p in kept <==> p in list[..i] && location - p < size
      {
        // erase the positions whose history index is past the end
        if location - list[i] < size {
          kept := kept + [list[i]];
        }
        assert list[..i + 1] == list[..i] + [list[i]];
      }
      assert list[..|list|] == list;
      r := r[j := kept];
    }
  }

  class CompressWriter {
    /** The writer the codes go to. */
    const sink: Writer
    /** The position counter: the byte added last sits at position `location`; the
        history index of position `p` is `location - p`. */
    var location: int
    /** Bytes written but not yet coded, oldest first. */
    var currentInput: seq<u8>
    /** The history, newest byte first. */
    var buffer: seq<u8>
    /** For each byte value, the positions in the history that hold it. */
    var nodes: seq<seq<int>>
    /** Every byte added to the history so far. */
    ghost var history: seq<u8>
    /** Every code written so far. */
    ghost var codes: seq<Code>
    /** The bytes the sink held before this writer was created. */
    ghost const prefix: seq<u8>

    /** The history and the position index agree. */
    ghost predicate IndexValid()
      reads this
    {
      && IsHistoryOf(buffer, history)
      && Indexes(nodes, buffer, location)
    }

    /** The codes written so far stand for exactly the bytes in the history. */
    ghost predicate Coherent()
      reads this, sink
    {
      && IndexValid()
      && |currentInput| <= BufferSize
      && Writable(codes)
      && sink.bytes == prefix + Serialize(codes)
      && ExpandAll(codes, []) == Success(history)
    }

    /** Between calls the pending input is below the capacity of its deque. */
    ghost predicate Valid()
      reads this, sink
    {
      Coherent() && |currentInput| < BufferSize
    }

    /** Every byte passed to `writeByte`, in order. */
    ghost function Input(): seq<u8>
      reads this
    {
      history + currentInput
    }

    constructor(sink: Writer)
      ensures Valid() && this.sink == sink
      ensures Input() == [] && codes == [] && prefix == sink.bytes
    {
      this.sink := sink;
      location := 0;
      currentInput := [];
      buffer := [];
      nodes := seq(256, _ => []);
      history := [];
      codes := [];
      prefix := sink.bytes;
    }

    /** `addByte`: records `v` at a new position, pushes it onto the history, and when
        the history overflows drops its oldest byte and every position that fell out. */
    method AddByte(v: u8)
      requires IndexValid()
      modifies this
      ensures IndexValid()
      ensures history == old(history) + [v] && location == old(location) + 1
      ensures currentInput == old(currentInput) && codes == old(codes)
    {
      location := location + 1;
      var lists := nodes[v := [location] + nodes[v]];
      PushHistoryExtends(buffer, history, v);
      var pushed := [v] + buffer;
      PushIndexes(nodes, buffer, location - 1, v);
      if |pushed| > BufferSize {
        ghost var full := pushed;
        pushed := pushed[..BufferSize];
        var pruned := PruneNodes(lists, location, |pushed|);
        PruneIndexes(lists, pruned, full, location, |pushed|);
        lists := pruned;
      }
      nodes := lists;
      buffer := pushed;
      history := history + [v];
    }

    /** Moves the first `n` pending bytes into the history, one `addByte` and
        `pop_front` at a time. */
    method ConsumeInput(n: nat)
      requires IndexValid() && n <= |currentInput|
      modifies this
      ensures IndexValid()
      ensures history == old(history) + old(currentInput)[..n]
      ensures currentInput == old(currentInput)[n..]
      ensures codes == old(codes)
    {
      ghost var input0 := currentInput;
      for i := 0 to n
        invariant IndexValid() && currentInput == input0[i..]
        invariant history == old(history) + input0[..i]
        invariant codes == old(codes)
      {
        AddByte(currentInput[0]);
        currentInput := currentInput[1..];
        assert input0[..i + 1] == input0[..i] + [input0[i]];
      }
    }

    /** The inner loop of `getBiggestMatch`: how many pending bytes match the history
        from position `startPos`, which holds the first pending byte. No match from
        there is longer. */
    method MatchLength(startPos: int) returns (matchLength: nat)
      requires IndexValid() && |currentInput| > 0 && startPos in nodes[currentInput[0]]
      ensures matchLength >= 1 && MatchFrom(startPos, matchLength, location, currentInput, buffer)
      ensures forall len: nat :: MatchFrom(startPos, len, location, currentInput, buffer) ==> len <= matchLength
    {
      matchLength := 1;
      var node := startPos;
      var ii := 1;
      while ii < |currentInput|
        invariant 1 <= ii <= |currentInput| && matchLength == ii && node == startPos + ii - 1
        invariant IsMatch(Match(location - startPos, ii), currentInput, buffer)
      {
        // `location - (node + 1)` in size_t: a negative value wraps past the end
        var pos := location - (node + 1);
        if pos < 0 || pos >= |buffer| {
          break;
        }
        if buffer[pos] != currentInput[ii] {
          break;
        }
        matchLength := matchLength + 1;
        ii := ii + 1;
        node := node + 1;
      }
      forall len: nat | MatchFrom(startPos, len, location, currentInput, buffer)
        ensures len <= matchLength
      {
        if len > matchLength {
          MatchContinues(startPos, matchLength, len, location, currentInput, buffer);
        }
      }
    }

    /** A non-empty match from history index `i` starts at a position the index lists
        under the first pending byte. */
    lemma IndexedStart(i: int, len: nat)
      requires IndexValid() && IsMatch(Match(i, len), currentInput, buffer) && len > 0
      ensures location - i in nodes[currentInput[0]]
      ensures MatchFrom(location - i, len, location, currentInput, buffer)
    {
      assert currentInput[0] == buffer[i];
    }

    /** `getBiggestMatch`: the longest match among the positions holding the first
        pending byte, capped at `maxLength + 1`. */
    method GetBiggestMatch() returns (m: Match)
      requires IndexValid()
      ensures IsMatch(m, currentInput, buffer) && m.length <= MaxLength + 1
      ensures |currentInput| > 0 && nodes[currentInput[0]] != [] ==> m.length >= 1
      ensures |currentInput| > 0 ==>
        forall p, len: nat :: p in nodes[currentInput[0]] && MatchFrom(p, len, location, currentInput, buffer) ==>
          m.length >= len || m.length == MaxLength + 1
      ensures forall i, len: nat :: IsMatch(Match(i, len), currentInput, buffer) ==>
        m.length >= len || m.length == MaxLength + 1
    {
      forall i, len: nat | IsMatch(Match(i, len), currentInput, buffer) && len > 0
        ensures location - i in nodes[currentInput[0]] && MatchFrom(location - i, len, location, currentInput, buffer)
      {
        IndexedStart(i, len);
      }
      if |currentInput| == 0 {
        return Match(0, 0);
      }
      var curNodes := nodes[currentInput[0]];
      if |curNodes| == 0 {
        return Match(0, 0);
      }
      m := Match(0, 0);
      for n := 0 to |curNodes|
        invariant IsMatch(m, currentInput, buffer)
        invariant n > 0 ==> m.length >= 1
        invariant forall j, len: nat :: 0 <= j < n && MatchFrom(curNodes[j], len, location, currentInput, buffer) ==> len <= m.length
      {
        var startPos := curNodes[n];
        assert startPos in nodes[currentInput[0]];
        var matchLength := MatchLength(startPos);
        if matchLength > m.length {
          m := Match(location - startPos, matchLength);
        }
      }
      forall p, len: nat | p in curNodes && MatchFrom(p, len, location, currentInput, buffer)
        ensures len <= m.length
      {
        var j :| 0 <= j < |curNodes| && curNodes[j] == p;
      }
      if m.length > MaxLength + 1 {
        m := m.(length := MaxLength + 1);
      }
    }

    /** Codes the first pending byte as a literal. */
    method WriteLiteral()
      requires Coherent() && |currentInput| > 0
      modifies this, sink
      ensures Coherent() && Input() == old(Input())
      ensures currentInput == old(currentInput)[1..]
    {
      var b := currentInput[0];
      ghost var h0 := history;
      AddByte(b);
      var code := Literal(b);
      code.Write(sink);
      AppendCode(codes, code, h0, [b]);
      codes := codes + [code];
      ghost var input0 := currentInput;
      currentInput := currentInput[1..];
      calc {
        Input();
        (h0 + [b]) + input0[1..];
        { AppendAssoc(h0, [b], input0[1..]); SliceLaws(input0, 0); }
        h0 + input0;
      }
    }

    /** `writeCode`: codes a prefix of the pending input, as a back-reference followed
        by a byte when a match of two or more bytes exists, as a literal otherwise. */
    method WriteCode()
      requires Coherent()
      modifies this, sink
      ensures Coherent() && Input() == old(Input())
      ensures old(|currentInput|) > 0 ==> |currentInput| < old(|currentInput|)
      ensures old(|currentInput|) == 0 ==> currentInput == old(currentInput)
    {
      if |currentInput| == 0 {
        return;
      }
      if |currentInput| == 1 {
        WriteLiteral();
        return;
      }
      var m := GetBiggestMatch();
      if m.length <= 1 {
        WriteLiteral();
        return;
      }
      WriteMatch(m);
    }

    /** The back-reference branch of `writeCode`: the first `length - 1` pending bytes
        go to the history, then one code covers them and the byte after them. */
    method WriteMatch(m: Match)
      requires Coherent() && IsMatch(m, currentInput, buffer)
      requires 2 <= m.length <= MaxLength + 1 && m.length <= |currentInput|
      modifies this, sink
      ensures Coherent() && Input() == old(Input())
      ensures currentInput == old(currentInput)[m.length..]
    {
      ghost var h0, input0 := history, currentInput;
      EmitMatch(m);
      ghost var h1, rest := history, currentInput;
      AddByte(currentInput[0]);
      currentInput := currentInput[1..];
      calc {
        Input();
        (h1 + [rest[0]]) + rest[1..];
        { AppendAssoc(h1, [rest[0]], rest[1..]); SliceLaws(rest, 0); }
        h1 + rest;
        (h0 + input0[..m.length - 1]) + input0[m.length - 1..];
        { AppendAssoc(h0, input0[..m.length - 1], input0[m.length - 1..]); SliceLaws(input0, m.length - 1); }
        h0 + input0;
      }
    }

    /** The first part of the back-reference branch: moves the first `length - 1`
        pending bytes to the history and writes the code, which also stands for the
        next pending byte, not yet in the history. */
    method EmitMatch(m: Match)
      requires Coherent() && IsMatch(m, currentInput, buffer)
      requires 2 <= m.length <= MaxLength + 1 && m.length <= |currentInput|
      modifies this, sink
      ensures IndexValid() && currentInput == old(currentInput)[m.length - 1..]
      ensures history == old(history) + old(currentInput)[..m.length - 1]
      ensures Writable(codes) && sink.bytes == prefix + Serialize(codes)
      ensures ExpandAll(codes, []) == Success(history + [currentInput[0]])
    {
      var len := m.length - 1;
      ghost var h0, input0 := history, currentInput;
      MatchExpands(m, input0, buffer, h0);
      ConsumeInput(len);
      var code := Code(len, m.location, currentInput[0]);
      assert code == Code(len, m.location, input0[len]);
      SliceLaws(input0, len);
      AppendAssoc(h0, input0[..len], [input0[len]]);
      ghost var h1 := history;
      assert h1 + [currentInput[0]] == h0 + input0[..len + 1];
      code.Write(sink);
      AppendCode(codes, code, h0, input0[..len + 1]);
      codes := codes + [code];
    }

    /** `flush`: codes all pending input, then flushes the sink. */
    method Flush()
      requires Valid()
      modifies this, sink
      ensures Valid() && currentInput == [] && history == old(Input())
    {
      while |currentInput| > 0
        invariant Coherent() && Input() == old(Input())
        decreases |currentInput|
      {
        WriteCode();
      }
      assert history + [] == history;
      sink.Flush();
    }

    /** `writeByte`: queues `v`, and codes once the queue is full. */
    method WriteByte(v: u8)
      requires Valid()
      modifies this, sink
      ensures Valid() && Input() == old(Input()) + [v]
    {
      currentInput := currentInput + [v];
      if |currentInput| < BufferSize {
        return;
      }
      WriteCode();
    }
  }
}
