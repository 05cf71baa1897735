# physics — a verified model of the engine's integer, byte and container core

This project models the parts of programmerjake's voxel/physics engine that are
exact: the byte-level parts, the integer parts and the container parts. It proves
properties of that model in Dafny.

- **LZ77 stream codec** (`compressed_stream.h`).
  - A code is `nextByte` followed by a big-endian word: 6 bits of length and 10 bits of offset.
  - `ExpandReader` turns codes back into bytes against a history of 1024 bytes.
  - `CompressWriter` searches that history for the longest match.
  - The model proves that everything written through a `CompressWriter` and flushed reads back unchanged through an `ExpandReader`, and that the next read then ends with EOF.
- **Binary serializer** (`stream.h`).
  - Big-endian integer writers and readers, booleans, range-checked reads and dimensions.
  - The engine's own string format. It is UTF-8-like: NUL is written as `C0 80`, characters from 0x1000 up take four bytes, and the terminator is a single 0.
  - An in-memory reader, and the chained stream server.
- **Containers of `util.h`**: the ring-buffer `circularDeque`, the ordered `balanced_tree`, the bounded free list `ArenaAllocator`, `limit`, `sgn` and `makeSeed`.
- **Positions**: `VectorI` integer algebra (`vector.h`), `PositionI`, and the duplicate-free queue `UpdateList` (`position.h`).
- **Audio** (`audio.h`): the `MemoryAudioDecoder` cursor over `int16_t` samples, and the channel remixing tables of `RedistributeChannelsAudioDecoder`.
- **Meshes** (`mesh.h`, `generate.h`).
  - A mesh stores triangles as three flat float arrays with strides 9, 12 and 6.
  - Modelled operations: appending, the texture rule, iterators, transformed meshes, `interpolateColors`, `invert`, `quadrilateral` and `unitBox`.
- **Images** (`image.cpp`): an RGBA byte buffer with bounds-checked pixel access, row-order flipping by swapping rows, and copy-on-write sharing.
- **Physics bookkeeping** (`physics.h`): the two variable sets selected by the world's index, the running mean that `setNewState` keeps, the box tests of `collides` and `isSupportedBy`, the push-out of `adjustPosition`, and `CollisionEvent` equality.

How values are modelled:

- `float` and `double` are `real`, so rounding is not modelled.
- Fixed-width integers are subset types of `int` (`u8` … `i64`). Wrap-around and signed-to-unsigned conversions are written out where the source performs them, including the iterator difference of mesh.h:336.
- Exceptions become `Result` failures carrying the exception's kind.
- Objects the source updates in place are classes, with `modifies` frames.
- Pure computations are functions. Each is specified by lemmas that relate it to an inverse or to an independent definition.

One Dafny module per source concept: `Wrappers`, `Integers`, `Sequences`,
`Dimensions`, `Util`, `CircularDeques`, `BalancedTrees`, `Arena`, `Vectors`,
`Positions`, `Streams`, `LZ77Codes`, `LZ77Compress`, `LZ77Expand`, `LZ77RoundTrip`,
`Audio`, `Geometry`, `Images`, `Meshes`, `Shading`, `Generate` and `Physics`.

## Model

| member | source | states |
|---|---|---|
| `Integers.ToSigned` | stream.h:130-135 | the two's-complement reading of an unsigned field lies in the signed range and agrees with it modulo 2^n |
| `Integers.ToUnsigned` | stream.h:353-356 | the unsigned form a signed value is written as lies in [0, 2^n) and agrees with it modulo 2^n |
| `Integers.SignedRoundTrip` | stream.h:143-148 | reinterpreting the unsigned form of a signed value gives the value back |
| `Integers.UnsignedRoundTrip` | stream.h:362-365 | reinterpreting a signed reading as unsigned gives the original field back |
| `Integers.NarrowI16` | audio.h:212 | storing an `int` into `int16_t` keeps it modulo 2^16, and keeps it exactly when it is in range |
| `Integers.TDiv` | audio.h:212 | C++ `/` truncates toward zero: the quotient times the divisor lies on the dividend's side of zero, within one divisor of it |
| `Integers.NarrowWrapped` | audio.h:212 | an int16 value converted to 32-bit unsigned and narrowed back to `int16_t` is unchanged |
| `Dimensions.Index` | dimension.h:29-33 | a dimension's number is below `Last` |
| `Dimensions.FromIndex` | dimension.h:29-33 | the cast from a number below `Last` inverts `Index` |
| `Util.Limit` | util.h:42-56 | `limit` returns max above max, min below min, v inside, and always lies in [min, max] when min ≤ max |
| `Util.LimitIdempotent` | util.h:42-56 | limiting twice equals limiting once; limiting never moves v past the bound it already satisfies |
| `Util.Sgn` | util.h:68-82 | `sgn` is −1, 0 or 1, matching the sign of v in both directions |
| `Util.SgnTimesValue` | util.h:68-82 | `sgn(v) * v = |v|` and `sgn(−v) = −sgn(v)` |
| `Util.SeedHashIsHorner` | util.h:818-825 | the 32-bit wrapping loop `retval = retval * 9 + ch` equals the base-9 value of the string modulo 2^32 |
| `Util.MakeSeed` | util.h:810-826 | the empty string takes the clock seed; otherwise the loop's result is the base-9 value modulo 2^32 |
| `CircularDeques.CircularDeque.Size` | util.h:695-698 | size is `(back − front) mod arraySize`, always below arraySize, and zero exactly when front == back |
| `CircularDeques.CircularDeque.constructor` | util.h:610-613 | a new deque is empty, with both indices 0 |
| `CircularDeques.CircularDeque.IsEmpty` | util.h:730-733 | `empty()` holds exactly when there are no elements |
| `CircularDeques.CircularDeque.Clear` | util.h:735-738 | `clear` leaves no elements |
| `CircularDeques.CircularDeque.At` | util.h:700-718 | `at(pos)` gives the element at pos, and `out_of_range` exactly when pos ≥ size |
| `CircularDeques.CircularDeque.Front` | util.h:675-683 | `front` is the first element |
| `CircularDeques.CircularDeque.Back` | util.h:685-693 | `back` is the last element |
| `CircularDeques.CircularDeque.PushBack` | util.h:760-778 | below capacity, `push_back(v)` makes the elements `old + [v]` |
| `CircularDeques.CircularDeque.PushFront` | util.h:740-758 | below capacity, `push_front(v)` makes the elements `[v] + old` |
| `CircularDeques.CircularDeque.PopFront` | util.h:780-788 | on a non-empty deque `pop_front` removes exactly the first element |
| `CircularDeques.CircularDeque.PopBack` | util.h:790-798 | on a non-empty deque `pop_back` removes exactly the last element |
| `BalancedTrees.OrderedInOrder` | util.h:961-995 | the in-order walk of a search tree is strictly ascending and holds exactly its keys |
| `BalancedTrees.Make` | util.h:866-883 | a node with depth recomputed has the keys and in-order sequence of its parts |
| `BalancedTrees.MakeDepthsOk` | util.h:866-883 | `calcDepth` leaves every node's depth equal to its height |
| `BalancedTrees.RotateLeft` | util.h:905-919 | `rotateLeft` keeps the in-order sequence and the keys |
| `BalancedTrees.RotateRight` | util.h:920-934 | `rotateRight` keeps the in-order sequence and the keys |
| `BalancedTrees.RotateLeftOrdered` | util.h:905-919 | `rotateLeft` keeps the search order |
| `BalancedTrees.RotateRightOrdered` | util.h:920-934 | `rotateRight` keeps the search order |
| `BalancedTrees.RotationsKeepDepths` | util.h:905-934 | both rotations keep every stored depth equal to the height |
| `BalancedTrees.Balance` | util.h:935-960 | `balanceNode` keeps the in-order sequence and the keys |
| `BalancedTrees.Rebuild` | util.h:993-994 | `calcDepth` then `balanceNode` on a node keeps its in-order sequence and keys |
| `BalancedTrees.RebuildOrdered` | util.h:993-994 | rebuilding a node over ordered subtrees gives an ordered tree |
| `BalancedTrees.RebuildDepths` | util.h:993-994 | rebuilding a node keeps the depth invariant |
| `BalancedTrees.Insert` | util.h:961-995 | after `insert(x)` the keys are the old keys plus x |
| `BalancedTrees.InsertOrdered` | util.h:961-995 | `insert` keeps the tree strictly ordered |
| `BalancedTrees.InsertDepths` | util.h:961-995 | `insert` keeps the depth invariant |
| `BalancedTrees.InsertPresent` | util.h:979-983 | inserting a value equal to a stored one discards it and leaves the contents as they were |
| `BalancedTrees.FindCorrect` | util.h:1118-1140 | on an ordered tree `find(x)` succeeds exactly when x is a key |
| `BalancedTrees.Find` | util.h:1118-1140 | `find(x)` succeeds only when x is a key of the tree |
| `BalancedTrees.RemoveMax` | util.h:996-1025 | removing the in-order predecessor takes off the last in-order element and keeps the rest |
| `BalancedTrees.RemoveMaxOrdered` | util.h:996-1025 | what remains is ordered, and every key left is below the removed one |
| `BalancedTrees.RemoveMaxDepths` | util.h:996-1025 | removing the predecessor keeps the depth invariant |
| `BalancedTrees.Remove` | util.h:1026-1088 | `erase` never adds a key |
| `BalancedTrees.RemoveCorrect` | util.h:1556-1568 | on an ordered tree `erase(x)` returns true exactly when x is a key, removes exactly x, and keeps the order |
| `BalancedTrees.RemoveRootCorrect` | util.h:1037-1072 | erasing the root's value, in each of the four shapes, removes exactly it and keeps the order |
| `BalancedTrees.RemoveInnerCorrect` | util.h:1063-1071 | a root with two children is replaced by its in-order predecessor, with exactly the root's value removed |
| `BalancedTrees.RemoveDepths` | util.h:1026-1088 | `erase` keeps the depth invariant |
| `BalancedTrees.EraseThenFind` | util.h:1556-1568 | after `erase(x)`, `find(x)` fails |
| `BalancedTrees.BetweenConcat` | util.h:1089-1117 | filtering to [min, max] distributes over concatenation |
| `BalancedTrees.BetweenNone` | util.h:1089-1117 | filtering a sequence with nothing in [min, max] gives nothing |
| `BalancedTrees.ForEachInRangeCorrect` | util.h:1089-1117 | `forEachInRange` visits exactly the in-order elements within [min, max], ascending |
| `BalancedTrees.ForEachInRange` | util.h:1089-1117 | every visited element is a key of the tree within [min, max] |
| `Arena.ArenaAllocator.constructor` | util.h:1856-1858 | a new allocator has an empty free list |
| `Arena.ArenaAllocator.Alloc` | util.h:1866-1875 | `alloc` pops the most recently freed block, or returns a fresh one when the list is empty |
| `Arena.ArenaAllocator.Free` | util.h:1876-1884 | `free(nullptr)` does nothing; a full list drops the block; otherwise it is pushed, so the list never exceeds `sizeLimit` |
| `Arena.FreeThenAlloc` | util.h:1866-1884 | below the limit, `alloc` after `free(p)` returns p and restores the list |
| `Vectors.VectorI.Neg` | vector.h:48-51 | −a is the additive inverse: a + (−a) = (−a) + a = 0 |
| `Vectors.VectorI.Add` | vector.h:58-61 | the zero vector is neutral on either side of `+`, and a sum is zero exactly for opposite vectors |
| `Vectors.VectorI.Sub` | vector.h:63-66 | `a − b` undoes `+`: (a − b) + b = a |
| `Vectors.Splat` | vector.h:43-46 | `VectorI(0)` is neutral for `+`, and `VectorI(1)` is neutral for the component-wise product |
| `Vectors.AbsSquared` | vector.h:127-130 | `absSquared` is never negative |
| `Vectors.ArithmeticLaws` | vector.h:48-81 | (a + b) − b = a, (a − b) + b = a, −(−a) = a, + commutes, 1 is neutral for both products, a + (−b) = a − b |
| `Vectors.EqualityLaws` | vector.h:83-91 | `==` holds exactly for equal components, and `!=` is its negation |
| `Vectors.CompoundAssignments` | vector.h:93-120 | `+=`, `-=`, `*=` store the value of the matching binary operator |
| `Vectors.AbsSquaredZero` | vector.h:122-130 | `absSquared(v) = dot(v, v)`, zero only for the zero vector |
| `Vectors.CrossLaws` | vector.h:122-140 | cross(a, b) = −cross(b, a), and the cross product is orthogonal to both factors |
| `Vectors.Dot` | vector.h:122-125 | the dot product of a vector with itself is never negative |
| `Vectors.Cross` | vector.h:137-140 | the cross product of a vector with itself is the zero vector |
| `Positions.PositionI.AddVector` | position.h:70-73 | position + vector adds the vectors and keeps the position's dimension |
| `Positions.PositionI.SubVector` | position.h:78-81 | position − vector subtracts and keeps the dimension |
| `Positions.PositionI.MulVector` | position.h:86-89 | position * vector multiplies component-wise and keeps the dimension |
| `Positions.PositionI.Scale` | position.h:94-97 | position * int scales and keeps the dimension |
| `Positions.PositionI.Neg` | position.h:102-105 | −position negates and keeps the dimension |
| `Positions.FromVector` | position.h:42-45 | `PositionI(v, d)` holds v and d |
| `Positions.Origin` | position.h:30-33 | `PositionI()` is the zero vector in the overworld |
| `Positions.VectorAdd` | position.h:74-77 | vector + position keeps the position's dimension |
| `Positions.VectorSub` | position.h:82-85 | vector − position keeps the position's dimension |
| `Positions.Sum` | position.h:126-129 | `l + r` of two positions is a vector: added to l, or to r, as a vector it gives the same coordinates, in that position's dimension |
| `Positions.Diff` | position.h:130-133 | `l − r` of two positions is a vector: r plus it reaches l's coordinates, l minus it reaches r's, and it is zero exactly when the coordinates agree |
| `Positions.PositionLaws` | position.h:46-85 | `==` compares components and dimension; comparison with a vector ignores the dimension; (p + v) − v = p; v + p = p + v |
| `Positions.Without` | position.h:338-353 | the list with p removed holds exactly the other elements |
| `Positions.AddAll` | position.h:331-337 | merging appends at most rt's elements |
| `Positions.AddAllProperties` | position.h:331-337 | merging keeps the list duplicate-free, holds exactly the union, and keeps the old list as a prefix |
| `Positions.WithoutSplit` | position.h:338-353 | removing a present element cuts exactly its slot out and keeps the order of the rest |
| `Positions.WithoutAbsent` | position.h:338-353 | removing an absent element changes nothing |
| `Positions.WithoutNoDuplicates` | position.h:338-353 | removing keeps the list duplicate-free |
| `Positions.UpdateList.constructor` | position.h:315-318 | a new list is empty |
| `Positions.UpdateList.Add` | position.h:319-325 | `add(p)` appends p only when the set lacks it; the set gains p |
| `Positions.UpdateList.Clear` | position.h:326-330 | `clear` empties the list and the set |
| `Positions.UpdateList.Merge` | position.h:331-337 | `merge(rt)` appends rt's positions in rt's order, skipping ones already present |
| `Positions.UpdateList.Remove` | position.h:338-353 | `remove(p)` deletes p from both the set and the list |
| `Positions.UpdateList.IsEmpty` | position.h:354-357 | `empty()` holds exactly when the set (and hence the list) is empty |
| `Streams.FieldAt` | stream.h:136-174 | a successful n-byte big-endian read is below 256^n |
| `Streams.SignedFieldAt` | stream.h:130-174 | a successful signed read lies in the n-byte two's-complement range |
| `Streams.LimitAfterRead` | stream.h:98-106 | the value is returned exactly when min ≤ v ≤ max, and otherwise the error is `InvalidDataValue` |
| `Streams.U16Bytes` | stream.h:357-361 | `writeU16` emits two bytes |
| `Streams.U32Bytes` | stream.h:366-370 | `writeU32` emits four bytes |
| `Streams.U64Bytes` | stream.h:375-379 | `writeU64` emits eight bytes |
| `Streams.BigEndianConcat` | stream.h:136-168 | a big-endian prefix is shifted left by the width of the bytes after it |
| `Streams.U16RoundTrip` | stream.h:136-142 | the high byte comes first, and `readU16` reads back what `writeU16` wrote |
| `Streams.U32RoundTrip` | stream.h:149-155 | `readU32` inverts `writeU32` |
| `Streams.U64RoundTrip` | stream.h:162-168 | `readU64` inverts `writeU64` |
| `Streams.S8RoundTrip` | stream.h:130-135 | `readS8` inverts `writeS8` through two's complement |
| `Streams.S16RoundTrip` | stream.h:143-148 | `readS16` inverts `writeS16` |
| `Streams.S32RoundTrip` | stream.h:156-161 | `readS32` inverts `writeS32` |
| `Streams.S64RoundTrip` | stream.h:169-174 | `readS64` inverts `writeS64` |
| `Streams.BoolRoundTrip` | stream.h:201-204 | `writeBool` emits 0 or 1, and `readBool` (nonzero is true) gives it back |
| `Streams.DecodeStep` | stream.h:216-262 | one step of `readString` accepts a 0 terminator or a character of 1 to 4 bytes that are present |
| `Streams.DecodeString` | stream.h:205-264 | a successful `readString` consumes at least the terminator and no more than the input |
| `Streams.EncodeChar` | stream.h:414-437 | a character is written as 1 to 4 bytes, none of them 0 (NUL becomes `C0 80`) |
| `Streams.EncodeChars` | stream.h:410-439 | the characters of a string are written with no 0 byte |
| `Streams.EncodeString` | stream.h:410-439 | `writeString` ends with exactly one 0 byte, the only 0 it emits |
| `Streams.EncodeCharsSnoc` | stream.h:410-439 | encoding a string extended by one character appends that character's bytes |
| `Streams.CharRoundTrip` | stream.h:216-262 | one decoding step reads back a written character below 0x10FFFF, with its byte count |
| `Streams.StringRoundTrip` | stream.h:205-264 | `readString(writeString(s)) == s` for every s of characters below 0x10FFFF, whatever follows |
| `Streams.StringRejects` | stream.h:216-262 | a bad continuation byte, a lead byte in 0x80–0xBF or ≥ 0xF8, and a 4-byte value ≥ 0x10FFFF each give `UTFDataFormat` |
| `Streams.DecodeStringUnfold` | stream.h:205-264 | `readString` is one step followed by the rest of the loop |
| `Streams.MemoryReader.constructor` | stream.h:513-528 | a new memory reader starts at offset 0 |
| `Streams.MemoryReader.Remaining` | stream.h:513-535 | the bytes still to read are the buffer past the offset |
| `Streams.MemoryReader.ReadByte` | stream.h:529-534 | `readByte` returns `mem[offset]` and advances, or fails with EOF at the end without moving |
| `Streams.MemoryReader.ReadBytes` | stream.h:117-123 | `readBytes(n)` returns the next n bytes, or EOF when fewer remain |
| `Streams.MemoryReader.ReadU8` | stream.h:124-129 | `readU8` reads one byte |
| `Streams.MemoryReader.ReadS8` | stream.h:130-135 | `readS8` reads one byte as two's complement |
| `Streams.MemoryReader.ReadU16` | stream.h:136-142 | `readU16` reads two big-endian bytes |
| `Streams.MemoryReader.ReadS16` | stream.h:143-148 | `readS16` reads two bytes as two's complement |
| `Streams.MemoryReader.ReadU32` | stream.h:149-155 | `readU32` reads four big-endian bytes |
| `Streams.MemoryReader.ReadS32` | stream.h:156-161 | `readS32` reads four bytes as two's complement |
| `Streams.MemoryReader.ReadU64` | stream.h:162-168 | `readU64` reads eight big-endian bytes |
| `Streams.MemoryReader.ReadS64` | stream.h:169-174 | `readS64` reads eight bytes as two's complement |
| `Streams.MemoryReader.ReadBool` | stream.h:201-204 | `readBool` is true exactly for a nonzero byte |
| `Streams.MemoryReader.ReadStringStep` | stream.h:216-262 | one loop iteration consumes exactly the bytes of one decoding step |
| `Streams.MemoryReader.ReadString` | stream.h:205-264 | `readString` returns the decoded string and consumes its bytes, or fails with the decoder's error |
| `Streams.MemoryReader.ReadLimitedU8` | stream.h:265-268 | the U8 read, limited to [min, max] |
| `Streams.MemoryReader.ReadLimitedS8` | stream.h:269-272 | the S8 read, limited to [min, max] |
| `Streams.MemoryReader.ReadLimitedU16` | stream.h:273-276 | the U16 read, limited to [min, max] |
| `Streams.MemoryReader.ReadLimitedS16` | stream.h:277-280 | the S16 read, limited to [min, max] |
| `Streams.MemoryReader.ReadLimitedU32` | stream.h:281-284 | the U32 read, limited to [min, max] |
| `Streams.MemoryReader.ReadLimitedS32` | stream.h:285-288 | the S32 read, limited to [min, max] |
| `Streams.MemoryReader.ReadLimitedU64` | stream.h:289-292 | the U64 read, limited to [min, max] |
| `Streams.MemoryReader.ReadLimitedS64` | stream.h:293-296 | the S64 read, limited to [min, max] |
| `Streams.MemoryReader.ReadDimension` | stream.h:323-326 | `readDimension` accepts only bytes 0 .. Last − 1, gives `InvalidDataValue` for others and EOF at the end |
| `Streams.Writer.constructor` | stream.h:329-335 | a new writer has written nothing |
| `Streams.Writer.WriteByte` | stream.h:340 | `writeByte` appends one byte |
| `Streams.Writer.Flush` | stream.h:341-343 | `flush` on a plain writer writes nothing |
| `Streams.Writer.WriteBytes` | stream.h:344-348 | `writeBytes` appends the bytes in order |
| `Streams.Writer.WriteU8` | stream.h:349-352 | `writeU8` appends the byte |
| `Streams.Writer.WriteS8` | stream.h:353-356 | `writeS8` appends the unsigned form |
| `Streams.Writer.WriteU16` | stream.h:357-361 | `writeU16` appends the big-endian bytes |
| `Streams.Writer.WriteS16` | stream.h:362-365 | `writeS16` appends the unsigned form's bytes |
| `Streams.Writer.WriteU32` | stream.h:366-370 | `writeU32` appends the big-endian bytes |
| `Streams.Writer.WriteS32` | stream.h:371-374 | `writeS32` appends the unsigned form's bytes |
| `Streams.Writer.WriteU64` | stream.h:375-379 | `writeU64` appends the big-endian bytes |
| `Streams.Writer.WriteS64` | stream.h:380-383 | `writeS64` appends the unsigned form's bytes |
| `Streams.Writer.WriteBool` | stream.h:406-409 | `writeBool` appends 1 or 0 |
| `Streams.Writer.WriteString` | stream.h:410-439 | the loop of `writeString` appends the string's encoding and its terminator |
| `Streams.Writer.WriteStringChar` | stream.h:414-437 | one iteration appends one character's bytes |
| `Streams.Writer.WriteDimension` | stream.h:440-443 | `writeDimension` appends the dimension's number |
| `Streams.StreamServerWrapper.constructor` | stream.h:668-671 | the streams pending are this server's, then the next server's |
| `Streams.StreamServerWrapper.Accept` | stream.h:672-680 | `accept` hands out the first pending stream and drops it, or fails with `NoStreamsLeft` when the chain is exhausted |
| `LZ77Codes.DefaultCode` | compressed_stream.h:45-48 | the default code is EOF and has no next byte |
| `LZ77Codes.Literal` | compressed_stream.h:49-52 | a literal code is not EOF and carries its byte |
| `LZ77Codes.EofIffNoNextByte` | compressed_stream.h:53-60 | `eof()` and `hasNextByte()` are complementary |
| `LZ77Codes.CodeBytes` | compressed_stream.h:79-85 | a code is written as three bytes |
| `LZ77Codes.ParseCode` | compressed_stream.h:61-78 | a successful read consumed three bytes |
| `LZ77Codes.CodeRoundTrip` | compressed_stream.h:36-85 | a code with length ≤ 63 and offset ≤ 1023 is written as `nextByte` then the big-endian word `length << 10 \| offset`, and reads back as itself |
| `LZ77Codes.ParseTruncated` | compressed_stream.h:61-78 | input that ends before `nextByte` is EOF; input that ends inside the word is a format error |
| `LZ77Codes.Code.Read` | compressed_stream.h:61-78 | `read` on a memory reader is `ParseCode` of its remaining bytes, and consumes three bytes on success |
| `LZ77Codes.Code.Write` | compressed_stream.h:79-85 | `write` appends the code's three bytes |
| `LZ77Codes.Serialize` | compressed_stream.h:79-85 | a sequence of codes takes three bytes each |
| `LZ77Codes.SerializeSnoc` | compressed_stream.h:79-85 | writing one more code appends its bytes |
| `LZ77Codes.PushHistory` | compressed_stream.h:136-141 | the history after a push holds at most 1024 bytes |
| `LZ77Codes.PushHistoryExtends` | compressed_stream.h:136-141 | the history keeps the newest byte at index 0 and stays the reversed tail of the output |
| `LZ77Codes.CopyBack` | compressed_stream.h:121-134 | a back-reference yields exactly `length` bytes |
| `LZ77Codes.CopyBackSlice` | compressed_stream.h:128 | a copy that stays behind the newest byte reads a slice of the output |
| `LZ77Codes.Expand` | compressed_stream.h:107-134 | a non-EOF code stands for length + 1 bytes, and EOF for none |
| `LZ77Codes.ExpandAllCons` | compressed_stream.h:107-144 | expanding a sequence is the first code's bytes, then the rest after them |
| `LZ77Codes.ExpandAllUncons` | compressed_stream.h:107-144 | a successful expansion splits into the first code's bytes and the rest's |
| `LZ77Codes.ExpandAllSingle` | compressed_stream.h:107-144 | one code expands to its own bytes |
| `LZ77Codes.ExpandAllSnoc` | compressed_stream.h:107-144 | expanding codes extended by one appends that code's bytes |
| `LZ77Compress.MatchIsCopy` | compressed_stream.h:214-245 | a match found in the history is a back-reference copy of the pending input |
| `LZ77Compress.MatchExpands` | compressed_stream.h:266-273 | the code emitted for a match fits its bit widths, is not EOF, and stands for the matched bytes plus the next one |
| `LZ77Compress.AppendCode` | compressed_stream.h:272-273 | emitting a code extends both the written bytes and the bytes the codes stand for |
| `LZ77Compress.PushIndexes` | compressed_stream.h:176-179 | recording a byte at the next position keeps the position index right: every listed position holds its byte, and every history position is listed under its byte |
| `LZ77Compress.PruneIndexes` | compressed_stream.h:180-193 | dropping positions beyond the shortened history keeps the index right, both sound and complete |
| `LZ77Compress.PruneNodes` | compressed_stream.h:183-192 | the pruning loops keep exactly the positions still inside the history |
| `LZ77Compress.CompressWriter.constructor` | compressed_stream.h:279-286 | a new writer has no input, no codes and an empty history |
| `LZ77Compress.CompressWriter.AddByte` | compressed_stream.h:176-194 | `addByte` appends v to the history, advances the position, and keeps the index right |
| `LZ77Compress.CompressWriter.ConsumeInput` | compressed_stream.h:267-271 | moving n pending bytes moves exactly those into the history |
| `LZ77Compress.CompressWriter.IndexedStart` | compressed_stream.h:216-222 | a non-empty match from any history index starts at a position listed under the first pending byte |
| `LZ77Compress.CompressWriter.GetBiggestMatch` | compressed_stream.h:214-245 | the match found is a real match of the pending input against the history, at least one byte long when the first byte occurs in the history, and no shorter than the match from any start position in the history unless capped at `maxLength + 1` |
| `LZ77Compress.CompressWriter.MatchLength` | compressed_stream.h:225-236 | the inner loop from one start position returns a match of at least one byte that no longer match from that position exceeds |
| `LZ77Compress.CompressWriter.WriteLiteral` | compressed_stream.h:251-264 | a literal codes the first pending byte and keeps the codes standing for the history |
| `LZ77Compress.CompressWriter.WriteCode` | compressed_stream.h:247-276 | `writeCode` codes a non-empty prefix of pending input, keeping written codes equal to the history |
| `LZ77Compress.CompressWriter.WriteMatch` | compressed_stream.h:266-275 | the back-reference branch codes exactly the matched bytes |
| `LZ77Compress.CompressWriter.EmitMatch` | compressed_stream.h:266-273 | the first part of that branch moves length − 1 bytes and writes a code that stands for them and the next byte |
| `LZ77Compress.CompressWriter.Flush` | compressed_stream.h:290-295 | `flush` codes all pending input, so the codes stand for every byte written |
| `LZ77Compress.CompressWriter.WriteByte` | compressed_stream.h:296-302 | `writeByte` queues v, and codes once the queue is full |
| `LZ77Expand.StepRejectsFarOffset` | compressed_stream.h:123-126 | a back-reference whose offset reaches past the history is a format error |
| `LZ77Expand.StepExpands` | compressed_stream.h:107-144 | one `readByte` yields the next byte the pending code and unread codes stand for, or EOF when there is none |
| `LZ77Expand.StepExpandsEof` | compressed_stream.h:109-112 | an exhausted code makes `readByte` read the next code |
| `LZ77Expand.StepExpandsLiteral` | compressed_stream.h:116-120 | a literal yields its byte |
| `LZ77Expand.StepExpandsCopy` | compressed_stream.h:121-134 | a back-reference yields the history byte at `offset`, and ends in its `nextByte` |
| `LZ77Expand.Step` | compressed_stream.h:107-144 | a successful `readByte` pushes the byte it yields onto the history, and the code it leaves is either still pending or, once used up, the default code `LZ77CodeType()` |
| `LZ77Expand.ExpandReader.constructor` | compressed_stream.h:96-99 | a new reader starts with the default code and an empty history |
| `LZ77Expand.ExpandReader.ReadByte` | compressed_stream.h:107-144 | `readByte` performs one `Step` and pushes the byte onto the history |
| `LZ77RoundTrip.Compress` | compressed_stream.h:290-302 | writing bytes then flushing emits well-formed codes that stand for exactly those bytes |
| `LZ77RoundTrip.StartStandsFor` | compressed_stream.h:96-99 | a fresh reader over such codes stands for all the bytes |
| `LZ77RoundTrip.ExpandToEnd` | compressed_stream.cpp:53-77 | reading the codes back yields exactly the bytes, then EOF |
| `LZ77RoundTrip.OpenExpander` | compressed_stream.h:96-103 | a new reader over the written bytes is at the start of the expansion |
| `LZ77RoundTrip.ReadNext` | compressed_stream.h:107-144 | each read yields the next expected byte, or EOF only once all are read |
| `LZ77RoundTrip.CompressThenExpand` | compressed_stream.cpp:53-77 | compressing then expanding gives every byte back in order, and the following read is EOF |
| `Audio.MemoryAudioDecoder.constructor` | audio.h:57-63 | the decoder keeps the samples, rate and channel count, at location 0 |
| `Audio.MemoryAudioDecoder.NumSamples` | audio.h:68-71 | `numSamples` is the value count divided by the channel count |
| `Audio.MemoryAudioDecoder.Remaining` | audio.h:76-86 | the frames still to decode |
| `Audio.MemoryAudioDecoder.DecodeAudioBlock` | audio.h:76-86 | returns min(n, remaining frames), copies exactly `channels × that` values in order, advances by the same, and leaves the rest of the buffer alone |
| `Audio.MemoryAudioDecoder.CopyFrame` | audio.h:81-82 | the inner loop copies one frame |
| `Audio.MemoryAudioDecoder.Reset` | audio.h:87-90 | `reset` rewinds, so all frames remain |
| `Audio.SumBounds` | audio.h:209-211 | a sum of int16 values lies between count × min and count × max |
| `Audio.WeightedMean` | audio.h:227-292 | a truncated weighted mean of int16 values is in the int16 range, with the sign of the total |
| `Audio.Mean` | audio.h:205-214 | the signed, truncated mean of a frame, the evidently intended mono value, is in the int16 range |
| `Audio.Clamp` | audio.h:276-277 | `limit(v, int16_min, int16_max)` is in range |
| `Audio.Repeat` | audio.h:655-666 | the fallback repeats one value on every channel |
| `Audio.Remix` | audio.h:203-684 | the remixing table gives `channels` values, each within the int16 range; the mono row and the fallback divide the sum by the unsigned channel count, as written |
| `Audio.RemixTo2` | audio.h:216-293 | the stereo rows give two values in range |
| `Audio.Spread` | audio.h:311-313 | `limit((5a − b) / 4)` is in range |
| `Audio.RemixTo3` | audio.h:294-377 | the three-channel rows give three values in range |
| `Audio.RemixTo4` | audio.h:378-467 | the four-channel rows give four values in range |
| `Audio.RemixTo5` | audio.h:468-568 | the five-channel rows give five values in range |
| `Audio.RemixTo6` | audio.h:569-670 | the six-channel rows give six values in range |
| `Audio.RemixIdentity` | audio.h:227-233 | with equal source and target counts a frame comes out unchanged |
| `Audio.RemixedLength` | audio.h:197-202 | remixing n frames gives `channels × n` values |
| `Audio.Remixed` | audio.h:207-683 | remixing a block of int16 frames gives values that all fit `int16_t` |
| `Audio.RemixedIdentity` | audio.h:316-323 | remixing to the same count returns the input |
| `Audio.WriteFrame` | audio.h:212 | writing through `data++` stores a frame and keeps the rest |
| `Audio.CountedFrames` | audio.h:197-202 | n × channels values make whole frames |
| `Audio.RemixedUnfold` | audio.h:207-213 | the remix of a block is the first frame's remix followed by the rest's |
| `Audio.RemixBlock` | audio.h:207-683 | the frame loop produces the remix of the whole block |
| `Audio.RemixNextFrame` | audio.h:209-213 | one iteration remixes one frame and advances `bufferIndex` by the source count |
| `Audio.RedistributeChannelsAudioDecoder.constructor` | audio.h:181-184 | the wrapper keeps its decoder and channel count |
| `Audio.RedistributeChannelsAudioDecoder.NumSamples` | audio.h:189-192 | the frame count is the wrapped decoder's |
| `Audio.RedistributeChannelsAudioDecoder.DecodeAudioBlock` | audio.h:197-686 | returns the wrapped decoder's frame count and writes exactly the remix of the decoded frames, `channels × count` values, with the mono row and the fallback dividing by the unsigned channel count as written |
| `Audio.MeanAsWritten` | audio.h:205-214 | for non-negative sums the unsigned division equals the signed mean |
| `Audio.MeanAsWrittenOnNegativeSum` | audio.h:210-212 | the frame (−1, −1, −1) mixes down to 21844 as written, where the mean is −1, and `Audio.Remix` to one channel gives 21844 |
| `Geometry.VectorF.Add` | vector.h:182-186 | the zero vector is neutral on either side of `+` on float vectors |
| `Geometry.PositionF.AddVector` | position.h:219-222 | position + vector keeps the dimension |
| `Geometry.ComponentToByte` | color.h:46-61 | `ri()` etc. give 0 at or below 0, 255 at or above 255/256, and ⌊256·v⌋ between |
| `Geometry.ByteToComponent` | color.h:62-77 | the setters map a byte into [0, 1], 0 exactly to 0 |
| `Geometry.ColorToBytes` | color.h:46-61 | a colour is stored as four bytes |
| `Geometry.BytesToColor` | color.h:62-77 | four zero bytes read back as `Color()` and nothing else does |
| `Geometry.BytesRoundTrip` | color.h:46-77 | storing the colour read from four bytes stores those bytes again |
| `Geometry.ComponentRoundTrip` | color.h:46-77 | each byte survives the conversion to a component and back |
| `Geometry.ConcatApplies` | matrix.h:402-425 | applying `a.concat(b)` applies a, then b |
| `Geometry.ConcatIdentity` | matrix.h:203-206 | the identity is neutral on both sides of `concat` |
| `Geometry.NeutralTransform` | matrix.h:419-425 | the identity keeps every point, and the white factor every colour |
| `Geometry.Matrix.Apply` | matrix.h:419-425 | the identity matrix maps every point to itself |
| `Geometry.Matrix.Concat` | matrix.h:402-416 | the identity is neutral on either side of `concat` |
| `Geometry.Interpolate` | util.h:84-88 | `interpolate(t, a, b)` is a at t = 0, b at t = 1, and a when a = b |
| `Geometry.InterpolateColor` | color.h:96-100 | the colour interpolation is a at t = 0, b at t = 1, and a when a = b |
| `Images.PixelFits` | image.cpp:87 | pixel (x, y) of an image is at `4 * (x + y * w)`, inside its row and the buffer |
| `Images.PixelInRow` | image.cpp:87 | a pixel's four bytes are bytes `4x` to `4x + 3` of its row |
| `Images.WriteStored` | image.cpp:85-91 | writing a pixel keeps the buffer length |
| `Images.WritePixel` | image.cpp:65-93 | `setPixel` on a buffer keeps its length |
| `Images.ReadAfterWrite` | image.cpp:65-123 | `getPixel` right after `setPixel` at the same place gives the colour of the stored bytes |
| `Images.WriteKeepsOthers` | image.cpp:85-91 | `setPixel` keeps the colour of every other pixel |
| `Images.StoredRowReflects` | image.cpp:74-79 | bottom-to-top storage maps y to h − 1 − y, an involution that keeps exactly the in-range rows in range |
| `Images.FirstRowPairAsWritten` | image.cpp:170-176 | the loop's first pair is (0, h − 1), with h − 1 wrapping to 2^32 − 1 when h = 0 |
| `Images.EmptyImageSwapOutOfRange` | image.cpp:176-180 | for an image with no rows the loop as written runs and exchanges a row beyond the buffer |
| `Images.ReversedRowsTwice` | image.cpp:168-181 | reversing the rows twice gives the buffer back |
| `Images.FlipKeepsPixels` | image.cpp:105-108 | every pixel reads the same colour before and after the row order changes |
| `Images.BlankPixels` | image.cpp:38-42 | every pixel of a new image reads as `Color()` |
| `Images.SwappedBytes` | image.cpp:187-192 | exchanging byte by byte exchanges the two ranges |
| `Images.ExchangedRows` | image.cpp:183-193 | exchanging two rows' bytes exchanges the rows and keeps all others |
| `Images.SwapStep` | image.cpp:174-179 | one exchange of the two outer rows extends the reversed part by one row at each end |
| `Images.SwapRanges` | image.cpp:187-192 | the byte loop exchanges exactly the two ranges |
| `Images.ImageData.constructor` | image.h:94-97 | `data_t(data, w, h, order)` holds the buffer, size and order, with no texture |
| `Images.ImageData.Like` | image.h:98-101 | `data_t(data, rt)` copies rt's size and order over a new buffer |
| `Images.Image.Empty` | image.cpp:50-53 | `Image()` is the empty image |
| `Images.Image.constructor` | image.cpp:38-42 | `Image(w, h)` holds 4·w·h zero bytes, stored top row first |
| `Images.Image.FromColor` | image.cpp:44-48 | `Image(c)` is one pixel whose bytes are c's |
| `Images.Image.Share` | image.h:104 | copying a handle shares the buffer and counts one more user |
| `Images.Image.GetPixel` | image.cpp:95-123 | `getPixel` gives `Color()` on the empty image or outside the image, and otherwise the stored colour |
| `Images.Image.CopyOnWrite` | image.cpp:195-212 | a shared buffer is replaced by a private copy with the same 4·w·h bytes; a private one is left alone |
| `Images.Image.SetPixel` | image.cpp:65-93 | `setPixel` does nothing on the empty image or outside it; otherwise it makes the buffer private, writes exactly the pixel's 4 bytes and clears `textureValid` |
| `Images.Image.SwapRows` | image.cpp:183-193 | `swapRows` exchanges exactly the bytes of the two rows |
| `Images.Image.SetRowOrder` | image.cpp:168-181 | the same order changes nothing; another order reverses the rows, so two flips restore the buffer |
| `Meshes.TextureDescriptor.PlaceTriangle` | mesh.h:188-226 | placing a triangle in a texture keeps its points and colours |
| `Meshes.Decode` | mesh.h:298-311 | n strided triangles are read back from the three arrays |
| `Meshes.PointsOf` | mesh.h:156-185 | triangles take 9 point floats each |
| `Meshes.ColorsOf` | mesh.h:156-185 | triangles take 12 colour floats each |
| `Meshes.CoordsOf` | mesh.h:156-185 | triangles take 6 texture-coordinate floats each |
| `Meshes.DecodeAppend` | mesh.h:445-448 | the triangles of concatenated arrays are the triangles of each, concatenated |
| `Meshes.DecodeOne` | mesh.h:298-311 | one triangle's floats read back as that triangle |
| `Meshes.DecodeEncode` | mesh.h:148-186 | the arrays built from a list of triangles read back as that list |
| `Meshes.EncodeDecode` | mesh.h:298-311 | strided arrays are rebuilt exactly from the triangles they hold |
| `Meshes.OneTriangleFloats` | mesh.h:298-311 | 9, 12 and 6 floats are exactly one triangle's |
| `Meshes.EncodeSnoc` | mesh.h:156-185 | pushing one more triangle appends its floats |
| `Meshes.TransformAll` | mesh.h:77-85 | transforming keeps the triangle count |
| `Meshes.TransformComposes` | mesh.h:103-121 | transforming a transformed mesh composes the matrices and colour factors, and the identity with white changes nothing |
| `Meshes.IteratorArithmetic` | mesh.h:320-379 | `it + i + j = it + (i + j)`, `(it + i) − i = it`, the signed distance from it to `it + i` is i and so is `(it + i) − it` as written when i ≥ 0, and `==`, `<` compare the offsets |
| `Meshes.MeshIterator.Plus` | mesh.h:320-325 | the signed distance from it to `it + i` is i, `(it + i) − it = i` as written when i ≥ 0, `it + i == it` exactly when i = 0, and `it < it + i` exactly when i > 0 |
| `Meshes.MeshIterator.Minus` | mesh.h:330-333 | `(it − i) + i = it` |
| `Meshes.MeshIterator.Difference` | mesh.h:334-337 | `it − r` as written is never negative: forwards it is the signed distance, backwards the distance converted to `size_t` (plus 2^64) divided by 6, a value below 2^63 |
| `Meshes.MeshIterator.SignedDifference` | mesh.h:334-337 | the intended `it − r`: for iterators a whole number of triangles apart, `r + 6 (it − r)` texture floats reach `it`, and the sign follows the order |
| `Meshes.DifferenceWraps` | mesh.h:336 | `begin() − (begin() + 1)` is 3074457345618258601 as written, where the signed distance is −1 |
| `Meshes.MeshIterator.Equals` | mesh.h:290-293 | `==` is reflexive, and equal iterators are not ordered by `<` either way |
| `Meshes.MeshIterator.Less` | mesh.h:374-377 | `<` is irreflexive |
| `Meshes.Mesh.Empty` | mesh.h:143-146 | `Mesh_t()` is empty, with no texture |
| `Meshes.Mesh.FromTriangles` | mesh.h:148-186 | `Mesh_t(texture, tris)` holds exactly tris, so length is n and the arrays have 9n, 12n and 6n floats |
| `Meshes.Mesh.FromDescriptor` | mesh.h:188-226 | `Mesh_t(descriptor, tris)` holds tris placed in the descriptor's texture rectangle |
| `Meshes.Mesh.PushAll` | mesh.h:156-185 | the push loop appends the triangles' floats to the three arrays |
| `Meshes.Mesh.FromTransformed` | mesh.h:228-267 | a null mesh gives an empty mesh; otherwise the triangles are the source's, transformed, with its texture |
| `Meshes.Mesh.TransformPoints` | mesh.h:242-253 | every point is mapped through the matrix; nothing else changes |
| `Meshes.Mesh.ScaleAllColors` | mesh.h:254-266 | every colour is scaled by the factor; nothing else changes |
| `Meshes.Mesh.Size` | mesh.h:386-389 | `size()` is the number of triangles |
| `Meshes.Mesh.EndIsSize` | mesh.h:391-399 | `end() = begin() + size()` and `end() − begin() = size()` |
| `Meshes.Mesh.DerefIsTriangle` | mesh.h:298-311 | `*(begin() + i)` is triangle i |
| `Meshes.Mesh.Begin` | mesh.h:391-394 | `begin()` is at the start of the three arrays, and `*(begin() + i)` is triangle i |
| `Meshes.Mesh.End` | mesh.h:396-399 | `end()` is `size()` triangles after `begin()`, and `end() − begin() = size()` |
| `Meshes.Mesh.Deref` | mesh.h:298-311 | `*it` at an iterator i triangles from the start is triangle i |
| `Meshes.Mesh.Collect` | mesh.h:391-399 | iterating from `begin` to `end` yields the triangles in order |
| `Meshes.Mesh.AdoptTexture` | mesh.h:433-443 | two different textures fail with `ImageNotSame`; a mesh without one adopts the other's; the arrays are untouched |
| `Meshes.Mesh.Add` | mesh.h:431-449 | `add(m)` fails, changing nothing, when both textures are set and differ; otherwise the triangles and each array are the concatenation of old and m's |
| `Meshes.Mesh.AddTransformed` | mesh.h:456-460 | `add(TransformedMesh)` adds the transformed triangles under the same texture rule |
| `Shading.TrilinearAtCorners` | mesh.h:499 | the interpolation at each corner of the unit cube is that corner's colour |
| `Shading.TrilinearConstant` | mesh.h:499 | with eight equal corners every point gets that colour |
| `Shading.Trilinear` | mesh.h:499 | the colour at corner (0, 0, 0) is that corner's, at (1, 1, 1) that corner's, and eight equal corners give their colour everywhere |
| `Shading.ShadeAll` | mesh.h:486-504 | shading keeps the triangle count |
| `Shading.ShadeWhite` | mesh.h:499 | white corners leave every triangle unchanged |
| `Shading.AppendShadedAsWritten` | mesh.h:483-504 | the loop as written adds one vertex per triangle, so for any non-empty mesh the arrays no longer match the length |
| `Shading.AppendShaded` | mesh.h:483-504 | the loop run per vertex appends the mesh's triangles with shaded colours and copied points and texture coordinates |
| `Shading.ShadedArrays` | mesh.h:495-503 | arrays holding the shaded colours read back as the shaded triangles |
| `Shading.InterpolateColorsInto` | mesh.h:467-506 | `interpolateColors(dest, mesh, …)` follows `add`'s texture rule and appends the shaded triangles |
| `Shading.InterpolateColors` | mesh.h:508-538 | `interpolateColors(mesh, …)` is a new mesh with the mesh's texture and its triangles shaded |
| `Generate.FlipAll` | generate.h:28-34 | inverting keeps the triangle count |
| `Generate.FlipTwice` | generate.h:28-34 | swapping vertices 0 and 1 twice restores every triangle |
| `Generate.FlipTransform` | generate.h:38-42 | inverting commutes with transforming |
| `Generate.Flip` | generate.h:28-34 | flipping keeps the third vertex, and changes the triangle exactly when its first two vertices differ |
| `Generate.Invert` | generate.h:24-36 | `invert` gives a new mesh with the same texture and every triangle's vertices 0 and 1 swapped |
| `Generate.InvertTransformed` | generate.h:38-42 | `invert(TransformedMesh)` inverts only the mesh and keeps `tform` and `factor` |
| `Generate.QuadTriangles` | generate.h:46-53 | a quadrilateral is two triangles |
| `Generate.QuadShape` | generate.h:46-53 | the triangles are (p1, p2, p3) and (p3, p4, p1), textured with the descriptor's corners |
| `Generate.Quadrilateral` | generate.h:46-53 | `quadrilateral` is a new mesh with those two triangles and the descriptor's image |
| `Generate.BoxFaces` | generate.h:56-123 | a box has six faces |
| `Generate.PresentCount` | generate.h:56-123 | no more faces are present than there are |
| `Generate.BuildSpec` | generate.h:56-123 | the faces combine exactly when present textures agree, giving 2 triangles per present face and that texture |
| `Generate.BoxFacesArePlanes` | generate.h:58-123 | each face lies in its plane x, y or z = 0 or 1 |
| `Generate.AddFace` | generate.h:56-123 | adding one face to the box built so far fails exactly when the faces so far clash |
| `Generate.UnitBox` | generate.h:56-123 | `unitBox` fails exactly when two present faces have different images; otherwise it holds 2 triangles per present face |
| `Generate.FailureEnds` | generate.h:56-123 | once adding a face fails, the whole box fails |
| `Generate.BuildFailureSticks` | generate.h:56-123 | a clash among the first faces stays a clash whatever faces follow |
| `Physics.Sgn` | util.h:68-82 | `sgn` on a float is −1, 0 or 1, its square being 1 exactly for nonzero values |
| `Physics.RunningMean` | physics.h:198-212 | folding a new proposal into the mean of the earlier ones by `(q + slot·n) / (n + 1)` gives the mean of all of them |
| `Physics.Toggled` | physics.h:149-152 | the toggled index is 0 or 1 |
| `Physics.ToggleLaws` | physics.h:149-152 | toggling maps i to 1 − i and is an involution |
| `Physics.PhysicsWorld.constructor` | physics.h:81-82 | a new world starts at time 0 with index 0 and no objects |
| `Physics.PhysicsWorld.OldIndex` | physics.h:90-93 | the old index is 0 or 1 |
| `Physics.PhysicsWorld.NewIndex` | physics.h:94-97 | the new index is the other one, `1 − old` |
| `Physics.PhysicsWorld.SwapVariableSetIndex` | physics.h:149-152 | swapping exchanges the old and new sets and nothing else |
| `Physics.BoxesCollideSpec` | physics.h:232-248 | the six guards hold exactly when the boxes are in one dimension and overlap on every axis within `distanceEPS`; the test is symmetric |
| `Physics.RestsOnSpec` | physics.h:462-480 | resting means same dimension, overlap on x and z, above by at most the half-sizes plus `4·distanceEPS`, and not rising faster than the support |
| `Physics.Normal` | physics.h:412-433 | the push-out normal is a unit vector |
| `Physics.ResponseSpec` | physics.h:408-452 | the response moves the object along one axis only, keeps its dimension, and against a static object leaves the two not approaching |
| `Physics.Response` | physics.h:412-451 | the response keeps the object's dimension and changes its position and velocity along one axis only |
| `Physics.ReflectedDot` | physics.h:440-451 | subtracting k times a unit normal lowers the normal velocity by k |
| `Physics.PhysicsObject.constructor` | physics.h:161-164 | a new object holds the same position, velocity and the world's time in both sets |
| `Physics.PhysicsObject.Make` | physics.h:166-172 | `make` builds such an object, with the given flags and extents, not destroyed, tag and count 0 and no proposals, and registers it in the world's objects and changed objects, leaving the world's time and index alone |
| `Physics.PhysicsObject.GetPosition` | physics.h:178-186 | the current position is in the old set's dimension |
| `Physics.PhysicsObject.MotionSpec` | physics.h:178-196 | position advances along the velocity, with gravity only on y for an unsupported gravity-affected object; at the object's own time the stored state is returned |
| `Physics.PhysicsObject.GetVelocity` | physics.h:188-196 | x and z follow the stored velocity; y loses 9.8 per second of elapsed time for an unsupported gravity-affected object and is the stored one otherwise |
| `Physics.PhysicsObject.SetupNewState` | physics.h:215-224 | the old set is copied into the new set, and the proposal count restarts at 0 |
| `Physics.PhysicsObject.SetNewState` | physics.h:198-212 | the new set holds the running mean of the proposals so far; the count and update tag grow by one; the old set is unchanged; the object is marked changed |
| `Physics.PhysicsObject.Average` | physics.h:203-208 | the new slot holds the mean of all proposals including this one |
| `Physics.PhysicsObject.Destroy` | physics.h:57-60 | `destroy` marks the object destroyed and keeps its flags, tag, count, proposals and running mean |
| `Physics.PhysicsObject.AdjustPosition` | physics.h:408-452 | a static object is left alone; otherwise the response is proposed as a new state in the new set at the world's time and the object is marked changed; either way the world's index, time and objects, the old set, `getPosition()`, `getVelocity()`, `supported` and `destroyed` are untouched |
| `Physics.ObjectTests` | physics.h:226-249 | `collides` is symmetric and false across dimensions; a static object is supported by anything; nothing is supported by an object that is neither static nor supported |
| `Physics.PhysicsObject.Collides` | physics.h:226-249 | colliding objects are in one dimension, and on every axis their centres are at most the half-sizes plus `distanceEPS` apart |
| `Physics.PhysicsObject.IsSupportedBy` | physics.h:454-481 | a static object is always supported; otherwise only by a supported or static object in its dimension that it is above |
| `Physics.CollisionEvent.Hash` | physics.h:132-138 | the hash is a 64-bit value |
| `Physics.NewEvent` | physics.h:108-116 | a new event records both objects' update tags |
| `Physics.EventEquality` | physics.h:117-126 | event equality is an equivalence that needs equal times, holds for the swapped event, and gives equal hashes |
| `Physics.CollisionEvent.Equals` | physics.h:117-126 | equal events have equal times and the same objects and tags in some order, and every event equals itself |

## Left out

- Floating point: `float` and `double` are exact reals, so rounding, NaN and infinities are not modelled.
- F32/F64 bit casts: `readF32`, `readF64`, `writeF32`, `writeF64` and their limited reads (stream.h:175-200, 315-322, 384-405) need IEEE-754 bit patterns.
- Locks and concurrency:
  - the image mutex;
  - `flag`;
  - stream pipes;
  - the audio callback and `playingAudioSet`.
  Every operation is modelled as one sequential step.
- Files, SDL, OpenGL and libvorbis:
  - `FileReader` and `FileWriter`;
  - `Image(resourceName)`, which decodes a PNG file;
  - `bind` and `unbind`;
  - the `Renderer`.
- Calls into code that is not shown become parameters:
  - `makeSeed()`, the clock seed, is the `clockSeed` argument of `Util.MakeSeed`;
  - `hash<double>` is the `timeHash` argument of `Physics.CollisionEvent.Hash`.
- `ResampleAudioDecoder` and `lengthInSeconds`: their rate conversion is floating point.
- `lightColors` (mesh.h:540-557): its colour math is floating point.
- `Triangle::normal` and the `Renderer`: rendering is not modelled.
- texture_descriptor.h is not part of this model. `TextureDescriptor` is modelled from its use in mesh.h and generate.h: an image handle and a rectangle of texture coordinates, present when the image is.
- Iterator members of `Mesh_t::const_iterator` that add no arithmetic: `++`, `--`, `+=`, `-=`, `operator[]`, `->`, `rbegin` and `rend`. They are all defined by `+` and `-`, which are modelled.
- The threaded `prev`/`next` list and the iterators of `balanced_tree`:
  - the tree is an inductive datatype, and its in-order sequence stands for the list;
  - the copy constructor, `rangeBegin` and `rangeEnd` are not modelled;
  - elements are integers compared by `<`, instead of a generic `compare`.
- `PhysicsWorld::runToTime`, `getNextCollisionTime` and the `CollisionEventCompare` priority queue: they search roots of polynomials in floating point.
- `PhysicsWorld::addObject`/`removeObject`: `make` inserts into `objects` directly (modelled in `Physics.PhysicsObject.Make`); removal happens only in `runToTime`, which is left out.
- Physics.PhysicsObject.constructor: the source leaves `supported` uninitialised; the model takes its initial value as a parameter.
- Physics.PhysicsObject.SetNewState: `latestUpdateTag` is an unbounded `nat`; the 64-bit wrap of the source's `uint64_t` is not modelled.
- `weak_ptr` expiry in `CollisionEvent`: an event holds the objects themselves, so an expired pointer cannot be represented.
- The call `PhysicsObject::make(…, PhysicsProperties, …)` in main.cpp does not match the declaration at physics.h:37. The model follows the header.
- Meshes.MeshIterator.Difference: follows mesh.h:336 as written, so a backward difference is the distance converted to `size_t` divided by 6, not a negative count. The signed version is `Meshes.MeshIterator.SignedDifference`. The two agree on forward distances, the only ones `end() − begin()` uses.
- Meshes.MeshIterator.Plus: `(it + i) − it = i` is promised only for i ≥ 0, and likewise in `Meshes.IteratorArithmetic`. For i < 0 the difference as written wraps (see Findings); the signed distance is promised for every i.
- Meshes.Mesh.Add: the model takes a mesh object, so the null-mesh dereference of `add(Mesh)` (mesh.h:451-454) cannot occur.
- Meshes.Mesh.Add: adding a mesh to itself is not modelled. In the source, inserting a vector into itself is undefined behaviour.
- Shading.InterpolateColorsInto: `dest` and `mesh` must be different meshes. The source reads `mesh` while it appends to `dest`.
- Images.Image.SetPixel: the pixel index `4 * (x + y * w)` is computed in `unsigned` in the source. For in-range pixels of any image that fits in memory it does not wrap, and the model uses the unbounded index.
- Audio.Remix: the `assert(false)` debug aborts of the remixing table (audio.h:281, 364, 453, 553, 654, 673) are not modelled. The model computes what a release build does there, which is the fallback.
- Audio.RedistributeChannelsAudioDecoder.constructor: the source wraps any `shared_ptr<AudioDecoder>` (audio.h:177, 181); the model wraps a `MemoryAudioDecoder`, the only decoder it defines.
- Streams.StreamServerWrapper.constructor: `nextServer` may be any `StreamServer` in the source (stream.h:666); the model takes another `StreamServerWrapper` or none.
- LZ77Compress.CompressWriter.constructor: `location` is left uninitialised in the source (compressed_stream.h:165, 279-282); the model starts it at 0. The model, like the source, uses only differences of positions.
- The console output of `setNewState` (physics.h:208) and `runToTime` (physics.h:332) is not modelled.
- `Image::operator bool`, `width()` and `height()` are one-line accessors. They are modelled without contracts, as `IsSome`, `Width` and `Height`.

## Findings

| source | as written | input that shows it | evidently intended | confidence | as-written member | corrected member |
|---|---|---|---|---|---|---|
| audio.h:205-214 | `sum / sourceChannels` divides an `int` by an `unsigned`, which converts a negative sum to `unsigned` (mod 2^32) before dividing | a 3-channel frame (−1, −1, −1): the mono value is 0x55555554 narrowed to `int16_t`, i.e. 21844 | the signed, truncated mean of the frame, here −1 | not executed | `Audio.MeanAsWritten`, `Audio.MeanAsWrittenOnNegativeSum`, `Audio.Remix` | `Audio.Mean` |
| image.cpp:168-181 | `setRowOrder` starts its swap loop at `y2 = data->h - 1` in `unsigned`, so an image with no rows gets `y2 = 2^32 − 1` and swaps a row past the buffer | `Image(1, 0)` followed by `setRowOrder(BottomToTop)` | an image with no rows has nothing to reverse | not executed | `Images.FirstRowPairAsWritten`, `Images.EmptyImageSwapOutOfRange` | `Images.Image.SetRowOrder` |
| mesh.h:334-337 | `it - r` divides the `ptrdiff_t` distance by `floatsPerTextureCoord * textureCoordsPerTriangle`, a `size_t`, so a negative distance is converted to `size_t` first | `begin() - (begin() + 1)` on a one-triangle mesh: (2^64 − 6) / 6 = 3074457345618258601 | −1, the signed number of triangles between the iterators | not executed | `Meshes.MeshIterator.Difference`, `Meshes.DifferenceWraps` | `Meshes.MeshIterator.SignedDifference` |
| mesh.h:486-504, mesh.h:518-536 | the `interpolateColors` loop runs `mesh->length` times, once per triangle, but copies one vertex per iteration, while `length` grows by the triangle count and all texture coordinates are copied | a mesh with one triangle: `dest` gets 3 point floats and 4 colour floats for 1 triangle instead of 9 and 12 | one iteration per vertex (`3 * mesh->length`), keeping the 9/12/6 strides | not executed | `Shading.AppendShadedAsWritten` | `Shading.AppendShaded`, `Shading.InterpolateColorsInto`, `Shading.InterpolateColors` |
