# Static Huffman codec core, modelled in Dafny

This project models the bit-level and tree-level engine of a static Huffman
codec written in Rust. It covers four parts:

- **Bit writer** (`BitWriter`): packs bits most-significant-first into bytes.
  It can take back the last bit. It can hand out its bytes zero-padded to a
  byte boundary, either keeping its state or emptying itself.
- **Bit reader** (`BitReader`): hands out the bits of a byte buffer one at a
  time, most significant first, and signals the end of the stream.
- **Huffman tree builder** (`HuffmanTree`): sorts the input bytes and makes
  one weighted leaf per run of equal bytes. It orders the leaves by weight,
  then repeatedly joins the two lightest trees and puts the join back in
  weight order.
- **Code table** (`CodeMap`): walks the tree depth-first. The bit writer is
  the path from the root: a 0 is written before going left, a 1 before going
  right, and one bit is deleted when a subtree is done. Each leaf records the
  writer's bits and length.

For `delete_last_bit`, `get_bits` and the table walk the model holds both
the source's behaviour and a corrected one; Findings says where they differ.

The model is functional. Writer and reader states are immutable records, and
every operation is a pure function or a method that returns the new state.
Each state has an abstraction function that serves as its partner
specification:

- `BitWriter.Contents` is the bit string a writer holds.
- `BitReader.Remaining` is the bit string a reader will still return.

The tree is a sum type, `Leaf(value, freq) | Node(freq, left, right)`. The
source's `TreeNode`, with its optional value and optional children, only ever
builds these two shapes, so "every internal node has both children and no
value, every leaf has a value and no children" holds by construction.

Integer widths are modelled explicitly:

- bytes are `Bits.Byte`, the range 0..255;
- the `u32` accumulator of the code value wraps modulo `Bits.U32`;
- the `u8` code length wraps modulo 256.

Module layout, following the source files:

- `bits.dfy`: powers of two, bit strings and bytes.
- `wrappers.dfy`: `Option` and `Result`.
- `bit_writer.dfy`, `bit_reader.dfy`, `huffman_tree.dfy`, `code_map.dfy`: one
  module per source file.

## Model

| member | source | states |
|---|---|---|
| BitWriter.New | src/bit_writer.rs:8-14 | A new writer satisfies the writer invariant and holds no bits. |
| BitWriter.WriteBit | src/bit_writer.rs:23-34 | From any state the source reaches (fewer than 8 pending bits, whatever is set above them), fewer than 8 bits stay pending and the bits held grow by exactly the written bit at the end. A byte moves to the buffer exactly when it was the eighth pending bit. A writer with no bit set above its position keeps that property. |
| BitWriter.WriteBits | src/bit_writer.rs:16-21 | Writing `len` bits appends the low `len` bits of `bits`, most significant first. The appended bits read back as `bits mod 2^len`. |
| BitWriter.DeleteLastBit | src/bit_writer.rs:36-51 | As the source writes it, from any state with fewer than 8 pending bits. On a writer holding no bits, nothing changes. With pending bits, exactly the last bit is removed. With none pending, the last byte is popped, halved and left at position 6, so the bit count ends two short of the bits held before. |
| BitWriter.DeleteLastBitFixed | src/bit_writer.rs:36-51 | The corrected deletion keeps the invariant and removes exactly the last bit, or nothing from an empty writer. |
| BitWriter.DeleteUndoesWrite | src/bit_writer.rs:23-51 | The corrected deletion right after `write_bit` restores the writer exactly, including when the write completed a byte. |
| BitWriter.DeleteUndoesWriteWithinByte | src/bit_writer.rs:23-50 | The source's deletion right after a `write_bit` that did not complete a byte restores the writer exactly. |
| BitWriter.DeleteLastBitAgrees | src/bit_writer.rs:36-51 | The source's deletion equals the corrected one whenever it does not have to pop a byte. |
| BitWriter.DeleteAfterFullByteLosesBit | src/bit_writer.rs:43-50 | Seven 1-bits plus one more complete a byte. The source's deletion then leaves the position at 6 with seven bits in the byte, an invalid state. The corrected deletion leaves the seven bits at position 7. |
| BitWriter.GetBits | src/bit_writer.rs:53-68 | As the source writes it, from any state. With no completed byte, it returns the whole pending byte, which is the value of the bits held when no bit is set above the position. Otherwise it returns the completed bytes read big-endian, wrapped to `u32`, and ignores the pending bits. |
| BitWriter.GetBitsFixed | src/bit_writer.rs:53-68 | The corrected value is the number all held bits denote, wrapped to `u32`. |
| BitWriter.GetBitsFixedExact | src/bit_writer.rs:53-68 | With at most 32 bits held, the corrected value is exactly the number they denote. |
| BitWriter.GetBitsDropsPendingBits | src/bit_writer.rs:56-67 | For a writer holding the nine bits `000000001`, the source's `get_bits` returns 0. Their value, and the corrected result, is 1. |
| BitWriter.GetBitsAgrees | src/bit_writer.rs:56-67 | The source's `get_bits` equals the corrected one when at most 32 bits are held and either no byte is completed or no bit is pending. |
| BitWriter.GetLen | src/bit_writer.rs:70-72 | From any state the source reaches, the reported length is the number of bits held, modulo 256 (the `as u8` cast). |
| BitWriter.LenWraps | src/bit_writer.rs:71 | Wrapping the completed bytes' bit count to `u8` and adding the pending count equals the wrapped total and stays below 256, so the `u8` addition cannot overflow. |
| BitWriter.PaddedByte | src/bit_writer.rs:77-80 | The pending bits shifted up to the top of a `u8` are those bits followed by zeros. Shifting back recovers the pending byte. |
| BitWriter.CloneBitsBuffer | src/bit_writer.rs:74-83 | Returns ceil(bits held / 8) bytes spelling the held bits followed by zero padding, and leaves the writer unchanged. |
| BitWriter.GetBitsBuffer | src/bit_writer.rs:85-96 | Returns the same bytes as `clone_bits_buffer`, with the same length and padding, and leaves an empty writer. |
| BitReader.New | src/bit_reader.rs:8-18 | Fails with the source's message exactly on an empty buffer. Otherwise it starts at position 0 with the buffer's bits, most significant first, still to read. |
| BitReader.IsEmpty | src/bit_reader.rs:20-22 | True exactly when no bit remains to be read. |
| BitReader.GetBit | src/bit_reader.rs:39-53 | Returns `None` exactly when no bit remains, and then changes nothing. Otherwise it returns the first remaining bit, removes exactly that bit and keeps position <= 8. |
| BitReader.Load | src/bit_reader.rs:44-47 | Taking the front byte when the current one is used up changes no remaining bit and sets the position to 8. |
| BitReader.Shift | src/bit_reader.rs:49-52 | The bit handed out is the top bit of the current byte (`& 0x80`). Shifting it out leaves exactly the rest of the remaining bits. |
| BitReader.ReadAll | src/bit_reader.rs:39-53 | Calling `get_bit` repeatedly on a new reader yields exactly the buffer's bits (8 per byte, most significant first) and then `None`. An empty buffer is refused. |
| BitReader.GetByte | src/bit_reader.rs:24-37 | `None` when no byte is left to start. Otherwise at least 8 bits remain, so the `unwrap` cannot fail. The byte returned spells the next 8 bits, and exactly those are consumed. |
| HuffmanTree.SortBytes | src/huffman_tree.rs:33 | The result is sorted and is a permutation of the input. |
| HuffmanTree.Histogram | src/huffman_tree.rs:35-48 | One leaf per distinct byte, in ascending byte order. Each leaf weighs the byte's number of occurrences. The total weight is the input length. |
| HuffmanTree.SortByFreq | src/huffman_tree.rs:51 | The result is in ascending weight order and is a permutation of the input. Leaves and total weight are unchanged. |
| HuffmanTree.LowerBound | src/huffman_tree.rs:62-64 | In a weight-ordered list there is a position with no heavier tree before it and no lighter tree after it. |
| HuffmanTree.InsertAt | src/huffman_tree.rs:61-66 | Inserting at any such position keeps the weight order and adds exactly the inserted tree's leaves and weight. |
| HuffmanTree.MergeOnce | src/huffman_tree.rs:53-66 | One round joins the two front trees under a node weighing their sum, first tree left and second right. The new list is the remaining trees, in their order, with the join inserted at a position that has no heavier tree before it and no lighter tree after it. The list shrinks by exactly one, stays ordered, and keeps its total weight and leaves. |
| HuffmanTree.MergeNodes | src/huffman_tree.rs:52-67 | The merge loop ends with at most one tree and keeps its invariant. It ends empty exactly for an empty list, and with an internal node whenever it started with two or more trees. |
| HuffmanTree.GenerateTree | src/huffman_tree.rs:31-74 | Fails with the source's message exactly on empty input. Otherwise the root weighs the input length. Every node weighs what its children weigh, and every leaf weighs its byte's count. Each distinct input byte sits at exactly one leaf and no other byte does. The root is a single leaf exactly when all input bytes are equal. |
| CodeMap.Traverse | src/code_map.rs:19-42 | The walk with the corrected writer operations. It removes exactly one bit from the writer overall. It adds an entry for exactly the leaf values of the subtree, each the code of the path so far followed by the leaf's path. Other entries are kept. |
| CodeMap.TraverseAsWritten | src/code_map.rs:19-42 | The walk with the source's own `write_bit`, `get_bits` and `delete_last_bit`, from any writer state they reach. The writer never holds eight pending bits, so `bit_pos += 1` cannot overflow. |
| CodeMap.AsWrittenKeys | src/code_map.rs:19-42 | Whatever the writer holds, the source's walk adds an entry for exactly the subtree's leaf values and keeps every other entry. |
| CodeMap.AsWrittenAgrees | src/code_map.rs:19-42 | While the writer's position plus the subtree's height stays at most 7, the source's walk builds the same table and leaves the same writer as the corrected walk. |
| CodeMap.AsWrittenTableKeys | src/code_map.rs:10-17 | The source's table has an entry for exactly the tree's leaf values. |
| CodeMap.AsWrittenTableAgrees | src/code_map.rs:10-17 | For a tree at most 7 high, the source's table is the corrected table. |
| CodeMap.SourceTableCollides | src/code_map.rs:19-42 | On every tree of the 8-high shape `DeepShape`, the source's table gives byte 2 and the leaf at path 1 the same code, and byte 1 the code `(1, 7)`, one bit short of its 8-bit path. |
| CodeMap.CorrectedDeepCodes | src/code_map.rs:19-42 | On the same trees, the corrected table gives byte 1, byte 2 and the leaf at path 1 the codes of their paths: `(1, 8)`, `(1, 2)` and `(1, 1)`. |
| CodeMap.DeepHeight | src/code_map.rs:19-42 | Every tree of that shape is 8 high, so its deepest leaves need a completed byte in the writer. |
| CodeMap.CreateMapTable | src/code_map.rs:10-17 | The corrected table maps each leaf value to the code of its root-to-leaf path. |
| CodeMap.TraverseEndsEmpty | src/code_map.rs:10-17 | From the root with an empty writer, the corrected walk leaves the writer empty. The final deletion finds nothing to delete. |
| CodeMap.CodePathKeys | src/code_map.rs:20-27 | The table's keys are exactly the values at the tree's leaves. |
| CodeMap.CodePathsWalk | src/code_map.rs:33-40 | Each recorded path, 0 for left and 1 for right, leads from the root to a leaf holding that value. |
| CodeMap.WalkStopsAtLeaf | src/code_map.rs:20-31 | A path that ends at a leaf cannot be extended to reach another leaf. |
| CodeMap.WalkWithinHeight | src/code_map.rs:33-40 | A root-to-leaf path is no longer than the tree's height. |
| CodeMap.WalkUnique | src/code_map.rs:33-40 | When a value sits at exactly one leaf, only one path leads to it. |
| CodeMap.PathsPrefixFree | src/code_map.rs:33-40 | For distinct values, no recorded path is a prefix of another. |
| CodeMap.CodeOfLeaf | src/code_map.rs:21-27 | In the corrected table, for a value at exactly one leaf, the code length is the leaf's depth. When the depth is at most 32, the code bits are the path read as a binary number. |
| CodeMap.CodeSpellsPath | src/code_map.rs:21-27 | In the corrected table, for trees at most 32 high, the low `len` bits of a code's `bits` spell out its path. |
| CodeMap.CodesPrefixFree | src/code_map.rs:19-42 | In the corrected table, for trees at most 32 high, no code, read as a bit string, is a prefix of another value's code. |
| CodeMap.SingleLeafTable | src/code_map.rs:10-17 | A tree that is one leaf gets one entry, with bits 0 and length 0. |
| CodeMap.TableCoversInput | src/code_map.rs:10-17 | For a tree built from the input, there is a code for every input byte and for nothing else. |

## Left out

- `src/main.rs` is not part of this model. It holds argument parsing, file reading and writing, and process exit, all of them I/O.
- `src/lib.rs` declares only a second `TreeNode` struct with no behaviour.
- Encoding, decoding, tree serialisation and the container format are not in these four files, so they are not modelled.
- `TreeNode::new` (src/huffman_tree.rs:10-28) is represented by the `Leaf` and `Node` constructors. Its `Option` fields become the two constructors.
- `HashMap` is modelled as a Dafny `map`; its hashing and iteration order are not modelled.
- Huffman optimality is not stated. The source does not promise minimal weighted path length or that more frequent bytes get shorter codes.
- HuffmanTree.MergeOnce: `binary_search_by_key` returns one particular index. The model allows any index that keeps the list in weight order, so the tie-break among equal weights is not fixed. All properties proved hold for every such index.
- BitWriter.WriteBit: the bit is restricted to 0 or 1 (`Bits.Bit`). Every caller in the source passes 0 or 1, and other values would set bits above the position.
- BitWriter.WriteBits: `len` is at most 32 and `bits` is below 2^32. For `i >= 32`, `bits >> i` on a `u32` panics when overflow checks are on (debug builds); release builds mask the shift amount to `i % 32`. Neither behaviour is modelled.
- BitWriter.CloneBitsBuffer: stated only for writers with no bit set above the position. The source's shifts also run on other states; the `<<=` then drops those bits, so the writer does not come back unchanged.
- BitWriter.GetBitsBuffer: stated only for writers with no bit set above the position, as for `clone_bits_buffer`.
- CodeMap.Traverse: describes the walk with the corrected `get_bits` and `delete_last_bit`. The source's walk (`CodeMap.TraverseAsWritten`) equals it only while no leaf is 8 or more deep (`CodeMap.AsWrittenAgrees`); see the third finding.
- CodeMap.CreateMapTable: the corrected table; the source's table (`CodeMap.CreateMapTableAsWritten`) equals it for trees at most 7 high (`CodeMap.AsWrittenTableAgrees`) and differs on 8-high trees (`CodeMap.SourceTableCollides`).
- CodeMap.TraverseEndsEmpty: stated for the corrected walk. For the source's walk it is proved only for trees at most 7 high, through `CodeMap.AsWrittenAgrees`.
- CodeMap.CodeOfLeaf: stated for the corrected table. In the source's table, leaves visited after a leaf 8 deep can get codes that are not their paths.
- CodeMap.CodeSpellsPath: stated for the corrected table. It also states the bit pattern only for trees at most 32 high; longer paths do not fit the `u32`, and their value is only the wrapped one recorded in `CodeMap.PathCode`.
- CodeMap.CodesPrefixFree: stated for the corrected table. The source's table is not prefix-free on 8-high trees (`CodeMap.SourceTableCollides`).

## Findings

`traverse` writes one bit before entering each child and calls `delete_last_bit` once when leaving each subtree (src/code_map.rs:29, 41). The walk is therefore correct only if one deletion removes exactly the last bit written. The comments in `delete_last_bit` say the same: "pull last byte" from the buffer (src/bit_writer.rs:42), then delete one bit (src/bit_writer.rs:48). Each leaf's code is read from the writer with `get_bits` and `get_len`, so `get_bits` must report every bit of the path. The rows below are where the source does otherwise. Each has the source modelled as written and a corrected member. `CodeMap.TraverseAsWritten` and `CodeMap.CreateMapTableAsWritten` follow the source; `CodeMap.Traverse`, `CodeMap.CreateMapTable` and the lemmas about them use the corrected members.

| source | as written | input that shows it | evidently intended | confidence | as-written member | corrected member |
|---|---|---|---|---|---|---|
| src/bit_writer.rs:43-50 | After popping the last completed byte, `delete_last_bit` sets `bit_pos = 7` and then decrements it to 6. Two bit positions are lost, while the byte keeps seven bits. | Write seven 1-bits and one more 1-bit; the buffer is `[255]`. Then `delete_last_bit` gives `current_byte = 127` with `bit_pos = 6`. | Set `bit_pos = 8` before the common decrement, leaving seven bits at position 7. | high (not executed) | BitWriter.DeleteLastBit, BitWriter.DeleteAfterFullByteLosesBit | BitWriter.DeleteLastBitFixed |
| src/bit_writer.rs:56-67 | With a non-empty buffer, `get_bits` returns only the completed bytes and ignores the `bit_pos` pending bits. For a path of 9 to 32 bits whose length is not a multiple of 8, the code is wrong unless the whole path is zeros. Leaves visited after the walk has backed out of a completed byte are also hit by the first row; see the third row. | A writer holding `000000001` (buffer `[0]`, pending `1` at position 1): `get_bits` returns 0, while the path's value is 1. | Shift the bytes left by `bit_pos` and add `current_byte`. | high (not executed) | BitWriter.GetBits, BitWriter.GetBitsDropsPendingBits | BitWriter.GetBitsFixed |
| src/code_map.rs:19-42 | `traverse` calls `delete_last_bit` once per finished subtree. After a leaf 8 deep, that deletion pops the completed byte and loses two bits (first row). The leaves visited next are coded against a writer that is missing a bit of their path: their codes are too short, and two bytes can share a code, so the table is not prefix-free. | The 8-high tree `CodeMap.DeepTree`: leaves 0 and 1 at paths `00000000` and `00000001`, byte `d + 1` at `d` zeros and a one for `d` in 1..6, and byte 9 at path `1`. It is the merge's result for byte 0 and byte 1 once each, byte 7 three times, 6 six times, 5 twelve, 4 24, 3 48, 2 96 and 9 192 times. The source's table gives bytes 2 and 9 both `(1, 1)` and byte 1 `(1, 7)`. | Each leaf's code is its root-to-leaf path: byte 1 `(1, 8)`, byte 2 `(1, 2)`, byte 9 `(1, 1)`. | high (not executed) | CodeMap.CreateMapTableAsWritten, CodeMap.SourceTableCollides | CodeMap.CreateMapTable, CodeMap.CorrectedDeepCodes, CodeMap.CodesPrefixFree |
