/** The code table: a depth-first walk of the Huffman tree that uses the
    bit writer as the path from the root — a 0 pushed before going left,
    a 1 before going right, one bit taken back when a subtree is done —
    and records at each leaf the path's bits and length. */
module CodeMap {
  import opened Bits
  import opened Wrappers
  import opened HuffmanTree
  import W = BitWriter

  /** `Code`: the path's bits as a `u32` and its length as a `u8`. */
  datatype Code = Code(bits: nat, len: nat)

  /** The code a path gets from the writer's snapshot. */
  function PathCode(path: seq<bool>): Code
  {
    Code(BitsValue(path) % U32, |path| % 256)
  }

  /** Each path, with a bit string in front of it. */
  function Prefixed(b: bool, paths: map<Byte, seq<bool>>): (r: map<Byte, seq<bool>>)
    ensures r.Keys == paths.Keys
    ensures forall v :: v in r ==> r[v] == [b] + paths[v]
  {
    map v | v in paths :: [b] + paths[v]
  }

  /** The root-to-leaf path of each leaf value, false for left and true
      for right; for a value at several leaves the walk's last visit (the
      rightmost) wins, as the map insertion in the walk does. */
  function CodePaths(t: Tree): map<Byte, seq<bool>>
  {
    match t
    case Leaf(v, _) => map[v := []]
    case Node(_, l, r) => Prefixed(false, CodePaths(l)) + Prefixed(true, CodePaths(r))
  }

  /** Following a path from the root: the leaf's value when the path ends
      exactly at a leaf. */
  function Walk(t: Tree, path: seq<bool>): Option<Byte>
  {
    match t
    case Leaf(v, _) => if path == [] then Some(v) else None
    case Node(_, l, r) =>
      if path == [] then None
      else Walk(if path[0] then r else l, path[1..])
  }

  /** The paths below an internal node, with the path to the node in front:
      the right subtree's paths after a 1, the others after a 0. */
  lemma NodePaths(t: Tree, prefix: seq<bool>)
    requires t.Node?
    ensures CodePaths(t).Keys == CodePaths(t.left).Keys + CodePaths(t.right).Keys
    ensures forall v :: v in CodePaths(t.right) ==>
      prefix + [true] + CodePaths(t.right)[v] == prefix + CodePaths(t)[v]
    ensures forall v :: v in CodePaths(t.left) && v !in CodePaths(t.right) ==>
      prefix + [false] + CodePaths(t.left)[v] == prefix + CodePaths(t)[v]
  {
    var pl, pr := Prefixed(false, CodePaths(t.left)), Prefixed(true, CodePaths(t.right));
    forall v | v in CodePaths(t.right)
      ensures prefix + [true] + CodePaths(t.right)[v] == prefix + CodePaths(t)[v]
    {
      assert CodePaths(t)[v] == pr[v];
    }
    forall v | v in CodePaths(t.left) && v !in CodePaths(t.right)
      ensures prefix + [false] + CodePaths(t.left)[v] == prefix + CodePaths(t)[v]
    {
      assert CodePaths(t)[v] == pl[v];
    }
  }

  /** The table after a left walk and a right walk is the table of the
      node itself: the right subtree's entries override the left's. */
  lemma NodeTable<C>(t: Tree, m: map<Byte, C>, m1: map<Byte, C>, m2: map<Byte, C>,
                     prefix: seq<bool>, code: seq<bool> -> C)
    requires t.Node?
    requires m1.Keys == m.Keys + CodePaths(t.left).Keys
    requires forall v :: v in CodePaths(t.left) ==> m1[v] == code(prefix + [false] + CodePaths(t.left)[v])
    requires forall v :: v in m && v !in CodePaths(t.left) ==> m1[v] == m[v]
    requires m2.Keys == m1.Keys + CodePaths(t.right).Keys
    requires forall v :: v in CodePaths(t.right) ==> m2[v] == code(prefix + [true] + CodePaths(t.right)[v])
    requires forall v :: v in m1 && v !in CodePaths(t.right) ==> m2[v] == m1[v]
    ensures m2.Keys == m.Keys + CodePaths(t).Keys
    ensures forall v :: v in CodePaths(t) ==> m2[v] == code(prefix + CodePaths(t)[v])
    ensures forall v :: v in m && v !in CodePaths(t) ==> m2[v] == m[v]
  {
    NodePaths(t, prefix);
    forall v | v in CodePaths(t)
      ensures m2[v] == code(prefix + CodePaths(t)[v])
    {
      if v in CodePaths(t.right) {
        assert prefix + [true] + CodePaths(t.right)[v] == prefix + CodePaths(t)[v];
      } else {
        assert prefix + [false] + CodePaths(t.left)[v] == prefix + CodePaths(t)[v];
      }
    }
  }

  /** `traverse`: the walk below `t` with the writer holding the path to
      `t`. At a leaf it records the snapshot and takes one bit back; at an
      internal node it does the same after both subtrees. Overall the
      writer loses the one bit that led into `t`. */
  function Traverse(t: Tree, m: map<Byte, Code>, w: W.Writer): (res: (map<Byte, Code>, W.Writer))
    requires W.Valid(w)
    ensures W.Valid(res.1)
    ensures W.Contents(res.1) == W.DropLast(W.Contents(w))
    ensures res.0.Keys == m.Keys + CodePaths(t).Keys
    ensures forall v :: v in CodePaths(t) ==> res.0[v] == PathCode(W.Contents(w) + CodePaths(t)[v])
    ensures forall v :: v in m && v !in CodePaths(t) ==> res.0[v] == m[v]
  {
    match t
    case Leaf(v, _) =>
      LeafCode(w);
      (m[v := Code(W.GetBitsFixed(w), W.GetLen(w))], W.DeleteLastBitFixed(w))
    case Node(_, l, r) =>
      var (m1, w1) := Traverse(l, m, W.WriteBit(w, 0));
      W.DropLastPush(W.Contents(w), false);
      var (m2, w2) := Traverse(r, m1, W.WriteBit(w1, 1));
      W.DropLastPush(W.Contents(w), true);
      NodeTable(t, m, m1, m2, W.Contents(w), PathCode);
      (m2, W.DeleteLastBitFixed(w2))
  }

  /** `traverse` with the writer operations exactly as the source writes
      them, from any writer state they can reach; the writer never holds
      eight pending bits, so `bit_pos += 1` cannot overflow. The entries it
      records are for exactly the subtree's leaf values (`AsWrittenKeys`);
      they hold the corrected walk's codes while the walk stays within the
      writer's first byte (`AsWrittenAgrees`), and not beyond
      (`SourceTableCollides`). */
  function TraverseAsWritten(t: Tree, m: map<Byte, Code>, w: W.Writer): (res: (map<Byte, Code>, W.Writer))
    requires w.pos < 8
    ensures res.1.pos < 8
  {
    match t
    case Leaf(v, _) =>
      (m[v := Code(W.GetBits(w), W.GetLen(w))], W.DeleteLastBit(w))
    case Node(_, l, r) =>
      var (m1, w1) := TraverseAsWritten(l, m, W.WriteBit(w, 0));
      var (m2, w2) := TraverseAsWritten(r, m1, W.WriteBit(w1, 1));
      (m2, W.DeleteLastBit(w2))
  }

  /** The source's walk records an entry for exactly the subtree's leaf
      values and keeps every other entry, whatever the writer holds. */
  lemma {:induction false} AsWrittenKeys(t: Tree, m: map<Byte, Code>, w: W.Writer)
    requires w.pos < 8
    ensures TraverseAsWritten(t, m, w).0.Keys == m.Keys + CodePaths(t).Keys
    ensures forall v :: v in m && v !in CodePaths(t) ==> TraverseAsWritten(t, m, w).0[v] == m[v]
  {
    match t
    case Leaf(_, _) =>
    case Node(_, l, r) =>
      var w0 := W.WriteBit(w, 0);
      AsWrittenKeys(l, m, w0);
      var (m1, w1) := TraverseAsWritten(l, m, w0);
      AsWrittenKeys(r, m1, W.WriteBit(w1, 1));
      var (m2, w2) := TraverseAsWritten(r, m1, W.WriteBit(w1, 1));
      NodeKeys(t, m, m1, m2);
  }

  /** Entries recorded below the two children of a node, on top of `m`. */
  lemma NodeKeys<C>(t: Tree, m: map<Byte, C>, m1: map<Byte, C>, m2: map<Byte, C>)
    requires t.Node?
    requires m1.Keys == m.Keys + CodePaths(t.left).Keys
    requires forall v :: v in m && v !in CodePaths(t.left) ==> m1[v] == m[v]
    requires m2.Keys == m1.Keys + CodePaths(t.right).Keys
    requires forall v :: v in m1 && v !in CodePaths(t.right) ==> m2[v] == m1[v]
    ensures m2.Keys == m.Keys + CodePaths(t).Keys
    ensures forall v :: v in m && v !in CodePaths(t) ==> m2[v] == m[v]
  {
    NodePaths(t, []);
  }

  /** Within the writer's first byte the source's `get_bits` and
      `delete_last_bit` agree with the corrected ones, so the walk as
      written builds the same table and leaves the same writer. */
  lemma {:induction false} AsWrittenAgrees(t: Tree, m: map<Byte, Code>, w: W.Writer)
    requires W.Valid(w) && w.buffer == [] && w.pos + Height(t) <= 7
    ensures TraverseAsWritten(t, m, w) == Traverse(t, m, w)
  {
    match t
    case Leaf(v, _) =>
      W.GetBitsAgrees(w);
      W.DeleteLastBitAgrees(w);
    case Node(_, l, r) =>
      var w0 := W.WriteBit(w, 0);
      AsWrittenAgrees(l, m, w0);
      var (m1, w1) := Traverse(l, m, w0);
      W.DropLastPush(W.Contents(w), false);
      W.ContentsInjective(w1, w);
      var w3 := W.WriteBit(w1, 1);
      AsWrittenAgrees(r, m1, w3);
      var (m2, w2) := Traverse(r, m1, w3);
      W.DropLastPush(W.Contents(w), true);
      W.ContentsInjective(w2, w);
      W.DeleteLastBitAgrees(w2);
  }

  /** At a leaf, the writer's value and length are the code of the path. */
  lemma LeafCode(w: W.Writer)
    requires W.Valid(w)
    ensures Code(W.GetBitsFixed(w), W.GetLen(w)) == PathCode(W.Contents(w) + [])
  {
    assert W.Contents(w) + [] == W.Contents(w);
  }

  /** `create_map_table` with the writer as the source has it. */
  function CreateMapTableAsWritten(t: Tree): map<Byte, Code>
  {
    TraverseAsWritten(t, map[], W.New()).0
  }

  /** The source's table has an entry for exactly the tree's leaf values. */
  lemma AsWrittenTableKeys(t: Tree)
    ensures CreateMapTableAsWritten(t).Keys == CodePaths(t).Keys
  {
    AsWrittenKeys(t, map[], W.New());
  }

  /** No leaf deeper than 7: the source's table is the corrected one. */
  lemma AsWrittenTableAgrees(t: Tree)
    requires Height(t) <= 7
    ensures CreateMapTableAsWritten(t) == CreateMapTable(t)
  {
    AsWrittenAgrees(t, map[], W.New());
  }

  /** `create_map_table` with the corrected writer operations: the walk
      from the root with an empty writer. */
  function CreateMapTable(t: Tree): (table: map<Byte, Code>)
    ensures table.Keys == CodePaths(t).Keys
    ensures forall v :: v in table ==> table[v] == PathCode(CodePaths(t)[v])
  {
    assert W.Contents(W.New()) == [];
    assert forall v :: v in CodePaths(t) ==> [] + CodePaths(t)[v] == CodePaths(t)[v];
    Traverse(t, map[], W.New()).0
  }

  /** A tree whose left spine runs from depth `d` down to depth 8: every
      spine node has a leaf to its right, holding `d + 1` at depth `d`,
      and the spine ends at depth 7 in leaves 0 and 1. */
  predicate LeftSpine(t: Tree, d: nat)
    requires 1 <= d <= 7
    decreases 7 - d
  {
    t.Node? && t.right.Leaf? &&
    if d == 7 then t.left.Leaf? && t.left.value == 0 && t.right.value == 1
    else t.right.value == d + 1 && LeftSpine(t.left, d + 1)
  }

  /** Such a spine below a root with leaf `top` to its right: leaf 0 at
      path 00000000, leaf 1 at 00000001, leaf d + 1 at d zeros and a one
      for d in 1..6, and `top` at path 1. */
  predicate DeepShape(t: Tree)
  {
    t.Node? && LeftSpine(t.left, 1) && t.right.Leaf? && t.right.value > 7
  }

  /** One tree of that shape, weighted so that each join is lighter than
      the leaf beside it, as joining the two lightest trees requires. */
  function DeepTree(): Tree
  {
    var s7 := Node(2, Leaf(0, 1), Leaf(1, 1));
    var s6 := Node(5, s7, Leaf(7, 3));
    var s5 := Node(11, s6, Leaf(6, 6));
    var s4 := Node(23, s5, Leaf(5, 12));
    var s3 := Node(47, s4, Leaf(4, 24));
    var s2 := Node(95, s3, Leaf(3, 48));
    var s1 := Node(191, s2, Leaf(2, 96));
    Node(383, s1, Leaf(9, 192))
  }

  lemma DeepTreeShape()
    ensures DeepShape(DeepTree()) && WeightsConsistent(DeepTree())
  {
  }

  /** Every tree of `DeepShape` is 8 high. */
  lemma DeepHeight(t: Tree)
    requires DeepShape(t)
    ensures Height(t) == 8
  {
    SpineHeight(t.left, 1);
  }

  lemma {:induction false} SpineHeight(t: Tree, d: nat)
    requires 1 <= d <= 7 && LeftSpine(t, d)
    ensures Height(t) == 8 - d
    decreases 7 - d
  {
    if d < 7 {
      SpineHeight(t.left, d + 1);
    }
  }

  /** The walk below a node whose right child is a leaf, once the left
      subtree's walk is known. */
  lemma RightLeafAsWritten(t: Tree, m: map<Byte, Code>, w: W.Writer, m1: map<Byte, Code>, w1: W.Writer)
    requires t.Node? && t.right.Leaf? && w.pos < 8
    requires (m1, w1) == TraverseAsWritten(t.left, m, W.WriteBit(w, 0))
    ensures TraverseAsWritten(t, m, w)
         == (m1[t.right.value := Code(W.GetBits(W.WriteBit(w1, 1)), W.GetLen(W.WriteBit(w1, 1)))],
             W.DeleteLastBit(W.DeleteLastBit(W.WriteBit(w1, 1))))
  {
  }

  /** The source's writer on a spine level entered with `d` zero bits
      pending: a 0 goes one deeper, and a 1 written `d` bits deep is
      reported as the code `(1, d)` and deleted again. */
  lemma PendingZeros(d: nat)
    requires 1 <= d <= 7
    ensures W.WriteBit(W.Writer([], 0, d - 1), 0) == W.Writer([], 0, d)
    ensures W.WriteBit(W.Writer([], 0, d - 1), 1) == W.Writer([], 1, d)
    ensures W.GetBits(W.Writer([], 1, d)) == 1 && W.GetLen(W.Writer([], 1, d)) == d
    ensures W.DeleteLastBit(W.Writer([], 1, d)) == W.Writer([], 0, d - 1)
    ensures W.DeleteLastBit(W.Writer([], 0, d)) == W.Writer([], 0, d - 1)
  {
    PendingWrite(d, 0);
    PendingWrite(d, 1);
    W.PendingValue(W.Writer([], 1, d));
    W.LenWraps(0, d);
  }

  lemma PendingWrite(d: nat, bit: Bit)
    requires 1 <= d <= 7
    ensures W.WriteBit(W.Writer([], 0, d - 1), bit) == W.Writer([], bit, d)
    ensures W.DeleteLastBit(W.Writer([], bit, d)) == W.Writer([], 0, d - 1)
  {
    SmallMod(bit, 256);
  }

  /** The eighth zero completes a byte; deleting it pops the byte and
      leaves six bits where seven were. */
  lemma EighthZero()
    ensures W.WriteBit(W.Writer([], 0, 7), 0) == W.Writer([0], 0, 0)
    ensures W.DeleteLastBit(W.Writer([0], 0, 0)) == W.Writer([], 0, 6)
  {
  }

  /** The end of the spine, entered with seven zero bits pending: the
      eighth completes a byte, and deleting it leaves six bits. */
  lemma SpineEnd(t: Tree, m: map<Byte, Code>)
    requires LeftSpine(t, 7)
    ensures TraverseAsWritten(t, m, W.Writer([], 0, 7)).1 == W.Writer([], 0, 5)
    ensures 1 in TraverseAsWritten(t, m, W.Writer([], 0, 7)).0
    ensures TraverseAsWritten(t, m, W.Writer([], 0, 7)).0[1] == Code(1, 7)
  {
    EighthZero();
    PendingZeros(7);
    PendingZeros(6);
    var (m1, w1) := TraverseAsWritten(t.left, m, W.Writer([0], 0, 0));
    RightLeafAsWritten(t, m, W.Writer([], 0, 7), m1, w1);
  }

  /** The source's walk down the spine, entered with `d` zero bits pending:
      leaf 1 gets a 7-bit code, and every level hands back a writer two
      bits short instead of one. */
  lemma {:induction false} SpineAsWritten(t: Tree, d: nat, m: map<Byte, Code>)
    requires 2 <= d <= 7 && LeftSpine(t, d)
    ensures TraverseAsWritten(t, m, W.Writer([], 0, d)).1 == W.Writer([], 0, d - 2)
    ensures 1 in TraverseAsWritten(t, m, W.Writer([], 0, d)).0
    ensures TraverseAsWritten(t, m, W.Writer([], 0, d)).0[1] == Code(1, 7)
    decreases 7 - d
  {
    if d == 7 {
      SpineEnd(t, m);
    } else {
      SpineAsWritten(t.left, d + 1, m);
      SpineLevel(t, d, m);
    }
  }

  /** One level of the spine, once the walk below it is known. */
  lemma SpineLevel(t: Tree, d: nat, m: map<Byte, Code>)
    requires 2 <= d < 7 && t.Node? && t.right.Leaf? && t.right.value == d + 1
    requires TraverseAsWritten(t.left, m, W.Writer([], 0, d + 1)).1 == W.Writer([], 0, d - 1)
    requires 1 in TraverseAsWritten(t.left, m, W.Writer([], 0, d + 1)).0
    requires TraverseAsWritten(t.left, m, W.Writer([], 0, d + 1)).0[1] == Code(1, 7)
    ensures TraverseAsWritten(t, m, W.Writer([], 0, d)).1 == W.Writer([], 0, d - 2)
    ensures 1 in TraverseAsWritten(t, m, W.Writer([], 0, d)).0
    ensures TraverseAsWritten(t, m, W.Writer([], 0, d)).0[1] == Code(1, 7)
  {
    PendingZeros(d + 1);
    PendingZeros(d);
    PendingZeros(d - 1);
    var (m1, w1) := TraverseAsWritten(t.left, m, W.Writer([], 0, d + 1));
    RightLeafAsWritten(t, m, W.Writer([], 0, d), m1, w1);
  }

  /** The source's walk from the root: leaf 2, two deep, gets the code of
      the leaf one deep. */
  lemma RootAsWritten(t: Tree, m: map<Byte, Code>)
    requires DeepShape(t)
    ensures 1 in TraverseAsWritten(t, m, W.New()).0 && 2 in TraverseAsWritten(t, m, W.New()).0 && t.right.value in TraverseAsWritten(t, m, W.New()).0
    ensures TraverseAsWritten(t, m, W.New()).0[1] == Code(1, 7)
    ensures TraverseAsWritten(t, m, W.New()).0[2] == Code(1, 1)
    ensures TraverseAsWritten(t, m, W.New()).0[t.right.value] == Code(1, 1)
  {
    TopLevelAsWritten(t.left, m);
    PendingZeros(1);
    var (m1, w1) := TraverseAsWritten(t.left, m, W.Writer([], 0, 1));
    RightLeafAsWritten(t, m, W.New(), m1, w1);
  }

  /** The spine's first level, entered with a single 0 pending: leaf 2 is
      recorded as the code `(1, 1)` and the writer comes back empty. */
  lemma TopLevelAsWritten(s1: Tree, m: map<Byte, Code>)
    requires LeftSpine(s1, 1)
    ensures TraverseAsWritten(s1, m, W.Writer([], 0, 1)).1 == W.New()
    ensures 1 in TraverseAsWritten(s1, m, W.Writer([], 0, 1)).0
    ensures TraverseAsWritten(s1, m, W.Writer([], 0, 1)).0[1] == Code(1, 7)
    ensures 2 in TraverseAsWritten(s1, m, W.Writer([], 0, 1)).0
    ensures TraverseAsWritten(s1, m, W.Writer([], 0, 1)).0[2] == Code(1, 1)
  {
    SpineAsWritten(s1.left, 2, m);
    var (m2, w2) := TraverseAsWritten(s1.left, m, W.Writer([], 0, 2));
    assert w2 == W.New() && 1 in m2 && m2[1] == Code(1, 7);
    PendingZeros(2);
    PendingZeros(1);
    assert W.DeleteLastBit(W.New()) == W.New();
    RightLeafAsWritten(s1, m, W.Writer([], 0, 1), m2, w2);
  }

  /** The recorded path of leaf 1 below depth `d`: a one after zeros. */
  lemma {:induction false} SpinePaths(t: Tree, d: nat)
    requires 1 <= d <= 7 && LeftSpine(t, d)
    ensures 1 in CodePaths(t) && CodePaths(t)[1] == ToBits(1, 8 - d)
    decreases 7 - d
  {
    if d < 7 {
      SpinePaths(t.left, d + 1);
      SpinePathStep(t, d);
    }
  }

  /** One level up the spine, leaf 1's path gains a leading 0. */
  lemma SpinePathStep(t: Tree, d: nat)
    requires 1 <= d < 7 && t.Node? && t.right.Leaf? && t.right.value == d + 1
    requires 1 in CodePaths(t.left) && CodePaths(t.left)[1] == ToBits(1, 7 - d)
    ensures 1 in CodePaths(t) && CodePaths(t)[1] == ToBits(1, 8 - d)
  {
    LeftPath(t, 1);
    ZeroThenOne(7 - d);
  }

  /** A 0 in front of a path spelling 1 still spells 1, one bit longer. */
  lemma ZeroThenOne(n: nat)
    requires n >= 1
    ensures [false] + ToBits(1, n) == ToBits(1, n + 1)
  {
    Pow2Monotone(1, n);
    DivUnique(1, Pow2(n), 0, 1);
    ToBitsHead(1, n);
  }

  /** A value found only below the left child is found after a 0. */
  lemma LeftPath(t: Tree, v: Byte)
    requires t.Node? && v in CodePaths(t.left) && v !in CodePaths(t.right)
    ensures v in CodePaths(t) && CodePaths(t)[v] == [false] + CodePaths(t.left)[v]
  {
  }

  /** A value found below the right child is found after a 1. */
  lemma RightPath(t: Tree, v: Byte)
    requires t.Node? && v in CodePaths(t.right)
    ensures v in CodePaths(t) && CodePaths(t)[v] == [true] + CodePaths(t.right)[v]
  {
  }

  /** The code of a path of zeros ending in a single one. */
  lemma OneCode(n: nat)
    requires 1 <= n <= 8
    ensures PathCode(ToBits(1, n)) == Code(1, n)
  {
    Pow2Monotone(1, n);
    ValueOfToBits(1, n);
    U32IsPow2();
    Pow2Monotone(1, 32);
  }

  /** The recorded paths of bytes 1, 2 and the top leaf: each a one after
      zeros, of length 8, 2 and 1. */
  lemma DeepPaths(t: Tree)
    requires DeepShape(t)
    ensures 1 in CodePaths(t) && CodePaths(t)[1] == ToBits(1, 8)
    ensures 2 in CodePaths(t) && CodePaths(t)[2] == ToBits(1, 2)
    ensures t.right.value in CodePaths(t) && CodePaths(t)[t.right.value] == ToBits(1, 1)
  {
    SpinePaths(t.left, 1);
    LeftPath(t, 1);
    ZeroThenOne(7);
    RightPath(t.left, 2);
    LeftPath(t, 2);
    ZeroThenOne(1);
    RightPath(t, t.right.value);
  }

  /** The corrected table gives bytes 1, 2 and the top leaf their paths. */
  lemma CorrectedDeepCodes(t: Tree)
    requires DeepShape(t)
    ensures 1 in CreateMapTable(t) && 2 in CreateMapTable(t) && t.right.value in CreateMapTable(t)
    ensures CreateMapTable(t)[1] == Code(1, 8)
    ensures CreateMapTable(t)[2] == Code(1, 2)
    ensures CreateMapTable(t)[t.right.value] == Code(1, 1)
  {
    DeepPaths(t);
    OneCode(8);
    OneCode(2);
    OneCode(1);
  }

  /** On every tree of `DeepShape` (8 high, `DeepHeight`), the source's table gives
      byte 2 and the top leaf the same code, and byte 1 a code one bit
      short of its path (`CorrectedDeepCodes` gives the paths).
      `DeepTreeShape` exhibits one such tree. */
  lemma SourceTableCollides(t: Tree)
    requires DeepShape(t)
    ensures var table := CreateMapTableAsWritten(t);
      1 in table && 2 in table && t.right.value in table &&
      table[2] == table[t.right.value] && table[1] == Code(1, 7)
  {
    RootAsWritten(t, map[]);
  }

  // ---------------------------------------------------------------------
  // What the table says about the tree

  /** The table has an entry for exactly the values at the leaves. */
  lemma {:induction false} CodePathKeys(t: Tree)
    ensures forall v :: v in CodePaths(t) <==> v in Leaves(t)
  {
    match t
    case Leaf(_, _) =>
    case Node(_, l, r) =>
      CodePathKeys(l);
      CodePathKeys(r);
  }

  /** Each recorded path leads from the root to a leaf holding its value. */
  lemma {:induction false} CodePathsWalk(t: Tree)
    ensures forall v :: v in CodePaths(t) ==> Walk(t, CodePaths(t)[v]) == Some(v)
  {
    match t
    case Leaf(_, _) =>
    case Node(_, l, r) =>
      CodePathsWalk(l);
      CodePathsWalk(r);
      forall v | v in CodePaths(t)
        ensures Walk(t, CodePaths(t)[v]) == Some(v)
      {
        var p := CodePaths(t)[v];
        if v in CodePaths(r) {
          assert p == [true] + CodePaths(r)[v];
          assert p[1..] == CodePaths(r)[v];
        } else {
          assert p == [false] + CodePaths(l)[v];
          assert p[1..] == CodePaths(l)[v];
        }
      }
  }

  /** A path that ends at a leaf cannot be continued to another leaf. */
  lemma {:induction false} WalkStopsAtLeaf(t: Tree, p: seq<bool>, q: seq<bool>)
    requires Walk(t, p).Some? && Walk(t, p + q).Some?
    ensures q == []
  {
    match t
    case Leaf(_, _) =>
      assert p == [];
      assert p + q == q;
    case Node(_, l, r) =>
      assert (p + q)[1..] == p[1..] + q;
      WalkStopsAtLeaf(if p[0] then r else l, p[1..], q);
  }

  /** Of two paths that both end at a leaf, neither extends the other. */
  lemma WalkPrefixFree(t: Tree, p: seq<bool>, q: seq<bool>)
    requires Walk(t, p).Some? && Walk(t, q).Some?
    ensures p <= q ==> p == q
  {
    if p <= q {
      assert q == p + q[|p|..];
      WalkStopsAtLeaf(t, p, q[|p|..]);
    }
  }

  /** A path that ends at a leaf is no longer than the tree is high. */
  lemma {:induction false} WalkWithinHeight(t: Tree, p: seq<bool>)
    requires Walk(t, p).Some?
    ensures |p| <= Height(t)
  {
    match t
    case Leaf(_, _) =>
    case Node(_, l, r) =>
      WalkWithinHeight(if p[0] then r else l, p[1..]);
  }

  /** A leaf's value found along two paths, in a tree where that value is
      at one leaf only, was found along the same path. */
  lemma {:induction false} WalkUnique(t: Tree, p: seq<bool>, q: seq<bool>, v: Byte)
    requires Leaves(t)[v] == 1
    requires Walk(t, p) == Some(v) && Walk(t, q) == Some(v)
    ensures p == q
  {
    match t
    case Leaf(_, _) =>
    case Node(_, l, r) =>
      var sp, sq := if p[0] then r else l, if q[0] then r else l;
      WalkFindsLeaf(sp, p[1..]);
      WalkFindsLeaf(sq, q[1..]);
      if p[0] == q[0] {
        WalkUnique(sp, p[1..], q[1..], v);
        SameHead(p, q);
      } else {
        BothSides(l, r, v);
      }
  }

  lemma SameHead(p: seq<bool>, q: seq<bool>)
    requires p != [] && q != [] && p[0] == q[0] && p[1..] == q[1..]
    ensures p == q
  {
    assert p == [p[0]] + p[1..] && q == [q[0]] + q[1..];
  }

  /** A value found below both children of a node occurs at two leaves. */
  lemma BothSides(l: Tree, r: Tree, v: Byte)
    requires v in Leaves(l) && v in Leaves(r)
    ensures (Leaves(l) + Leaves(r))[v] >= 2
  {
  }

  lemma {:induction false} WalkFindsLeaf(t: Tree, p: seq<bool>)
    requires Walk(t, p).Some?
    ensures Walk(t, p).value in Leaves(t)
  {
    match t
    case Leaf(_, _) =>
    case Node(_, l, r) =>
      WalkFindsLeaf(if p[0] then r else l, p[1..]);
  }

  /** The recorded paths are prefix-free: no value's path starts another
      value's path. */
  lemma PathsPrefixFree(t: Tree, u: Byte, v: Byte)
    requires u in CodePaths(t) && v in CodePaths(t) && u != v
    ensures !(CodePaths(t)[u] <= CodePaths(t)[v])
  {
    var p, q := CodePaths(t)[u], CodePaths(t)[v];
    CodePathsWalk(t);
    assert Walk(t, p) == Some(u) && Walk(t, q) == Some(v);
    WalkPrefixFree(t, p, q);
  }

  /** For a tree holding each value at one leaf, the code of a value is the
      path to its leaf: the length is the leaf's depth and, when the path
      fits the `u32`, the bits are the path read as a binary number. */
  lemma CodeOfLeaf(t: Tree, p: seq<bool>, v: Byte)
    requires Leaves(t)[v] == 1 && Walk(t, p) == Some(v)
    ensures v in CreateMapTable(t)
    ensures |p| < 256 ==> CreateMapTable(t)[v].len == |p|
    ensures |p| <= 32 ==> CreateMapTable(t)[v] == Code(BitsValue(p), |p|)
  {
    WalkFindsLeaf(t, p);
    CodePathKeys(t);
    var q := CodePaths(t)[v];
    CodePathsWalk(t);
    WalkUnique(t, p, q, v);
    TableEntry(t, v);
    if |p| < 256 {
      SmallMod(|p|, 256);
    }
    if |p| <= 32 {
      ValueFits(p, 32);
      U32IsPow2();
      SmallMod(BitsValue(p), U32);
    }
  }

  lemma TableEntry(t: Tree, v: Byte)
    requires v in CodePaths(t)
    ensures v in CreateMapTable(t) && CreateMapTable(t)[v] == PathCode(CodePaths(t)[v])
  {
  }

  /** While the tree is at most 32 high, a code's `len` low bits of `bits`
      spell out the path, so codes are prefix-free as bit strings too. */
  lemma CodesPrefixFree(t: Tree, u: Byte, v: Byte)
    requires Height(t) <= 32
    requires u in CreateMapTable(t) && v in CreateMapTable(t) && u != v
    ensures CodeBits(CreateMapTable(t)[u]) == CodePaths(t)[u]
    ensures !(CodeBits(CreateMapTable(t)[u]) <= CodeBits(CreateMapTable(t)[v]))
  {
    CodeSpellsPath(t, u);
    CodeSpellsPath(t, v);
    PathsPrefixFree(t, u, v);
  }

  /** The bit string a code denotes: its `len` low bits, most significant first. */
  function CodeBits(c: Code): seq<bool>
  {
    ToBits(c.bits, c.len)
  }

  lemma CodeSpellsPath(t: Tree, v: Byte)
    requires Height(t) <= 32 && v in CreateMapTable(t)
    ensures CodeBits(CreateMapTable(t)[v]) == CodePaths(t)[v]
  {
    var p := CodePaths(t)[v];
    CodePathsWalk(t);
    WalkWithinHeight(t, p);
    ValueFits(p, 32);
    U32IsPow2();
    SmallMod(|p|, 256);
    ToBitsOfValue(p);
  }

  /** A tree that is a single leaf gets one code, of length 0. */
  lemma SingleLeafTable(v: Byte, f: nat)
    ensures CreateMapTable(Leaf(v, f)) == map[v := Code(0, 0)]
  {
  }

  /** From the root with an empty writer, the walk's final deletion finds
      nothing to delete, and the writer ends empty. */
  lemma TraverseEndsEmpty(t: Tree)
    ensures Traverse(t, map[], W.New()).1 == W.New()
  {
    W.ContentsInjective(Traverse(t, map[], W.New()).1, W.New());
  }

  /** For a tree built from `data`, the table has a code for every byte of
      `data` and for nothing else. */
  lemma TableCoversInput(t: Tree, data: seq<Byte>)
    requires EachValueOnce(Leaves(t), data)
    ensures forall v :: v in CreateMapTable(t) <==> v in data
  {
    CodePathKeys(t);
    forall v | v in data
      ensures v in Leaves(t)
    {
      assert Leaves(t)[v] == 1;
    }
  }
}
