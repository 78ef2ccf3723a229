/** Huffman tree construction: a histogram of the input bytes becomes a
    list of leaves kept in ascending weight order, and the two lightest
    trees are merged until one remains.

    The source's `TreeNode` has an optional value and two optional
    children; the nodes it builds are either a leaf (a value, no children)
    or an internal node (no value, both children), which `Tree` states as
    its two constructors. */
module HuffmanTree {
  import opened Bits
  import opened Wrappers

  datatype Tree = Leaf(value: Byte, freq: nat) | Node(freq: nat, left: Tree, right: Tree)

  /** The values at the leaves, with multiplicity. */
  function Leaves(t: Tree): multiset<Byte>
  {
    match t
    case Leaf(v, _) => multiset{v}
    case Node(_, l, r) => Leaves(l) + Leaves(r)
  }

  /** The length of the longest root-to-leaf path. */
  function Height(t: Tree): nat
  {
    match t
    case Leaf(_, _) => 0
    case Node(_, l, r) => 1 + (if Height(l) < Height(r) then Height(r) else Height(l))
  }

  /** Each internal node weighs what its two children weigh together. */
  predicate WeightsConsistent(t: Tree)
  {
    match t
    case Leaf(_, _) => true
    case Node(f, l, r) => f == l.freq + r.freq && WeightsConsistent(l) && WeightsConsistent(r)
  }

  /** Each leaf weighs the number of occurrences of its value in `data`. */
  predicate LeafCounts(t: Tree, data: seq<Byte>)
  {
    match t
    case Leaf(v, f) => f == multiset(data)[v]
    case Node(_, l, r) => LeafCounts(l, data) && LeafCounts(r, data)
  }

  /** Every byte of `data` at exactly one leaf, and no other leaf. */
  ghost predicate EachValueOnce(m: multiset<Byte>, data: seq<Byte>)
  {
    forall v: Byte :: m[v] == (if v in data then 1 else 0)
  }

  predicate AllSame(data: seq<Byte>)
  {
    forall i, j :: 0 <= i < |data| && 0 <= j < |data| ==> data[i] == data[j]
  }

  // ---------------------------------------------------------------------
  // Lists of trees (`nodes_vec`)

  function ForestLeaves(s: seq<Tree>): multiset<Byte>
  {
    if s == [] then multiset{} else Leaves(s[0]) + ForestLeaves(s[1..])
  }

  function ForestWeight(s: seq<Tree>): nat
  {
    if s == [] then 0 else s[0].freq + ForestWeight(s[1..])
  }

  lemma {:induction false} ForestAppend(a: seq<Tree>, b: seq<Tree>)
    ensures ForestLeaves(a + b) == ForestLeaves(a) + ForestLeaves(b)
    ensures ForestWeight(a + b) == ForestWeight(a) + ForestWeight(b)
  {
    if a == [] {
      assert a + b == b;
    } else {
      assert (a + b)[1..] == a[1..] + b;
      ForestAppend(a[1..], b);
    }
  }

  predicate SortedByFreq(s: seq<Tree>)
  {
    forall i, j :: 0 <= i < j < |s| ==> s[i].freq <= s[j].freq
  }

  /** A position where `binary_search_by_key` may place a new tree of
      weight `f`: nothing heavier before it, nothing lighter after it. */
  predicate ValidInsertPos(s: seq<Tree>, f: nat, pos: int)
  {
    0 <= pos <= |s|
    && (forall i :: 0 <= i < pos ==> s[i].freq <= f)
    && (forall i :: pos <= i < |s| ==> f <= s[i].freq)
  }

  /** The first position holding a tree at least as heavy as `f`. */
  function LowerBound(s: seq<Tree>, f: nat): (pos: nat)
    requires SortedByFreq(s)
    ensures ValidInsertPos(s, f, pos)
  {
    if s == [] || f <= s[0].freq then 0 else 1 + LowerBound(s[1..], f)
  }

  /** Inserting a tree keeps the weight order at any valid position and
      adds exactly that tree's leaves and weight. */
  lemma InsertAt(s: seq<Tree>, pos: int, x: Tree)
    requires SortedByFreq(s) && ValidInsertPos(s, x.freq, pos)
    ensures SortedByFreq(s[..pos] + [x] + s[pos..])
    ensures ForestLeaves(s[..pos] + [x] + s[pos..]) == ForestLeaves(s) + Leaves(x)
    ensures ForestWeight(s[..pos] + [x] + s[pos..]) == ForestWeight(s) + x.freq
    ensures forall t :: t in s[..pos] + [x] + s[pos..] ==> t in s || t == x
  {
    InsertSorted(s, pos, x);
    InsertTotals(s, pos, x);
    InsertMembers(s, pos, x);
  }

  lemma InsertTotals(s: seq<Tree>, pos: int, x: Tree)
    requires 0 <= pos <= |s|
    ensures ForestLeaves(s[..pos] + [x] + s[pos..]) == ForestLeaves(s) + Leaves(x)
    ensures ForestWeight(s[..pos] + [x] + s[pos..]) == ForestWeight(s) + x.freq
  {
    var a, b := s[..pos], s[pos..];
    assert a + b == s;
    ForestAppend(a + [x], b);
    ForestAppend(a, [x]);
    ForestAppend(a, b);
    assert ForestLeaves([x]) == Leaves(x) by {
      assert [x][1..] == [];
    }
  }

  lemma InsertMembers(s: seq<Tree>, pos: int, x: Tree)
    requires 0 <= pos <= |s|
    ensures forall t :: t in s[..pos] + [x] + s[pos..] ==> t in s || t == x
  {
    forall t | t in s[..pos] + [x] + s[pos..]
      ensures t in s || t == x
    {
      if t in s[..pos] {
      } else if t in s[pos..] {
      }
    }
  }

  lemma InsertSorted(s: seq<Tree>, pos: int, x: Tree)
    requires SortedByFreq(s) && ValidInsertPos(s, x.freq, pos)
    ensures SortedByFreq(s[..pos] + [x] + s[pos..])
  {
    var s' := s[..pos] + [x] + s[pos..];
    assert forall i :: 0 <= i < pos ==> s'[i] == s[i];
    assert forall i :: pos < i < |s'| ==> s'[i] == s[i - 1];
    forall i, j | 0 <= i < j < |s'|
      ensures s'[i].freq <= s'[j].freq
    {
      if j < pos {
      } else if i > pos {
      } else if i == pos {
      } else if j == pos {
      } else {
      }
    }
  }

  // ---------------------------------------------------------------------
  // `data.sort()`

  predicate SortedBytes(s: seq<Byte>)
  {
    forall i, j :: 0 <= i < j < |s| ==> s[i] <= s[j]
  }

  function InsertByte(x: Byte, s: seq<Byte>): (r: seq<Byte>)
    requires SortedBytes(s)
    ensures SortedBytes(r)
    ensures multiset(r) == multiset(s) + multiset{x}
  {
    if s == [] || x <= s[0] then
      PrependByte(x, s);
      [x] + s
    else
      assert s == [s[0]] + s[1..];
      var rest := InsertByte(x, s[1..]);
      LargerTail(s, x, rest);
      PrependByte(s[0], rest);
      [s[0]] + rest
  }

  lemma LargerTail(s: seq<Byte>, x: Byte, rest: seq<Byte>)
    requires s != [] && SortedBytes(s) && s[0] < x
    requires multiset(rest) == multiset(s[1..]) + multiset{x}
    ensures forall k :: 0 <= k < |rest| ==> s[0] <= rest[k]
  {
    forall k | 0 <= k < |rest|
      ensures s[0] <= rest[k]
    {
      assert rest[k] in multiset(rest);
      assert rest[k] == x || rest[k] in s[1..];
    }
  }

  /** Putting a byte no larger than any of `s` in front keeps `s` sorted. */
  lemma PrependByte(x: Byte, s: seq<Byte>)
    requires SortedBytes(s)
    requires forall k :: 0 <= k < |s| ==> x <= s[k]
    ensures SortedBytes([x] + s)
  {
    var r := [x] + s;
    forall i, j | 0 <= i < j < |r|
      ensures r[i] <= r[j]
    {
      assert r[j] == s[j - 1];
      if i > 0 {
        assert r[i] == s[i - 1];
      }
    }
  }

  function SortBytes(data: seq<Byte>): (r: seq<Byte>)
    ensures SortedBytes(r)
    ensures multiset(r) == multiset(data)
  {
    if data == [] then []
    else
      assert data == [data[0]] + data[1..];
      InsertByte(data[0], SortBytes(data[1..]))
  }

  // ---------------------------------------------------------------------
  // `nodes_vec.sort_by_key(|k| k.freq)`: stable, each tree is placed
  // before the equally heavy ones that followed it.

  function InsertByFreq(x: Tree, s: seq<Tree>): (r: seq<Tree>)
    requires SortedByFreq(s)
    ensures SortedByFreq(r)
    ensures multiset(r) == multiset(s) + multiset{x}
    ensures ForestLeaves(r) == ForestLeaves(s) + Leaves(x)
    ensures ForestWeight(r) == ForestWeight(s) + x.freq
  {
    if s == [] || x.freq <= s[0].freq then
      InsertInFront(x, s);
      [x] + s
    else
      var rest := InsertByFreq(x, s[1..]);
      InsertBehindHead(s, x, rest);
      [s[0]] + rest
  }

  lemma InsertInFront(x: Tree, s: seq<Tree>)
    requires SortedByFreq(s) && (s == [] || x.freq <= s[0].freq)
    ensures SortedByFreq([x] + s)
    ensures multiset([x] + s) == multiset(s) + multiset{x}
    ensures ForestLeaves([x] + s) == ForestLeaves(s) + Leaves(x)
    ensures ForestWeight([x] + s) == ForestWeight(s) + x.freq
  {
    ForestCons(x, s);
    PrependTree(x, s);
  }

  /** The lightest tree of `s`, in front of `x` inserted into the rest. */
  lemma InsertBehindHead(s: seq<Tree>, x: Tree, rest: seq<Tree>)
    requires s != [] && SortedByFreq(s) && s[0].freq < x.freq
    requires SortedByFreq(rest)
    requires multiset(rest) == multiset(s[1..]) + multiset{x}
    requires ForestLeaves(rest) == ForestLeaves(s[1..]) + Leaves(x)
    requires ForestWeight(rest) == ForestWeight(s[1..]) + x.freq
    ensures SortedByFreq([s[0]] + rest)
    ensures multiset([s[0]] + rest) == multiset(s) + multiset{x}
    ensures ForestLeaves([s[0]] + rest) == ForestLeaves(s) + Leaves(x)
    ensures ForestWeight([s[0]] + rest) == ForestWeight(s) + x.freq
  {
    HeavierTail(s, x, rest);
    PrependTree(s[0], rest);
    ForestHead(s);
    ForestCons(s[0], rest);
  }

  lemma ForestHead(s: seq<Tree>)
    requires s != []
    ensures multiset(s) == multiset{s[0]} + multiset(s[1..])
  {
    assert s == [s[0]] + s[1..];
  }

  lemma ForestCons(t: Tree, rest: seq<Tree>)
    ensures multiset([t] + rest) == multiset{t} + multiset(rest)
    ensures ForestLeaves([t] + rest) == Leaves(t) + ForestLeaves(rest)
    ensures ForestWeight([t] + rest) == t.freq + ForestWeight(rest)
  {
    assert ([t] + rest)[1..] == rest;
  }

  /** Putting a tree no heavier than any of `s` in front keeps the order. */
  lemma PrependTree(x: Tree, s: seq<Tree>)
    requires SortedByFreq(s)
    requires forall k :: 0 <= k < |s| ==> x.freq <= s[k].freq
    ensures SortedByFreq([x] + s)
  {
    var r := [x] + s;
    forall i, j | 0 <= i < j < |r|
      ensures r[i].freq <= r[j].freq
    {
      assert r[j] == s[j - 1];
      if i > 0 {
        assert r[i] == s[i - 1];
      }
    }
  }

  /** Everything in `x` inserted into the rest of `s` is at least as heavy
      as the front of `s`. */
  lemma HeavierTail(s: seq<Tree>, x: Tree, rest: seq<Tree>)
    requires s != [] && SortedByFreq(s) && s[0].freq < x.freq
    requires multiset(rest) == multiset(s[1..]) + multiset{x}
    ensures forall k :: 0 <= k < |rest| ==> s[0].freq <= rest[k].freq
  {
    forall k | 0 <= k < |rest|
      ensures s[0].freq <= rest[k].freq
    {
      assert rest[k] in multiset(rest);
      assert rest[k] == x || rest[k] in s[1..];
    }
  }

  function SortByFreq(s: seq<Tree>): (r: seq<Tree>)
    ensures SortedByFreq(r)
    ensures multiset(r) == multiset(s)
    ensures ForestLeaves(r) == ForestLeaves(s)
    ensures ForestWeight(r) == ForestWeight(s)
  {
    if s == [] then []
    else
      ForestHead(s);
      InsertByFreq(s[0], SortByFreq(s[1..]))
  }

  // ---------------------------------------------------------------------
  // The histogram: one leaf per run of equal bytes in the sorted input

  predicate AllLeaves(s: seq<Tree>)
  {
    forall i :: 0 <= i < |s| ==> s[i].Leaf?
  }

  lemma {:induction false} TreeInForest(s: seq<Tree>, i: int)
    requires 0 <= i < |s|
    ensures Leaves(s[i]) <= ForestLeaves(s)
  {
    if i > 0 {
      TreeInForest(s[1..], i - 1);
    }
  }

  lemma {:induction false} LeafListMembers(s: seq<Tree>, v: Byte)
    requires AllLeaves(s) && v in ForestLeaves(s)
    ensures exists i :: 0 <= i < |s| && s[i].value == v
  {
    if v != s[0].value {
      LeafListMembers(s[1..], v);
      var i :| 0 <= i < |s[1..]| && s[1..][i].value == v;
      assert s[i + 1].value == v;
    }
  }

  /** Below the start of a run, every byte of a sorted sequence is smaller
      than the run's byte. */
  lemma PrefixBelow(s: seq<Byte>, start: int)
    requires SortedBytes(s) && 0 < start < |s| && s[start - 1] < s[start]
    ensures forall v :: v in s[..start] ==> v < s[start]
  {
  }

  function Repeat(value: Byte, n: nat): (r: seq<Byte>)
    ensures |r| == n
    ensures forall k :: 0 <= k < n ==> r[k] == value
  {
    if n == 0 then [] else Repeat(value, n - 1) + [value]
  }

  lemma {:induction false} RepeatCount(value: Byte, n: nat)
    ensures multiset(Repeat(value, n))[value] == n
    ensures forall u :: u != value ==> multiset(Repeat(value, n))[u] == 0
  {
    if n > 0 {
      RepeatCount(value, n - 1);
    }
  }

  /** A run of `value` adds `end - start` occurrences of it and nothing else. */
  lemma RunCount(s: seq<Byte>, start: int, end: int, value: Byte)
    requires 0 <= start < end <= |s|
    requires forall k :: start <= k < end ==> s[k] == value
    ensures forall u :: multiset(s[..end])[u]
                        == multiset(s[..start])[u] + (if u == value then end - start else 0)
    ensures forall v :: v in s[..end] <==> v in s[..start] || v == value
  {
    assert s[..end] == s[..start] + s[start..end];
    assert s[start..end] == Repeat(value, end - start);
    RepeatCount(value, end - start);
  }

  /** `leaves` is the histogram of `prefix`: one leaf per distinct byte, in
      ascending byte order, weighted by its number of occurrences. */
  ghost predicate HistogramOf(leaves: seq<Tree>, prefix: seq<Byte>)
  {
    && AllLeaves(leaves)
    && (forall i :: 0 <= i < |leaves| ==> leaves[i].freq == multiset(prefix)[leaves[i].value])
    && (forall i, j :: 0 <= i < j < |leaves| ==> leaves[i].value < leaves[j].value)
    && EachValueOnce(ForestLeaves(leaves), prefix)
    && ForestWeight(leaves) == |prefix|
  }

  /** Appending the leaf of the next run extends the histogram to the end
      of that run. */
  lemma ExtendHistogram(sorted: seq<Byte>, leaves: seq<Tree>, start: int, end: int)
    requires SortedBytes(sorted) && 0 <= start < end <= |sorted|
    requires start > 0 ==> sorted[start - 1] < sorted[start]
    requires forall k :: start <= k < end ==> sorted[k] == sorted[start]
    requires HistogramOf(leaves, sorted[..start])
    ensures HistogramOf(leaves + [Leaf(sorted[start], end - start)], sorted[..end])
  {
    var value := sorted[start];
    var before, after := sorted[..start], sorted[..end];
    assert forall v :: v in before ==> v < value by {
      if start > 0 {
        PrefixBelow(sorted, start);
      }
    }
    RunCount(sorted, start, end, value);
    ExtendRun(leaves, before, after, value, end - start);
  }

  lemma ExtendRun(leaves: seq<Tree>, before: seq<Byte>, after: seq<Byte>, value: Byte, n: nat)
    requires HistogramOf(leaves, before)
    requires forall v :: v in before ==> v < value
    requires |after| == |before| + n
    requires forall u :: multiset(after)[u] == multiset(before)[u] + (if u == value then n else 0)
    requires forall v :: v in after <==> v in before || v == value
    ensures HistogramOf(leaves + [Leaf(value, n)], after)
  {
    LeavesBelow(leaves, before, value);
    assert value !in before;
    assert multiset(before)[value] == 0;
    ExtendCounts(leaves, multiset(before), multiset(after), value, n);
    ExtendLeaves(leaves, before, after, value, n);
  }

  lemma LeavesBelow(leaves: seq<Tree>, prefix: seq<Byte>, value: Byte)
    requires AllLeaves(leaves) && EachValueOnce(ForestLeaves(leaves), prefix)
    requires forall v :: v in prefix ==> v < value
    ensures forall i :: 0 <= i < |leaves| ==> leaves[i].value < value
  {
    forall i | 0 <= i < |leaves|
      ensures leaves[i].value < value
    {
      TreeInForest(leaves, i);
      assert leaves[i].value in prefix;
    }
  }

  lemma ExtendCounts(leaves: seq<Tree>, before: multiset<Byte>, after: multiset<Byte>, value: Byte, n: nat)
    requires AllLeaves(leaves)
    requires forall i :: 0 <= i < |leaves| ==> leaves[i].freq == before[leaves[i].value]
    requires forall i, j :: 0 <= i < j < |leaves| ==> leaves[i].value < leaves[j].value
    requires forall i :: 0 <= i < |leaves| ==> leaves[i].value < value
    requires before[value] == 0
    requires forall u :: after[u] == before[u] + (if u == value then n else 0)
    ensures AllLeaves(leaves + [Leaf(value, n)])
    ensures forall i :: 0 <= i < |leaves| + 1 ==>
      (leaves + [Leaf(value, n)])[i].freq == after[(leaves + [Leaf(value, n)])[i].value]
    ensures forall i, j :: 0 <= i < j < |leaves| + 1 ==>
      (leaves + [Leaf(value, n)])[i].value < (leaves + [Leaf(value, n)])[j].value
  {
    var leaves' := leaves + [Leaf(value, n)];
    forall i | 0 <= i < |leaves'|
      ensures leaves'[i].freq == after[leaves'[i].value]
    {
      if i < |leaves| {
        assert leaves'[i] == leaves[i];
      }
    }
    forall i, j | 0 <= i < j < |leaves'|
      ensures leaves'[i].value < leaves'[j].value
    {
      assert leaves'[i] == leaves[i];
    }
  }

  lemma ExtendLeaves(leaves: seq<Tree>, before: seq<Byte>, after: seq<Byte>, value: Byte, n: nat)
    requires EachValueOnce(ForestLeaves(leaves), before)
    requires ForestWeight(leaves) == |before|
    requires |after| == |before| + n
    requires value !in before
    requires forall v :: v in after <==> v in before || v == value
    ensures EachValueOnce(ForestLeaves(leaves + [Leaf(value, n)]), after)
    ensures ForestWeight(leaves + [Leaf(value, n)]) == |after|
  {
    var leaf := Leaf(value, n);
    ForestAppend(leaves, [leaf]);
    assert ForestLeaves([leaf]) == multiset{value};
    assert ForestWeight([leaf]) == n;
  }

  /** The source's first loop: scan the sorted bytes run by run and make a
      leaf for each run, weighted by its length. */
  method Histogram(sorted: seq<Byte>) returns (leaves: seq<Tree>)
    requires SortedBytes(sorted)
    ensures AllLeaves(leaves)
    ensures forall i :: 0 <= i < |leaves| ==> leaves[i].freq == multiset(sorted)[leaves[i].value]
    ensures forall i, j :: 0 <= i < j < |leaves| ==> leaves[i].value < leaves[j].value
    ensures EachValueOnce(ForestLeaves(leaves), sorted)
    ensures ForestWeight(leaves) == |sorted|
  {
    leaves := [];
    var start := 0;
    while start < |sorted|
      invariant 0 <= start <= |sorted|
      invariant 0 < start < |sorted| ==> sorted[start - 1] < sorted[start]
      invariant HistogramOf(leaves, sorted[..start])
    {
      var value := sorted[start];
      var end := start + 1;
      while end < |sorted| && sorted[end] == value
        invariant start < end <= |sorted|
        invariant forall k :: start <= k < end ==> sorted[k] == value
      {
        end := end + 1;
      }
      ExtendHistogram(sorted, leaves, start, end);
      leaves := leaves + [Leaf(value, end - start)];
      start := end;
    }
    assert sorted[..start] == sorted;
  }

  // ---------------------------------------------------------------------
  // The merge loop and `generate_tree`

  /** The invariant of `nodes_vec` while merging: ascending weights, the
      input's total weight, a fixed multiset of leaves, and every tree's
      weights and leaf counts agreeing with `data`. */
  ghost predicate MergeInvariant(nodes: seq<Tree>, data: seq<Byte>, leaves: multiset<Byte>)
  {
    && SortedByFreq(nodes)
    && ForestWeight(nodes) == |data|
    && ForestLeaves(nodes) == leaves
    && (forall t :: t in nodes ==> WeightsConsistent(t) && LeafCounts(t, data))
  }

  lemma SortedSuffix(s: seq<Tree>, k: nat)
    requires SortedByFreq(s) && k <= |s|
    ensures SortedByFreq(s[k..])
  {
    forall i, j | 0 <= i < j < |s| - k
      ensures s[k..][i].freq <= s[k..][j].freq
    {
      assert s[k..][i] == s[i + k] && s[k..][j] == s[j + k];
    }
  }

  /** One merge: the two lightest trees under a new internal node, which
      goes back at a valid position. */
  lemma MergeStep(nodes: seq<Tree>, data: seq<Byte>, leaves: multiset<Byte>, pos: int)
    requires |nodes| >= 2 && MergeInvariant(nodes, data, leaves)
    requires ValidInsertPos(nodes[2..], nodes[0].freq + nodes[1].freq, pos)
    ensures var merged := Node(nodes[0].freq + nodes[1].freq, nodes[0], nodes[1]);
            && MergeInvariant(nodes[2..][..pos] + [merged] + nodes[2..][pos..], data, leaves)
            && merged in nodes[2..][..pos] + [merged] + nodes[2..][pos..]
  {
    var rest := nodes[2..];
    var merged := Node(nodes[0].freq + nodes[1].freq, nodes[0], nodes[1]);
    FrontTwo(nodes);
    SortedSuffix(nodes, 2);
    InsertAt(rest, pos, merged);
    var nodes' := rest[..pos] + [merged] + rest[pos..];
    assert WeightsConsistent(merged) && LeafCounts(merged, data) by {
      assert nodes[0] in nodes && nodes[1] in nodes;
    }
    forall t | t in nodes'
      ensures WeightsConsistent(t) && LeafCounts(t, data)
    {
      if t != merged {
        assert t in rest;
        assert t in nodes;
      }
    }
  }

  /** A list's weight and leaves split off its first two trees. */
  lemma FrontTwo(nodes: seq<Tree>)
    requires |nodes| >= 2
    ensures ForestWeight(nodes) == nodes[0].freq + nodes[1].freq + ForestWeight(nodes[2..])
    ensures ForestLeaves(nodes) == Leaves(nodes[0]) + Leaves(nodes[1]) + ForestLeaves(nodes[2..])
  {
    assert nodes[1..][1..] == nodes[2..];
  }

  /** `generate_tree`: sort the bytes, build the histogram, sort it by
      weight, merge until at most one tree is left. */
  method GenerateTree(data: seq<Byte>) returns (r: Result<Tree>)
    ensures r.Err? <==> data == []
    ensures r.Err? ==> r.error == "error generating Huffman-tree"
    ensures r.Ok? ==> r.value.freq == |data|
    ensures r.Ok? ==> WeightsConsistent(r.value) && LeafCounts(r.value, data)
    ensures r.Ok? ==> EachValueOnce(Leaves(r.value), data)
    ensures r.Ok? ==> (r.value.Leaf? <==> AllSame(data))
  {
    var sorted := SortBytes(data);
    var leaves := Histogram(sorted);
    var initial := SortByFreq(leaves);
    InitialForest(data, sorted, leaves, initial);
    var nodes := MergeNodes(initial, data, ForestLeaves(leaves));
    if |nodes| != 1 {
      return Err("error generating Huffman-tree");
    }
    FinalRoot(nodes, data, leaves, initial);
    r := Ok(nodes[0]);
  }

  /** The source's second loop: while two trees are left, take the two
      lightest off the front, join them under a new internal node whose
      weight is their sum, and put it back where `binary_search_by_key`
      finds a place for its weight (any position that keeps the order). */
  method MergeNodes(initial: seq<Tree>, ghost data: seq<Byte>, ghost leaves: multiset<Byte>)
    returns (nodes: seq<Tree>)
    requires MergeInvariant(initial, data, leaves)
    ensures MergeInvariant(nodes, data, leaves)
    ensures |nodes| <= 1
    ensures nodes == [] <==> initial == []
    ensures |initial| <= 1 ==> nodes == initial
    ensures |initial| >= 2 ==> nodes[0].Node?
  {
    nodes := initial;
    ghost var last: Tree := Leaf(0, 0);
    while |nodes| >= 2
      invariant MergeInvariant(nodes, data, leaves)
      invariant |nodes| >= 1 <==> |initial| >= 1
      invariant |initial| <= 1 ==> nodes == initial
      invariant |initial| >= 2 && |nodes| < |initial| ==> last in nodes && last.Node?
      decreases |nodes|
    {
      nodes, last := MergeOnce(nodes, data, leaves);
    }
  }

  /** One round of the loop: the two lightest trees taken off the front,
      joined, and the join inserted where `binary_search_by_key` puts it. */
  method MergeOnce(nodes: seq<Tree>, ghost data: seq<Byte>, ghost leaves: multiset<Byte>)
    returns (nodes': seq<Tree>, ghost merged: Tree)
    requires |nodes| >= 2 && MergeInvariant(nodes, data, leaves)
    ensures MergeInvariant(nodes', data, leaves)
    ensures |nodes'| == |nodes| - 1
    ensures merged == Node(nodes[0].freq + nodes[1].freq, nodes[0], nodes[1])
    ensures merged in nodes'
    ensures exists pos :: ValidInsertPos(nodes[2..], merged.freq, pos)
                          && nodes' == nodes[2..][..pos] + [merged] + nodes[2..][pos..]
  {
    var rest := nodes[2..];
    var node1, node2 := nodes[0], nodes[1];
    var newNode := Node(node1.freq + node2.freq, node1, node2);
    SortedSuffix(nodes, 2);
    assert ValidInsertPos(rest, newNode.freq, LowerBound(rest, newNode.freq));
    var pos :| ValidInsertPos(rest, newNode.freq, pos);
    MergeStep(nodes, data, leaves, pos);
    nodes' := rest[..pos] + [newNode] + rest[pos..];
    merged := newNode;
  }

  /** The list entering the merge loop: the histogram sorted by weight. */
  lemma InitialForest(data: seq<Byte>, sorted: seq<Byte>, leaves: seq<Tree>, initial: seq<Tree>)
    requires multiset(sorted) == multiset(data)
    requires AllLeaves(leaves)
    requires forall i :: 0 <= i < |leaves| ==> leaves[i].freq == multiset(sorted)[leaves[i].value]
    requires forall i, j :: 0 <= i < j < |leaves| ==> leaves[i].value < leaves[j].value
    requires EachValueOnce(ForestLeaves(leaves), sorted)
    requires ForestWeight(leaves) == |sorted|
    requires SortedByFreq(initial) && multiset(initial) == multiset(leaves)
    requires ForestLeaves(initial) == ForestLeaves(leaves) && ForestWeight(initial) == ForestWeight(leaves)
    ensures MergeInvariant(initial, data, ForestLeaves(leaves))
    ensures initial == [] <==> data == []
    ensures data != [] ==> (|initial| == 1 <==> AllSame(data))
    ensures forall t :: t in initial ==> t.Leaf?
    ensures EachValueOnce(ForestLeaves(leaves), data)
  {
    SameBytes(sorted, data);
    HistogramShape(leaves, sorted);
    assert |initial| == |multiset(initial)| == |multiset(leaves)| == |leaves|;
    forall t | t in initial
      ensures t.Leaf? && WeightsConsistent(t) && LeafCounts(t, data)
    {
      assert t in multiset(leaves);
      var i :| 0 <= i < |leaves| && leaves[i] == t;
    }
    if data != [] {
      assert AllSame(data) <==> AllSame(sorted) by {
        if AllSame(sorted) {
          forall i, j | 0 <= i < |data| && 0 <= j < |data|
            ensures data[i] == data[j]
          {
            assert data[i] in sorted && data[j] in sorted;
          }
        }
        if AllSame(data) {
          forall i, j | 0 <= i < |sorted| && 0 <= j < |sorted|
            ensures sorted[i] == sorted[j]
          {
            assert sorted[i] in data && sorted[j] in data;
          }
        }
      }
    }
  }

  /** The tree left when the loop stops. */
  lemma FinalRoot(nodes: seq<Tree>, data: seq<Byte>, leaves: seq<Tree>, initial: seq<Tree>)
    requires |nodes| == 1
    requires MergeInvariant(nodes, data, ForestLeaves(leaves))
    requires nodes == [] <==> initial == []
    requires |initial| <= 1 ==> nodes == initial
    requires |initial| >= 2 ==> nodes[0].Node?
    requires data != [] ==> (|initial| == 1 <==> AllSame(data))
    requires forall t :: t in initial ==> t.Leaf?
    requires EachValueOnce(ForestLeaves(leaves), data)
    ensures data != []
    ensures nodes[0].freq == |data|
    ensures WeightsConsistent(nodes[0]) && LeafCounts(nodes[0], data)
    ensures EachValueOnce(Leaves(nodes[0]), data)
    ensures nodes[0].Leaf? <==> AllSame(data)
  {
    assert nodes[1..] == [];
    assert nodes[0] in nodes;
    assert ForestLeaves(nodes) == Leaves(nodes[0]);
    assert ForestWeight(nodes) == nodes[0].freq;
    if data == [] {
      assert ForestWeight(nodes) == 0;
      assert Leaves(nodes[0]) == multiset{};
      LeavesNonEmpty(nodes[0]);
    }
  }

  lemma {:induction false} LeavesNonEmpty(t: Tree)
    ensures |Leaves(t)| > 0
  {
    match t
    case Leaf(_, _) =>
    case Node(_, l, r) => LeavesNonEmpty(l);
  }

  lemma SameBytes(sorted: seq<Byte>, data: seq<Byte>)
    requires multiset(sorted) == multiset(data)
    ensures |sorted| == |data|
    ensures forall v :: v in sorted <==> v in data
  {
    assert |multiset(sorted)| == |sorted|;
    assert forall v :: v in sorted <==> v in multiset(sorted);
  }

  /** The histogram of `data` is empty exactly for empty data and has one
      leaf exactly when all bytes are equal. */
  lemma HistogramShape(leaves: seq<Tree>, sorted: seq<Byte>)
    requires AllLeaves(leaves)
    requires forall i, j :: 0 <= i < j < |leaves| ==> leaves[i].value < leaves[j].value
    requires EachValueOnce(ForestLeaves(leaves), sorted)
    ensures leaves == [] <==> sorted == []
    ensures sorted != [] ==> (|leaves| == 1 <==> AllSame(sorted))
  {
    if sorted != [] {
      assert ForestLeaves(leaves)[sorted[0]] == 1;
      if |leaves| == 1 {
        assert ForestLeaves(leaves) == multiset{leaves[0].value} by {
          assert leaves[1..] == [];
        }
        forall i, j | 0 <= i < |sorted| && 0 <= j < |sorted|
          ensures sorted[i] == sorted[j]
        {
          assert ForestLeaves(leaves)[sorted[i]] == 1;
          assert ForestLeaves(leaves)[sorted[j]] == 1;
        }
      } else {
        assert leaves != [];
        TreeInForest(leaves, 0);
        TreeInForest(leaves, 1);
        assert leaves[0].value in sorted && leaves[1].value in sorted;
        assert leaves[0].value != leaves[1].value;
      }
    } else if leaves != [] {
      TreeInForest(leaves, 0);
    }
  }
}
