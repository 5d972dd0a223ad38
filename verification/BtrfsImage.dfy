/** A btrfs tree laid out block by block, and the walk of `src/btrfs.rs` over it. */
module BtrfsImage {
  import opened Common
  import opened ByteFields
  import opened Btrfs

  // ------------------------------------------------------------------ blocks

  /** An entry of an inner node: a key of 17 bytes, the address of the child, and the child's generation. */
  datatype Slot = Slot(key: seq<byte>, address: nat, generation: seq<byte>)

  predicate SlotOk(s: Slot) { |s.key| == 17 && s.address < U64_LIMIT && |s.generation| == 8 }

  function SlotBytes(s: Slot): (b: seq<byte>)
    requires SlotOk(s)
    ensures |b| == 33
  {
    s.key + WriteLe(s.address, 8) + s.generation
  }

  predicate SlotsOk(slots: seq<Slot>) { forall k :: 0 <= k < |slots| ==> SlotOk(slots[k]) }

  function SlotsBytes(slots: seq<Slot>): (b: seq<byte>)
    requires SlotsOk(slots)
    ensures |b| == 33 * |slots|
  {
    if slots == [] then [] else SlotBytes(slots[0]) + SlotsBytes(slots[1..])
  }

  /** The header: 96 bytes of checksum, identity and ownership, the number of items and the level. */
  function HeaderBytes(front: seq<byte>, items: nat, level: byte): (b: seq<byte>)
    requires |front| == 96 && items < U32_LIMIT
    ensures |b| == 101
  {
    front + WriteLe(items, 4) + [level]
  }

  predicate BranchOk(front: seq<byte>, level: byte, slots: seq<Slot>, tail: seq<byte>) {
    |front| == 96 && 1 <= level <= 8 && SlotsOk(slots) && 101 + 33 * |slots| + |tail| == 4096
  }

  function BranchBytes(front: seq<byte>, level: byte, slots: seq<Slot>, tail: seq<byte>): Block
    requires BranchOk(front, level, slots, tail)
  {
    HeaderBytes(front, |slots|, level) + SlotsBytes(slots) + tail
  }

  predicate LeafOk(front: seq<byte>, items: nat, rest: seq<byte>) {
    |front| == 96 && 101 + |rest| == 4096 && 25 * items <= |rest|
  }

  function LeafBytes(front: seq<byte>, items: nat, rest: seq<byte>): Block
    requires LeafOk(front, items, rest)
  {
    HeaderBytes(front, items, 0) + rest
  }

  lemma HeaderReads(b: Block, front: seq<byte>, items: nat, level: byte)
    requires |front| == 96 && items < U32_LIMIT && b[0..101] == HeaderBytes(front, items, level)
    ensures ReadLe(b, 0x60, 4) == items && b[0x64] == level
  {
    var h := HeaderBytes(front, items, level);
    assert h[96..100] == WriteLe(items, 4) && h[100] == level;
    Field4(b, 0, h, 96, items);
    assert b[100] == b[0..101][100];
  }

  lemma {:induction false} SlotAt(slots: seq<Slot>, k: nat)
    requires SlotsOk(slots) && k < |slots|
    ensures 33 * k + 33 <= |SlotsBytes(slots)| && SlotsBytes(slots)[33 * k..33 * k + 33] == SlotBytes(slots[k])
  {
    if k > 0 {
      SlotAt(slots[1..], k - 1);
      Inside(SlotsBytes(slots), 33, SlotsBytes(slots[1..]), 33 * (k - 1), 33 * (k - 1) + 33);
    }
  }

  lemma ChildReads(front: seq<byte>, level: byte, slots: seq<Slot>, tail: seq<byte>, k: nat)
    requires BranchOk(front, level, slots, tail) && k < |slots|
    ensures k < Capacity(1) && Child(BranchBytes(front, level, slots, tail), k) == slots[k].address
  {
    var b, s := BranchBytes(front, level, slots, tail), SlotsBytes(slots);
    Thirds(HeaderBytes(front, |slots|, level), s, tail);
    SlotAt(slots, k);
    Inside(b, 101, s, 33 * k, 33 * k + 33);
    SlotReads(b, 101 + 33 * k, slots[k]);
  }

  lemma SlotReads(b: Block, at: nat, s: Slot)
    requires at + 33 <= 4096 && SlotOk(s) && b[at..at + 33] == SlotBytes(s)
    ensures ReadLe(b, at + 17, 8) == s.address
  {
    Thirds(s.key, WriteLe(s.address, 8), s.generation);
    Field8(b, at, SlotBytes(s), 17, s.address);
  }

  function Addresses(slots: seq<Slot>): (r: seq<nat>)
    ensures |r| == |slots|
  {
    seq(|slots|, k requires 0 <= k < |slots| => slots[k].address)
  }

  /** An inner node is decoded to the addresses of its children, in order. */
  lemma BranchDecodes(front: seq<byte>, level: byte, slots: seq<Slot>, tail: seq<byte>)
    requires BranchOk(front, level, slots, tail)
    ensures Decode(BranchBytes(front, level, slots, tail)) == Branch(Addresses(slots))
  {
    var b := BranchBytes(front, level, slots, tail);
    Thirds(HeaderBytes(front, |slots|, level), SlotsBytes(slots), tail);
    HeaderReads(b, front, |slots|, level);
    forall k: nat | k < |slots| ensures k < Capacity(1) && Child(b, k) == slots[k].address {
      ChildReads(front, level, slots, tail, k);
    }
  }

  lemma LeafDecodes(front: seq<byte>, items: nat, rest: seq<byte>)
    requires LeafOk(front, items, rest)
    ensures Decode(LeafBytes(front, items, rest)) == Leaf(LeafBytes(front, items, rest))
  {
    var b := LeafBytes(front, items, rest);
    assert b[0..101] == HeaderBytes(front, items, 0);
    HeaderReads(b, front, items, 0);
  }

  // ------------------------------------------------------------------ trees

  datatype Tree =
    | LeafNode(front: seq<byte>, items: nat, rest: seq<byte>)
    | InnerNode(front: seq<byte>, level: byte, slots: seq<Slot>, children: seq<Tree>, tail: seq<byte>)

  /** The blocks of the tree can be read at their addresses. */
  ghost predicate Stored(read: Reader, n: nat, t: Tree)
    decreases t, 0
  {
    match t
    case LeafNode(front, items, rest) => LeafOk(front, items, rest) && read(n) == Ok(LeafBytes(front, items, rest))
    case InnerNode(front, level, slots, children, tail) =>
      && BranchOk(front, level, slots, tail) && |children| == |slots|
      && read(n) == Ok(BranchBytes(front, level, slots, tail))
      && AllStored(read, Addresses(slots), children)
  }

  ghost predicate AllStored(read: Reader, ns: seq<nat>, children: seq<Tree>)
    decreases children, 1, |ns|
  {
    |ns| == |children| && (ns != [] ==> Stored(read, ns[0], children[0]) && AllStored(read, ns[1..], children[1..]))
  }

  /** The leaves from left to right. */
  function Leaves(t: Tree): seq<Tree>
    decreases t, 0
  {
    match t
    case LeafNode(_, _, _) => [t]
    case InnerNode(_, _, _, children, _) => AllLeaves(children)
  }

  function AllLeaves(children: seq<Tree>): seq<Tree>
    decreases children, 1
  {
    if children == [] then [] else Leaves(children[0]) + AllLeaves(children[1..])
  }

  function BlockOf(t: Tree): Block
    requires t.LeafNode? && LeafOk(t.front, t.items, t.rest)
  {
    LeafBytes(t.front, t.items, t.rest)
  }

  /** Blocks and levels of a tree, and the most blocks that wait at any time with some waiting behind it. */
  function Blocks(t: Tree): nat
    decreases t, 0
  {
    if t.LeafNode? then 1 else 1 + AllBlocks(t.children)
  }

  function AllBlocks(children: seq<Tree>): nat
    decreases children, 1
  {
    if children == [] then 0 else Blocks(children[0]) + AllBlocks(children[1..])
  }

  function Height(t: Tree): (h: nat)
    ensures h >= 1
    decreases t, 0
  {
    if t.LeafNode? then 1 else 1 + AllHeight(t.children)
  }

  function AllHeight(children: seq<Tree>): nat
    decreases children, 1
  {
    if children == [] then 0 else Max(Height(children[0]), AllHeight(children[1..]))
  }

  function Waiting(t: Tree, below: nat): nat
    decreases t, 0
  {
    if t.LeafNode? then 0 else Max(below + |t.children|, AllWaiting(t.children, below))
  }

  function AllWaiting(children: seq<Tree>, below: nat): nat
    decreases children, 1
  {
    if children == [] then 0
    else Max(Waiting(children[0], below + |children| - 1), AllWaiting(children[1..], below))
  }

  // ------------------------------------------------------------------ the walk

  /** The enumeration shows the blocks of these leaves and counts right. */
  ghost predicate Shows(e: Enumeration, leaves: seq<Tree>, blocks: nat, waiting: nat) {
    && |e.leaves| == |leaves| && e.whole && e.blocks == blocks && e.waiting == waiting
    && forall k :: 0 <= k < |leaves| ==>
         leaves[k].LeafNode? && LeafOk(leaves[k].front, leaves[k].items, leaves[k].rest)
         && e.leaves[k] == BlockOf(leaves[k])
  }

  lemma {:induction false} TreeEnumerates(read: Reader, n: nat, t: Tree, below: nat, depth: nat)
    requires Stored(read, n, t) && depth >= Height(t)
    ensures Shows(Btrfs.Tree(GraphOf(read), n, below, depth), Leaves(t), Blocks(t), Waiting(t, below))
    decreases t, 0
  {
    match t
    case LeafNode(front, items, rest) => LeafDecodes(front, items, rest);
    case InnerNode(front, level, slots, children, tail) =>
      BranchDecodes(front, level, slots, tail);
      assert GraphOf(read)(n) == Branch(Addresses(slots));
      ForestEnumerates(read, Addresses(slots), children, below, depth - 1);
  }

  lemma {:induction false} ForestEnumerates(read: Reader, ns: seq<nat>, children: seq<Tree>, below: nat, depth: nat)
    requires AllStored(read, ns, children) && depth >= AllHeight(children)
    ensures Shows(Forest(GraphOf(read), ns, below, depth), AllLeaves(children), AllBlocks(children),
                  AllWaiting(children, below))
    decreases children, 1, |ns|
  {
    if ns != [] {
      TreeEnumerates(read, ns[0], children[0], below + |ns| - 1, depth);
      ForestEnumerates(read, ns[1..], children[1..], below, depth);
    }
  }

  /** The visitor lets the walk go on. */
  ghost predicate NeverStops(visit: Visitor) { forall shown: seq<Block> :: visit(shown) == Ok(false) }

  /** On a disk that stores a tree within the limits, the walk shows its leaves from left to right. */
  lemma StoredTreeIsWalked(read: Reader, visit: Visitor, root: nat, t: Tree)
    requires Stored(read, root, t) && Blocks(t) <= 4096 && Waiting(t, 0) <= 512 && NeverStops(visit)
    ensures var w := Walk(GraphOf(read), visit, [root], 0, []);
            && w.result == Ok(false) && |w.shown| == |Leaves(t)|
            && forall k :: 0 <= k < |Leaves(t)| ==>
                 Leaves(t)[k].LeafNode? && LeafOk(Leaves(t)[k].front, Leaves(t)[k].items, Leaves(t)[k].rest)
                 && w.shown[k] == BlockOf(Leaves(t)[k])
  {
    var graph := GraphOf(read);
    var e, f := Btrfs.Tree(graph, root, 0, Height(t)), Forest(graph, [root], 0, Height(t));
    TreeEnumerates(read, root, t, 0, Height(t));
    assert [root] + [] == [root];
    ForestOf(graph, root, [], Height(t));
    assert e.leaves + [] == e.leaves;
    WalkCompletes(graph, visit, [root], 0, [], Height(t));
    assert [] + f.leaves == f.leaves;
  }
}
