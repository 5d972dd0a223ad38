/** The tree walk of `src/btrfs.rs`: an explicit stack in place of a recursion over a block graph.

    Reading a block is a function, so one block number always reads the same; the visitor answers from
    the leaves it has been shown, the newest last.
 */
module Btrfs {
  import opened Common

  const NODE_SIZE := 4096
  const TREE_HEADER_SIZE := 101
  const LEAF_ITEM_SIZE := 25
  const NODE_PTR_SIZE := 33
  const MAX_PENDING_NODES := 512
  const MAX_TREE_VISITS := 4096

  datatype Error = Io | ChecksumMismatch | TreeCorrupt | UnmappedLogical | UnsupportedFeature | NotFound

  type Block = b: seq<byte> | |b| == NODE_SIZE witness seq(NODE_SIZE, _ => 0)

  type Reader = nat -> Result<Block, Error>

  type Visitor = seq<Block> -> Result<bool, Error>

  // ------------------------------------------------------------------ blocks

  datatype Node = Bad(error: Error) | Leaf(block: Block) | Branch(children: seq<nat>)

  function Capacity(level: byte): nat {
    (NODE_SIZE - TREE_HEADER_SIZE) / if level == 0 then LEAF_ITEM_SIZE else NODE_PTR_SIZE
  }

  function Child(b: Block, index: nat): nat
    requires index < Capacity(1)
  {
    ReadLe(b, TREE_HEADER_SIZE + index * NODE_PTR_SIZE + 17, 8)
  }

  /** What a block is to the walk. */
  function Decode(b: Block): Node {
    var items, level := ReadLe(b, 0x60, 4), b[0x64];
    if items > Capacity(level) then Bad(TreeCorrupt)
    else if level == 0 then Leaf(b)
    else if level > 8 then Bad(UnsupportedFeature)
    else Branch(seq(items, i requires 0 <= i < items => Child(b, i)))
  }

  /** What every block number leads to. */
  type Graph = nat -> Node

  function GraphOf(read: Reader): Graph {
    (n: nat) =>
      match read(n)
      case Err(e) => Bad(e)
      case Ok(b) => Decode(b)
  }

  // ------------------------------------------------------------------ the recursion

  /** A left-to-right enumeration: the leaves met, whether all of it could be read, how many blocks it took,
      and how many blocks were waiting at most. */
  datatype Enumeration = Enumeration(leaves: seq<Block>, whole: bool, blocks: nat, waiting: nat)

  /** The leaves below a block, down to a depth, with `below` blocks waiting behind it. */
  function Tree(graph: Graph, n: nat, below: nat, depth: nat): Enumeration
    decreases depth, 0, 0
  {
    if depth == 0 then Enumeration([], false, 0, 0)
    else
      match graph(n)
      case Bad(_) => Enumeration([], false, 1, 0)
      case Leaf(block) => Enumeration([block], true, 1, 0)
      case Branch(children) =>
        Above(Forest(graph, children, below, depth - 1), below + |children|)
  }

  /** An enumeration of children, counted with the block that lists them. */
  function Above(f: Enumeration, waiting: nat): Enumeration {
    Enumeration(f.leaves, f.whole, 1 + f.blocks, Max(waiting, f.waiting))
  }

  function Forest(graph: Graph, ns: seq<nat>, below: nat, depth: nat): Enumeration
    decreases depth, 1, |ns|
  {
    if ns == [] then Enumeration([], true, 0, 0)
    else Join(Tree(graph, ns[0], below + |ns| - 1, depth), Forest(graph, ns[1..], below, depth))
  }

  /** One enumeration and then another, which is reached only if the first is whole. */
  function Join(a: Enumeration, b: Enumeration): Enumeration {
    if !a.whole then a
    else Enumeration(a.leaves + b.leaves, b.whole, a.blocks + b.blocks, Max(a.waiting, b.waiting))
  }

  /** `b` carries on where `a` gave up, and is `a` if `a` is whole. */
  predicate Extends(a: Enumeration, b: Enumeration) { a.leaves <= b.leaves && (a.whole ==> a == b) }

  lemma JoinExtends(a: Enumeration, b: Enumeration, a2: Enumeration, b2: Enumeration)
    requires Extends(a, a2) && Extends(b, b2)
    ensures Extends(Join(a, b), Join(a2, b2))
  {
    if !a.whole {
      assert a.leaves <= a2.leaves <= a2.leaves + b2.leaves;
    } else {
      assert a.leaves + b.leaves <= a.leaves + b2.leaves;
    }
  }

  lemma {:induction false} TreeDeepens(graph: Graph, n: nat, below: nat, depth: nat)
    ensures Extends(Tree(graph, n, below, depth), Tree(graph, n, below, depth + 1))
    decreases depth, 0, 0
  {
    if depth > 0 {
      match graph(n)
      case Branch(children) => ForestDeepens(graph, children, below, depth - 1);
      case _ =>
    }
  }

  lemma {:induction false} ForestDeepens(graph: Graph, ns: seq<nat>, below: nat, depth: nat)
    ensures Extends(Forest(graph, ns, below, depth), Forest(graph, ns, below, depth + 1))
    decreases depth, 1, |ns|
  {
    if ns != [] {
      TreeDeepens(graph, ns[0], below + |ns| - 1, depth);
      ForestDeepens(graph, ns[1..], below, depth);
      JoinExtends(Tree(graph, ns[0], below + |ns| - 1, depth), Forest(graph, ns[1..], below, depth),
                  Tree(graph, ns[0], below + |ns| - 1, depth + 1), Forest(graph, ns[1..], below, depth + 1));
    }
  }

  /** Enumerating two lists in a row, the second waiting behind the first. */
  lemma {:induction false} ForestAppends(graph: Graph, a: seq<nat>, b: seq<nat>, below: nat, depth: nat)
    ensures Forest(graph, a + b, below, depth)
            == Join(Forest(graph, a, below + |b|, depth), Forest(graph, b, below, depth))
    decreases |a|
  {
    if a == [] {
      assert a + b == b;
      var f := Forest(graph, b, below, depth);
      assert [] + f.leaves == f.leaves;
    } else {
      assert (a + b)[1..] == a[1..] + b;
      ForestAppends(graph, a[1..], b, below, depth);
      JoinAssociates(Tree(graph, a[0], below + |a| + |b| - 1, depth), Forest(graph, a[1..], below + |b|, depth),
                     Forest(graph, b, below, depth));
    }
  }

  lemma JoinAssociates(a: Enumeration, b: Enumeration, c: Enumeration)
    ensures Join(a, Join(b, c)) == Join(Join(a, b), c)
  {
    assert a.leaves + (b.leaves + c.leaves) == a.leaves + b.leaves + c.leaves;
  }

  // ------------------------------------------------------------------ the walk

  /** How a walk ends: whether the visitor stopped it, and what it was shown. */
  datatype Walked = Walked(result: Result<bool, Error>, shown: seq<Block>)

  /** The loop with these blocks pending, the next one first. */
  function Walk(graph: Graph, visit: Visitor, pending: seq<nat>, visits: nat, shown: seq<Block>): Walked
    requires visits <= MAX_TREE_VISITS
    decreases MAX_TREE_VISITS - visits, |pending|
  {
    if pending == [] then Walked(Ok(false), shown)
    else if visits == MAX_TREE_VISITS then Walked(Err(TreeCorrupt), shown)
    else
      match graph(pending[0])
      case Bad(e) => Walked(Err(e), shown)
      case Leaf(block) =>
        (match visit(shown + [block])
         case Err(e) => Walked(Err(e), shown + [block])
         case Ok(true) => Walked(Ok(true), shown + [block])
         case Ok(false) => Walk(graph, visit, pending[1..], visits + 1, shown + [block]))
      case Branch(children) =>
        if |pending| - 1 + |children| > MAX_PENDING_NODES then Walked(Err(UnsupportedFeature), shown)
        else Walk(graph, visit, children + pending[1..], visits + 1, shown)
  }

  lemma ForestOf(graph: Graph, n: nat, rest: seq<nat>, depth: nat)
    ensures Forest(graph, [n] + rest, 0, depth) == Join(Tree(graph, n, |rest|, depth), Forest(graph, rest, 0, depth))
  {
    assert ([n] + rest)[1..] == rest;
  }

  /** Opening a branch: what its children list, one level up, and the rest read one level deeper. */
  lemma OpenJoins(a: Enumeration, b: Enumeration, b2: Enumeration, waiting: nat)
    requires Extends(b, b2)
    ensures var f, g := Join(a, b), Join(Above(a, waiting), b2);
            f.leaves <= g.leaves
                && (f.whole ==> g == Enumeration(f.leaves, true, f.blocks + 1, Max(waiting, f.waiting)))
  {
    if a.whole {
      assert a.leaves + b.leaves <= a.leaves + b2.leaves;
    }
  }

  /** What a branch contributes is what its children do, one level down. */
  lemma BranchOpens(graph: Graph, n: nat, rest: seq<nat>, children: seq<nat>, depth: nat)
    requires graph(n) == Branch(children)
    ensures var f, g := Forest(graph, children + rest, 0, depth), Forest(graph, [n] + rest, 0, depth + 1);
            && f.leaves <= g.leaves
            && (f.whole ==> g == Enumeration(f.leaves, true, f.blocks + 1, Max(|rest| + |children|, f.waiting)))
  {
    ForestAppends(graph, children, rest, 0, depth);
    ForestDeepens(graph, rest, 0, depth);
    ForestOf(graph, n, rest, depth + 1);
    OpenJoins(Forest(graph, children, |rest|, depth), Forest(graph, rest, 0, depth), Forest(graph, rest, 0, depth + 1),
              |rest| + |children|);
  }

  /** Whatever happens, what the visitor was shown is the start of the enumeration; when the walk runs to its
      end it is all of it, in no more blocks than the limits allow. */
  lemma {:induction false} WalkFollows(graph: Graph, visit: Visitor, pending: seq<nat>, visits: nat, shown: seq<Block>)
    returns (depth: nat)
    requires visits <= MAX_TREE_VISITS
    ensures var w, f := Walk(graph, visit, pending, visits, shown), Forest(graph, pending, 0, depth);
            && w.shown <= shown + f.leaves
            && (w.result == Ok(false) ==>
                  && w.shown == shown + f.leaves && f.whole && visits + f.blocks <= MAX_TREE_VISITS
                  && f.waiting <= MAX_PENDING_NODES)
    decreases MAX_TREE_VISITS - visits
  {
    depth := 0;
    if pending != [] && visits < MAX_TREE_VISITS {
      var rest := pending[1..];
      assert pending == [pending[0]] + rest;
      match graph(pending[0])
      case Bad(_) =>
      case Leaf(block) =>
        var d := 0;
        if visit(shown + [block]) == Ok(false) {
          d := WalkFollows(graph, visit, rest, visits + 1, shown + [block]);
          ForestDeepens(graph, rest, 0, d);
        }
        depth := d + 1;
        LeafOpens(graph, pending[0], rest, block, d);
        ShownFirst(shown, block, Forest(graph, rest, 0, d + 1).leaves);
      case Branch(children) =>
        if |rest| + |children| <= MAX_PENDING_NODES {
          var d := WalkFollows(graph, visit, children + rest, visits + 1, shown);
          BranchOpens(graph, pending[0], rest, children, d);
          depth := d + 1;
        }
    }
  }

  lemma ShownFirst(shown: seq<Block>, block: Block, leaves: seq<Block>)
    ensures shown + [block] + leaves == shown + ([block] + leaves)
  {
  }

  lemma LeafOpens(graph: Graph, n: nat, rest: seq<nat>, block: Block, depth: nat)
    requires graph(n) == Leaf(block)
    ensures var f, g := Forest(graph, rest, 0, depth + 1), Forest(graph, [n] + rest, 0, depth + 1);
            g == Enumeration([block] + f.leaves, f.whole, f.blocks + 1, f.waiting)
  {
    assert ([n] + rest)[1..] == rest;
  }

  lemma CloseJoins(a: Enumeration, a2: Enumeration, b: Enumeration, waiting: nat)
    requires Extends(a, a2) && Join(Above(a, waiting), b).whole
    ensures var f, g := Join(a2, b), Join(Above(a, waiting), b);
            f.whole && f.leaves == g.leaves && f.blocks + 1 == g.blocks && g.waiting == Max(waiting, f.waiting)
  {
  }

  lemma BranchCloses(graph: Graph, n: nat, rest: seq<nat>, children: seq<nat>, depth: nat)
    requires graph(n) == Branch(children) && Forest(graph, [n] + rest, 0, depth + 1).whole
    ensures var f, g := Forest(graph, children + rest, 0, depth + 1), Forest(graph, [n] + rest, 0, depth + 1);
            && f.whole && f.leaves == g.leaves && f.blocks + 1 == g.blocks
            && g.waiting == Max(|rest| + |children|, f.waiting)
  {
    var a, a2, b := Forest(graph, children, |rest|, depth), Forest(graph, children, |rest|, depth + 1),
                    Forest(graph, rest, 0, depth + 1);
    assert Forest(graph, children + rest, 0, depth + 1) == Join(a2, b) by {
      ForestAppends(graph, children, rest, 0, depth + 1);
    }
    assert Forest(graph, [n] + rest, 0, depth + 1) == Join(Above(a, |rest| + |children|), b) by {
      ForestOf(graph, n, rest, depth + 1);
    }
    ForestDeepens(graph, children, |rest|, depth);
    CloseJoins(a, a2, b, |rest| + |children|);
  }

  /** The visitor lets the walk go on after each of these leaves. */
  ghost predicate GoesOn(visit: Visitor, shown: seq<Block>, leaves: seq<Block>) {
    forall k: nat :: 1 <= k <= |leaves| ==> visit(shown + leaves[..k]) == Ok(false)
  }

  lemma GoesOnAfter(visit: Visitor, shown: seq<Block>, block: Block, leaves: seq<Block>)
    requires GoesOn(visit, shown, [block] + leaves)
    ensures visit(shown + [block]) == Ok(false) && GoesOn(visit, shown + [block], leaves)
  {
    assert ([block] + leaves)[..1] == [block];
    forall k: nat | 1 <= k <= |leaves| ensures visit(shown + [block] + leaves[..k]) == Ok(false) {
      assert ([block] + leaves)[..k + 1] == [block] + leaves[..k];
      assert shown + ([block] + leaves[..k]) == shown + [block] + leaves[..k];
    }
  }

  /** A walk within the limits, which the visitor does not stop, shows the whole enumeration. */
  lemma {:induction false} WalkCompletes(
    graph: Graph, visit: Visitor, pending: seq<nat>, visits: nat, shown: seq<Block>, depth: nat)
    requires var f := Forest(graph, pending, 0, depth);
             && f.whole && visits + f.blocks <= MAX_TREE_VISITS && f.waiting <= MAX_PENDING_NODES
             && GoesOn(visit, shown, f.leaves)
    ensures Walk(graph, visit, pending, visits, shown)
            == Walked(Ok(false), shown + Forest(graph, pending, 0, depth).leaves)
    decreases MAX_TREE_VISITS - visits
  {
    var f := Forest(graph, pending, 0, depth);
    if pending == [] {
      assert shown + [] == shown;
    } else {
      var n, rest := pending[0], pending[1..];
      assert pending == [n] + rest;
      assert Tree(graph, n, |rest|, depth).whole && Tree(graph, n, |rest|, depth).blocks >= 1;
      match graph(n)
      case Leaf(block) =>
        LeafOpens(graph, n, rest, block, depth - 1);
        var g := Forest(graph, rest, 0, depth);
        GoesOnAfter(visit, shown, block, g.leaves);
        WalkCompletes(graph, visit, rest, visits + 1, shown + [block], depth);
        assert shown + [block] + g.leaves == shown + ([block] + g.leaves);
      case Branch(children) =>
        BranchCloses(graph, n, rest, children, depth - 1);
        WalkCompletes(graph, visit, children + rest, visits + 1, shown, depth);
      case Bad(_) =>
    }
  }

  /** The recursion enumerates everything below the root, within the limits on blocks read and waiting. */
  predicate Enumerable(graph: Graph, root: nat, depth: nat) {
    var f := Forest(graph, [root], 0, depth);
    f.whole && f.blocks <= MAX_TREE_VISITS && f.waiting <= MAX_PENDING_NODES
  }

  /** With a visitor that never stops it, the walk succeeds exactly when the recursion does. */
  lemma WalkSucceedsExactly(graph: Graph, visit: Visitor, root: nat)
    requires forall shown: seq<Block> :: visit(shown) == Ok(false)
    ensures Walk(graph, visit, [root], 0, []).result.Ok? <==> exists depth: nat :: Enumerable(graph, root, depth)
  {
    var depth := WalkFollows(graph, visit, [root], 0, []);
    NeverStops(graph, visit, [root], 0, []);
    var r := Walk(graph, visit, [root], 0, []).result;
    if r.Ok? {
      assert r.value == false && r == Ok(false);
      assert Enumerable(graph, root, depth);
    }
    if d: nat :| Enumerable(graph, root, d) {
      WalkCompletes(graph, visit, [root], 0, [], d);
    }
  }

  lemma {:induction false} NeverStops(graph: Graph, visit: Visitor, pending: seq<nat>, visits: nat, shown: seq<Block>)
    requires visits <= MAX_TREE_VISITS && forall s: seq<Block> :: visit(s) == Ok(false)
    ensures Walk(graph, visit, pending, visits, shown).result != Ok(true)
    decreases MAX_TREE_VISITS - visits
  {
    if pending != [] && visits < MAX_TREE_VISITS {
      match graph(pending[0])
      case Leaf(block) => NeverStops(graph, visit, pending[1..], visits + 1, shown + [block]);
      case Branch(children) =>
        if |pending| - 1 + |children| <= MAX_PENDING_NODES {
          NeverStops(graph, visit, children + pending[1..], visits + 1, shown);
        }
      case Bad(_) =>
    }
  }

  // ------------------------------------------------------------------ the loop

  function Reversed(s: seq<nat>): (r: seq<nat>)
    ensures |r| == |s|
  {
    if s == [] then [] else [s[|s| - 1]] + Reversed(s[..|s| - 1])
  }

  method WalkLeaves(read: Reader, visit: Visitor, root: nat) returns (r: Result<bool, Error>, shown: seq<Block>)
    ensures Walked(r, shown) == Walk(GraphOf(read), visit, [root], 0, [])
  {
    var graph := GraphOf(read);
    var pending := new nat[MAX_PENDING_NODES];
    var count, visits := 1, 0;
    pending[0] := root;
    shown := [];
    ghost var goal := Walk(graph, visit, [root], 0, []);
    assert pending[..1] == [root] && Reversed([root]) == [root];
    while count != 0
      invariant 0 <= count <= MAX_PENDING_NODES && 0 <= visits <= MAX_TREE_VISITS
      invariant Walk(graph, visit, Reversed(pending[..count]), visits, shown) == goal
      decreases MAX_TREE_VISITS - visits
    {
      count := count - 1;
      var logical := pending[count];
      ghost var rest := Reversed(pending[..count]);
      assert pending[..count + 1][..count] == pending[..count];
      assert Reversed(pending[..count + 1]) == [logical] + rest;
      visits := visits + 1;
      if visits > MAX_TREE_VISITS {
        return Err(TreeCorrupt), shown;
      }
      var node := graph(logical);
      match node
      case Bad(e) => return Err(e), shown;
      case Leaf(block) =>
        shown := shown + [block];
        var stop := visit(shown);
        if stop != Ok(false) {
          return stop, shown;
        }
      case Branch(children) =>
        if count + |children| > MAX_PENDING_NODES {
          return Err(UnsupportedFeature), shown;
        }
        count := PushAll(pending, count, children);
    }
    return Ok(false), shown;
  }

  /** Puts the children on the stack, the last one first. */
  method PushAll(pending: array<nat>, count: nat, children: seq<nat>) returns (n: nat)
    requires count + |children| <= pending.Length
    modifies pending
    ensures n == count + |children|
    ensures Reversed(pending[..n]) == children + Reversed(old(pending[..count]))
  {
    n := count;
    var index := |children|;
    ghost var rest := Reversed(pending[..count]);
    while index > 0
      invariant 0 <= index <= |children| && n == count + |children| - index
      invariant Reversed(pending[..n]) == children[index..] + rest
    {
      index := index - 1;
      ghost var before := pending[..n];
      pending[n] := children[index];
      assert pending[..n] == before;
      assert pending[..n + 1][..n] == pending[..n];
      n := n + 1;
      assert children[index..] == [children[index]] + children[index + 1..];
    }
  }
}
