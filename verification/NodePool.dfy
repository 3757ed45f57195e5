/** The abstract state of the forward list: which pool nodes are in the list, in order, and which are free, most
    recently freed first. */
module NodePool {
  datatype Pool = Pool(active: seq<nat>, free: seq<nat>)

  ghost predicate Distinct(s: seq<nat>) {
    forall i, j :: 0 <= i < j < |s| ==> s[i] != s[j]
  }

  /** The two chains partition the pool's nodes: no node twice, in one chain or in both, and as many as there are. */
  ghost predicate Partition(p: Pool, maxNodeNum: nat) {
    && Distinct(p.active) && Distinct(p.free)
    && (forall i :: 0 <= i < |p.active| ==> p.active[i] < maxNodeNum)
    && (forall i :: 0 <= i < |p.free| ==> p.free[i] < maxNodeNum)
    && (forall i, j :: 0 <= i < |p.active| && 0 <= j < |p.free| ==> p.active[i] != p.free[j])
    && |p.active| + |p.free| == maxNodeNum
  }

  function Fresh(maxNodeNum: nat): Pool {
    Pool([], seq(maxNodeNum, i => i))
  }

  /** A node is taken from the free list and becomes the `pos`-th of the list; without free nodes nothing happens. */
  function EmplaceAt(p: Pool, pos: nat): Pool
    requires pos <= |p.active|
  {
    if p.free == [] then p
    else Pool(p.active[..pos] + [p.free[0]] + p.active[pos..], p.free[1..])
  }

  /** The `pos`-th node leaves the list and is the next one to be handed out. */
  function EraseAt(p: Pool, pos: nat): Pool
    requires pos < |p.active|
  {
    Pool(p.active[..pos] + p.active[pos + 1..], [p.active[pos]] + p.free)
  }

  /** The node after which the `pos`-th node stands; the sentinel before the first node has index maxNodeNum. */
  function Before(p: Pool, maxNodeNum: nat, pos: nat): int
    requires pos <= |p.active|
  {
    if pos == 0 then maxNodeNum else p.active[pos - 1]
  }

  /** The `pos`-th node, or the sentinel after the last one, of index maxNodeNum + 1. */
  function At(p: Pool, maxNodeNum: nat, pos: nat): int
    requires pos <= |p.active|
  {
    if pos == |p.active| then maxNodeNum + 1 else p.active[pos]
  }

  lemma EmplaceNeighbours(p: Pool, maxNodeNum: nat, pos: nat, i: nat)
    requires pos <= |p.active| && p.free != [] && i <= |p.active| + 1
    ensures var q := EmplaceAt(p, pos);
            && Before(q, maxNodeNum, i) ==
                 (if i <= pos then Before(p, maxNodeNum, i)
                  else if i == pos + 1 then p.free[0] else Before(p, maxNodeNum, i - 1))
            && At(q, maxNodeNum, i) ==
                 (if i < pos then At(p, maxNodeNum, i)
                  else if i == pos then p.free[0] else At(p, maxNodeNum, i - 1))
  {
  }

  lemma EraseNeighbours(p: Pool, maxNodeNum: nat, pos: nat, i: nat)
    requires pos < |p.active| && i < |p.active|
    ensures var q := EraseAt(p, pos);
            && Before(q, maxNodeNum, i) == Before(p, maxNodeNum, if i <= pos then i else i + 1)
            && At(q, maxNodeNum, i) == At(p, maxNodeNum, if i < pos then i else i + 1)
  {
  }

  lemma EmplaceAtEnd(p: Pool)
    ensures p.free != [] ==> EmplaceAt(p, |p.active|) == Pool(p.active + [p.free[0]], p.free[1..])
  {
    assert p.active[..|p.active|] == p.active;
    assert p.active[|p.active|..] == [];
  }

  lemma BeforeIsUnique(p: Pool, maxNodeNum: nat, i: nat)
    requires Partition(p, maxNodeNum) && i <= |p.active|
    ensures 0 <= Before(p, maxNodeNum, i) <= maxNodeNum
    ensures forall j :: 0 <= j <= |p.active| && j != i ==> Before(p, maxNodeNum, j) != Before(p, maxNodeNum, i)
    ensures forall j :: 0 <= j < |p.free| ==> p.free[j] != Before(p, maxNodeNum, i)
  {
  }

  lemma FreshPartition(maxNodeNum: nat)
    ensures Partition(Fresh(maxNodeNum), maxNodeNum)
  {
  }

  lemma EmplacePartition(p: Pool, pos: nat, maxNodeNum: nat)
    requires Partition(p, maxNodeNum) && pos <= |p.active|
    ensures Partition(EmplaceAt(p, pos), maxNodeNum)
  {
    if p.free != [] {
      var q := EmplaceAt(p, pos);
      assert forall i :: 0 <= i < |q.active| ==>
        q.active[i] == if i < pos then p.active[i] else if i == pos then p.free[0] else p.active[i - 1];
      assert forall i :: 0 <= i < |q.free| ==> q.free[i] == p.free[i + 1];
    }
  }

  lemma ErasePartition(p: Pool, pos: nat, maxNodeNum: nat)
    requires Partition(p, maxNodeNum) && pos < |p.active|
    ensures Partition(EraseAt(p, pos), maxNodeNum)
  {
    var q := EraseAt(p, pos);
    assert forall i :: 0 <= i < |q.active| ==> q.active[i] == if i < pos then p.active[i] else p.active[i + 1];
    assert forall i :: 0 <= i < |q.free| ==> q.free[i] == if i == 0 then p.active[pos] else p.free[i - 1];
  }

  // ---- Runs ----

  datatype Op = Emplace(pos: nat) | Erase(pos: nat) | Clear

  /** What the operations demand of their callers: a position in the list. */
  predicate Enabled(p: Pool, op: Op) {
    match op
    case Emplace(pos) => pos <= |p.active|
    case Erase(pos) => pos < |p.active|
    case Clear => true
  }

  function Apply(p: Pool, op: Op, maxNodeNum: nat): Pool
    requires Enabled(p, op)
  {
    match op
    case Emplace(pos) => EmplaceAt(p, pos)
    case Erase(pos) => EraseAt(p, pos)
    case Clear => Fresh(maxNodeNum)
  }

  predicate Runnable(p: Pool, ops: seq<Op>, maxNodeNum: nat)
    decreases |ops|
  {
    ops != [] ==> Enabled(p, ops[0]) && Runnable(Apply(p, ops[0], maxNodeNum), ops[1..], maxNodeNum)
  }

  function Run(p: Pool, ops: seq<Op>, maxNodeNum: nat): Pool
    requires Runnable(p, ops, maxNodeNum)
    decreases |ops|
  {
    if ops == [] then p else Run(Apply(p, ops[0], maxNodeNum), ops[1..], maxNodeNum)
  }

  /** Over every sequence of operations the active and the free chain partition the pool. */
  lemma {:induction false} RunKeepsPartition(p: Pool, ops: seq<Op>, maxNodeNum: nat)
    requires Partition(p, maxNodeNum) && Runnable(p, ops, maxNodeNum)
    ensures Partition(Run(p, ops, maxNodeNum), maxNodeNum)
    decreases |ops|
  {
    hide Partition, EmplaceAt, EraseAt, Fresh;
    if ops != [] {
      match ops[0] {
        case Emplace(pos) => EmplacePartition(p, pos, maxNodeNum);
        case Erase(pos) => ErasePartition(p, pos, maxNodeNum);
        case Clear => FreshPartition(maxNodeNum);
      }
      RunKeepsPartition(Apply(p, ops[0], maxNodeNum), ops[1..], maxNodeNum);
    }
  }

  ghost function Members(s: seq<nat>): set<nat> {
    set n | n in s
  }

  /** A duplicate-free sequence has as many members as it is long. */
  lemma {:induction false} DistinctSize(s: seq<nat>)
    requires Distinct(s)
    ensures |Members(s)| == |s|
    decreases |s|
  {
    var all := Members(s);
    if s == [] {
      assert all == {};
    } else {
      var rest := Members(s[1..]);
      DistinctSize(s[1..]);
      assert s == [s[0]] + s[1..];
      assert all == {s[0]} + rest;
      assert s[0] !in rest;
    }
  }

  /** The indices of a pool of `n` nodes. */
  ghost function Range(n: nat): (r: set<nat>)
    ensures forall k: nat :: k in r <==> k < n
    ensures |r| == n
  {
    if n == 0 then {} else Range(n - 1) + {n - 1}
  }

  /** Every node of the pool is in the list or free: none is ever lost. */
  lemma EveryNodeAccounted(p: Pool, maxNodeNum: nat, node: nat)
    requires Partition(p, maxNodeNum) && node < maxNodeNum
    ensures node in p.active <==> node !in p.free
  {
    var all := Range(maxNodeNum);
    var a := Members(p.active);
    var f := Members(p.free);
    DistinctSize(p.active);
    DistinctSize(p.free);
    assert a !! f && a + f <= all;
    assert |a + f| == |a| + |f|;
    if node !in p.active && node !in p.free {
      SubsetSize(a + f, all - {node});
    }
  }

  lemma {:induction false} SubsetSize(a: set<nat>, b: set<nat>)
    requires a <= b
    ensures |a| <= |b|
    decreases a
  {
    if a != {} {
      var x :| x in a;
      SubsetSize(a - {x}, b - {x});
    }
  }

  /** Emplacing fails exactly when all nodes are in the list. */
  lemma EmplaceFailsOnlyWhenFull(p: Pool, maxNodeNum: nat, pos: nat)
    requires Partition(p, maxNodeNum) && pos <= |p.active|
    ensures EmplaceAt(p, pos) == p <==> |p.active| == maxNodeNum
    ensures |p.active| < maxNodeNum ==> |EmplaceAt(p, pos).active| == |p.active| + 1
  {
  }

  /** An erased node is the next one to be handed out, so a pair of erase and emplace at one place changes nothing;
      nor does emplacing a node and erasing it again. */
  lemma EraseEmplaceUndo(p: Pool, pos: nat)
    ensures pos < |p.active| ==> EmplaceAt(EraseAt(p, pos), pos) == p
    ensures pos <= |p.active| && p.free != [] ==> EraseAt(EmplaceAt(p, pos), pos) == p
  {
    if pos < |p.active| {
      assert p.active == p.active[..pos] + [p.active[pos]] + p.active[pos + 1..];
      assert EraseAt(p, pos).active[..pos] == p.active[..pos];
      assert EraseAt(p, pos).active[pos..] == p.active[pos + 1..];
      assert EraseAt(p, pos).free[1..] == p.free;
    }
    if pos <= |p.active| && p.free != [] {
      var q := EmplaceAt(p, pos);
      assert q.active[..pos] == p.active[..pos] && q.active[pos + 1..] == p.active[pos..];
      assert p.active[..pos] + p.active[pos..] == p.active;
      assert [p.free[0]] + p.free[1..] == p.free;
    }
  }
}
