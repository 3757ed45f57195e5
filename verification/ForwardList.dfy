/** The forward list with its sentinels and its intrusive free list, both threaded through one pool of nodes.
    A pointer to a node is its index in the pool; the sentinels follow the pool, NULL is -1. */
module ForwardList {
  import opened NodePool

  const NULL: int := -1

  /** The node at place `i` of the free list. */
  ghost function FreeNode(p: Pool, i: nat): int
    requires i <= |p.free|
  {
    if i == |p.free| then NULL else p.free[i]
  }

  /** The links spell out the pool: from the first sentinel through the active nodes to the second, and from the first
      free node through the others to NULL. */
  ghost predicate Links(next: seq<int>, p: Pool, maxNodeNum: nat) {
    && Partition(p, maxNodeNum) && |next| == maxNodeNum + 2
    && (forall i :: 0 <= i <= |p.active| ==> next[Before(p, maxNodeNum, i)] == At(p, maxNodeNum, i))
    && (forall i :: 0 <= i < |p.free| ==> next[p.free[i]] == FreeNode(p, i + 1))
  }

  /** Linking in the first free node. */
  lemma EmplaceLinks(next: seq<int>, p: Pool, maxNodeNum: nat, pos: nat)
    requires Links(next, p, maxNodeNum) && pos <= |p.active| && p.free != []
    ensures var node := Before(p, maxNodeNum, pos);
            && 0 <= node < |next| && p.free[0] < |next|
            && Links(next[p.free[0] := next[node]][node := p.free[0]], EmplaceAt(p, pos), maxNodeNum)
  {
    EmplacePartition(p, pos, maxNodeNum);
    BeforeIsUnique(p, maxNodeNum, pos);
    var q, node := EmplaceAt(p, pos), Before(p, maxNodeNum, pos);
    var after := next[p.free[0] := next[node]][node := p.free[0]];
    assert |q.active| == |p.active| + 1 && q.free == p.free[1..] && q.free != [] ==> FreeNode(q, 0) == FreeNode(p, 1);
    forall i | 0 <= i <= |q.active| ensures after[Before(q, maxNodeNum, i)] == At(q, maxNodeNum, i) {
      EmplaceNeighbours(p, maxNodeNum, pos, i);
      BeforeIsUnique(p, maxNodeNum, if i <= pos then i else i - 1);
      hide EmplaceAt, Before, At;
    }
    forall i | 0 <= i < |q.free| ensures after[q.free[i]] == FreeNode(q, i + 1) {
      assert q.free[i] == p.free[i + 1];
    }
  }

  /** Unlinking the node after position `pos`, and putting it in front of the free list. */
  lemma EraseLinks(next: seq<int>, p: Pool, maxNodeNum: nat, pos: nat)
    requires Links(next, p, maxNodeNum) && pos < |p.active|
    ensures var node, erased := Before(p, maxNodeNum, pos), p.active[pos];
            && 0 <= node < |next| && erased < |next| && next[node] == erased
            && Links(next[node := next[erased]][erased := FreeNode(p, 0)], EraseAt(p, pos), maxNodeNum)
  {
    ErasePartition(p, pos, maxNodeNum);
    BeforeIsUnique(p, maxNodeNum, pos);
    BeforeIsUnique(p, maxNodeNum, pos + 1);
    var q, node, erased := EraseAt(p, pos), Before(p, maxNodeNum, pos), p.active[pos];
    assert erased == Before(p, maxNodeNum, pos + 1) && next[node] == At(p, maxNodeNum, pos) == erased;
    var after := next[node := next[erased]][erased := FreeNode(p, 0)];
    forall i | 0 <= i <= |q.active| ensures after[Before(q, maxNodeNum, i)] == At(q, maxNodeNum, i) {
      EraseNeighbours(p, maxNodeNum, pos, i);
      BeforeIsUnique(p, maxNodeNum, if i <= pos then i else i + 1);
      hide EraseAt, Before, At;
    }
    forall i | 0 <= i < |q.free| ensures after[q.free[i]] == FreeNode(q, i + 1) {
      assert q.free == [erased] + p.free;
    }
  }

  class FList<T> {
    const maxNodeNum: nat
    const memory: array<T>   // the value part of every node
    const next: array<int>   // the link part of every node, then that of the two sentinels
    var len: nat
    var freeNodeList: int
    ghost var pool: Pool

    function BeforeFirst(): int {
      maxNodeNum
    }

    function AfterLast(): int {
      maxNodeNum + 1
    }

    ghost function FreeAt(i: nat): int
      reads this
      requires i <= |pool.free|
    {
      FreeNode(pool, i)
    }

    ghost predicate Shape()
      reads this
    {
      maxNodeNum > 0 && memory.Length == maxNodeNum && next.Length == maxNodeNum + 2
    }

    /** The arrays are those of the pool, and its links spell it out. */
    ghost predicate Valid()
      reads this, next
    {
      Shape() && Links(next[..], pool, maxNodeNum) && len == |pool.active| && freeNodeList == FreeAt(0)
    }

    /** FL_Init */
    constructor (memory: array<T>)
      requires memory.Length > 0
      ensures Valid() && pool == Fresh(memory.Length) && fresh(next) && this.memory == memory
      ensures maxNodeNum == memory.Length
    {
      this.memory, maxNodeNum := memory, memory.Length;
      next := new int[memory.Length + 2];
      new;
      Clear();
    }

    /** CreateFreeNodeList */
    method CreateFreeNodeList()
      requires Shape()
      modifies next
      ensures forall i :: 0 <= i < maxNodeNum ==> next[i] == if i + 1 < maxNodeNum then i + 1 else NULL
      ensures forall i :: maxNodeNum <= i < next.Length ==> next[i] == old(next[i])
    {
      var prev := 0;
      for i := 1 to maxNodeNum
        invariant prev == i - 1
        invariant forall k :: 0 <= k < prev ==> next[k] == k + 1
        invariant forall k :: maxNodeNum <= k < next.Length ==> next[k] == old(next[k])
      {
        next[prev] := i;
        prev := i;
      }
      next[prev] := NULL;
    }

    /** FL_Clear */
    method Clear()
      requires Shape()
      modifies this, next
      ensures Valid() && pool == Fresh(maxNodeNum)
    {
      len := 0;
      next[BeforeFirst()] := AfterLast();
      freeNodeList := 0;
      CreateFreeNodeList();
      pool := Fresh(maxNodeNum);
      FreshPartition(maxNodeNum);
    }

    /** MallocOneNode: the head of the free list is unlinked; its link is left as it was. */
    method MallocOneNode() returns (node: int)
      requires Valid()
      modifies this`freeNodeList
      ensures node == FreeAt(0)
      ensures pool.free == [] ==> freeNodeList == NULL
      ensures pool.free != [] ==> freeNodeList == FreeAt(1)
    {
      node := freeNodeList;
      if node != NULL {
        freeNodeList := next[node];
      }
    }

    /** FL_EmplaceAfter: a free node is linked in after `node`, which stands before position `pos`. */
    method EmplaceAfter(node: int, ghost pos: nat) returns (n: int)
      requires Valid() && pos <= |pool.active| && node == Before(pool, maxNodeNum, pos)
      modifies this, next
      ensures Valid() && pool == EmplaceAt(old(pool), pos)
      ensures n == old(FreeAt(0))
      ensures n == NULL <==> old(len) == maxNodeNum
    {
      ghost var p, was := pool, next[..];
      LinkAt(pos);
      n := MallocOneNode();
      if n != NULL {
        next[n] := next[node];
        next[node] := n;
        len := len + 1;
        pool := EmplaceAt(p, pos);
        EmplaceLinks(was, p, maxNodeNum, pos);
        assert next[..] == was[n := was[node]][node := n];
        EmplacedSizes(p, pos);
        hide EmplaceAt, Before, Links;
      }
    }

    static lemma EmplacedSizes(p: Pool, pos: nat)
      requires pos <= |p.active| && p.free != []
      ensures |EmplaceAt(p, pos).active| == |p.active| + 1 && EmplaceAt(p, pos).free == p.free[1..]
    {
    }

    /** What the links say at one position. */
    lemma LinkAt(pos: nat)
      requires Valid() && pos <= |pool.active|
      ensures 0 <= Before(pool, maxNodeNum, pos) < next.Length
      ensures next[Before(pool, maxNodeNum, pos)] == At(pool, maxNodeNum, pos)
      ensures pool.free != [] ==> 0 <= pool.free[0] < maxNodeNum && next[pool.free[0]] == FreeAt(1)
      ensures |pool.active| + |pool.free| == maxNodeNum
    {
      assert next[..][Before(pool, maxNodeNum, pos)] == At(pool, maxNodeNum, pos);
    }

    /** FL_EmplaceFront */
    method EmplaceFront() returns (n: int)
      requires Valid()
      modifies this, next
      ensures Valid() && pool == EmplaceAt(old(pool), 0)
      ensures n == old(FreeAt(0))
      ensures n == NULL <==> old(len) == maxNodeNum
    {
      n := EmplaceAfter(BeforeFirst(), 0);
    }

    /** FreeOneNode */
    method FreeOneNode(n: int)
      requires 0 <= n < next.Length
      modifies this`freeNodeList, next
      ensures freeNodeList == n && next[n] == old(freeNodeList)
      ensures forall i :: 0 <= i < next.Length && i != n ==> next[i] == old(next[i])
    {
      next[n] := freeNodeList;
      freeNodeList := n;
    }

    /** FL_EraseAfter, under its own assertion. It unlinks the node after `node` and keeps the list valid exactly if
        there is one; after the last node it would put the end sentinel into the free list. */
    method EraseAfter(node: int, ghost pos: nat) returns (erased: int)
      requires Valid() && len > 0 && node != AfterLast()
      requires pos <= |pool.active| && node == Before(pool, maxNodeNum, pos)
      modifies this, next
      ensures Valid() <==> pos < |old(pool.active)|
      ensures pos < |old(pool.active)| ==> pool == EraseAt(old(pool), pos) && erased == old(pool).active[pos]
      ensures pos == |old(pool.active)| ==> freeNodeList == erased == AfterLast()
    {
      ghost var p, was := pool, next[..];
      LinkAt(pos);
      if pos < |p.active| {
        EraseLinks(was, p, maxNodeNum, pos);
      }
      hide Before, Links, EraseAt;
      len := len - 1;
      erased := next[node];
      next[node] := next[erased];
      FreeOneNode(erased);
      if pos < |p.active| {
        pool := EraseAt(p, pos);
        assert next[..] == was[node := was[erased]][erased := FreeNode(p, 0)];
        ErasedSizes(p, pos);
      }
    }

    static lemma ErasedSizes(p: Pool, pos: nat)
      requires pos < |p.active|
      ensures |EraseAt(p, pos).active| == |p.active| - 1 && EraseAt(p, pos).free == [p.active[pos]] + p.free
    {
    }

    /** FL_Begin */
    method Begin() returns (n: int)
      requires Valid()
      ensures n == At(pool, maxNodeNum, 0)
      ensures n == AfterLast() <==> pool.active == []
    {
      n := next[BeforeFirst()];
      assert Before(pool, maxNodeNum, 0) == BeforeFirst();
    }

    /** it->next, for the node before position `pos` */
    method Next(node: int, ghost pos: nat) returns (n: int)
      requires Valid() && pos <= |pool.active| && node == Before(pool, maxNodeNum, pos)
      ensures n == At(pool, maxNodeNum, pos)
      ensures n == AfterLast() <==> pos == |pool.active|
    {
      n := next[node];
    }

    /** IsValid: walking `len` links from the front ends at the end sentinel. */
    method IsValid() returns (valid: bool)
      requires Valid()
      ensures valid
    {
      var n := Begin();
      if len == 0 {
        return true;
      }
      var left := len;
      while left > 0
        invariant 0 <= left <= len
        invariant n == At(pool, maxNodeNum, len - left)
      {
        assert n == Before(pool, maxNodeNum, len - left + 1);
        n := next[n];
        left := left - 1;
      }
      valid := n == AfterLast();
    }

    /** FL_PushFront */
    method PushFront(value: T) returns (n: int)
      requires Valid()
      modifies this, next, memory
      ensures Valid() && pool == EmplaceAt(old(pool), 0) && n == old(FreeAt(0))
      ensures memory[..] == if n == NULL then old(memory[..]) else old(memory[..])[n := value]
    {
      n := EmplaceFront();
      if n != NULL {
        memory[n] := value;
      }
    }

    /** FL_InsertAfter */
    method InsertAfter(node: int, value: T, ghost pos: nat) returns (n: int)
      requires Valid() && pos <= |pool.active| && node == Before(pool, maxNodeNum, pos)
      modifies this, next, memory
      ensures Valid() && pool == EmplaceAt(old(pool), pos) && n == old(FreeAt(0))
      ensures memory[..] == if n == NULL then old(memory[..]) else old(memory[..])[n := value]
    {
      n := EmplaceAfter(node, pos);
      if n != NULL {
        memory[n] := value;
      }
    }
  }
}
