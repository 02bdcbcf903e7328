/** The free list of LinkedList/FreeList/solution/FreeList.java as a linked structure of FLNode
    objects. Each method follows the Java code statement by statement and is proved to take the
    list from `old(Blocks())` to the state the functions of FreeListSpec describe. */
module FreeLists {
  import opened Runtime
  import opened FreeListSpec

  /** One node of the list: a free block and the link to the next one. */
  class FLNode {
    var startAddress: Int32
    var length: Int32
    var next: FLNode?

    constructor (address: Int32, blockLength: Int32, nextNode: FLNode?)
      ensures startAddress == address && length == blockLength && next == nextNode
    {
      startAddress := address;
      length := blockLength;
      next := nextNode;
    }
  }

  /** The node that should follow position `k` of the chain `ns`: the next one, or null after the last. */
  function NextOf(ns: seq<FLNode>, k: nat): FLNode? {
    if k + 1 < |ns| then ns[k + 1] else null
  }

  /** Each node of `ns` links to the one after it, and the last one to null. */
  ghost predicate Linked(ns: seq<FLNode>)
    reads ns
  {
    forall k {:trigger ns[k].next} :: 0 <= k < |ns| ==> ns[k].next == NextOf(ns, k)
  }

  /** No node occurs twice in `ns`. */
  ghost predicate Distinct(ns: seq<FLNode>) {
    forall k, l :: 0 <= k < l < |ns| ==> ns[k] != ns[l]
  }

  /** Unlinking node `i` through its predecessor leaves a linked chain without it. */
  lemma LinkedRemove(ns: seq<FLNode>, i: int)
    requires 0 < i < |ns|
    requires forall k {:trigger ns[k].next} :: 0 <= k < |ns| && k != i - 1 ==> ns[k].next == NextOf(ns, k)
    requires ns[i - 1].next == NextOf(ns, i)
    ensures Linked(ns[..i] + ns[i + 1..])
  {
    var cut := ns[..i] + ns[i + 1..];
    forall k | 0 <= k < |cut|
      ensures cut[k].next == NextOf(cut, k)
    {
      if k < i - 1 {
        assert cut[k] == ns[k] && cut[k + 1] == ns[k + 1];
        assert ns[k].next == NextOf(ns, k);
      } else if k == i - 1 {
        assert cut[k] == ns[i - 1];
        if k + 1 < |cut| {
          assert cut[k + 1] == ns[i + 1];
        }
      } else {
        assert cut[k] == ns[k + 1];
        assert ns[k + 1].next == NextOf(ns, k + 1);
        if k + 1 < |cut| {
          assert cut[k + 1] == ns[k + 2];
        }
      }
    }
  }

  /** Where the elements of `s` end up when `x` is inserted at position `p`. */
  lemma InsertIndices<T>(s: seq<T>, p: int, x: T)
    requires 0 <= p <= |s|
    ensures |s[..p] + [x] + s[p..]| == |s| + 1 && (s[..p] + [x] + s[p..])[p] == x
    ensures forall k :: 0 <= k < p ==> (s[..p] + [x] + s[p..])[k] == s[k]
    ensures forall k :: p < k <= |s| ==> (s[..p] + [x] + s[p..])[k] == s[k - 1]
  {
  }

  /** Where the elements of `s` end up when element `i` is removed. */
  lemma RemoveIndices<T>(s: seq<T>, i: int)
    requires 0 <= i < |s|
    ensures |s[..i] + s[i + 1..]| == |s| - 1
    ensures forall k :: 0 <= k < i ==> (s[..i] + s[i + 1..])[k] == s[k]
    ensures forall k {:trigger (s[..i] + s[i + 1..])[k]} :: i <= k < |s| - 1 ==> (s[..i] + s[i + 1..])[k] == s[k + 1]
  {
  }

  /** Removing one node keeps the nodes distinct. */
  lemma DistinctRemove(ns: seq<FLNode>, i: int)
    requires 0 <= i < |ns| && Distinct(ns)
    ensures Distinct(ns[..i] + ns[i + 1..])
  {
    var cut := ns[..i] + ns[i + 1..];
    forall k, l | 0 <= k < l < |cut|
      ensures cut[k] != cut[l]
    {
      var k' := if k < i then k else k + 1;
      var l' := if l < i then l else l + 1;
      assert cut[k] == ns[k'] && cut[l] == ns[l'];
    }
  }

  /** Appending a node that is not among `ns` keeps the nodes distinct. */
  lemma DistinctAppend(ns: seq<FLNode>, node: FLNode)
    requires Distinct(ns) && forall k :: 0 <= k < |ns| ==> ns[k] != node
    ensures Distinct(ns + [node])
  {
  }

  /** Adding a node that is not in the chain keeps the nodes distinct. */
  lemma DistinctInsert(ns: seq<FLNode>, p: int, node: FLNode)
    requires 0 <= p <= |ns| && Distinct(ns) && node !in ns
    ensures Distinct(ns[..p] + [node] + ns[p..])
  {
    var e := ns[..p] + [node] + ns[p..];
    forall k, l | 0 <= k < l < |e|
      ensures e[k] != e[l]
    {
      if k == p {
        assert e[l] == ns[l - 1];
      } else if l == p {
        assert e[k] == ns[k];
      } else {
        var k' := if k < p then k else k - 1;
        var l' := if l < p then l else l - 1;
        assert e[k] == ns[k'] && e[l] == ns[l'];
      }
    }
  }

  /** Linking `node` in at position `p` leaves a linked chain with it. */
  lemma LinkedInsert(ns: seq<FLNode>, p: int, node: FLNode)
    requires 0 <= p <= |ns|
    requires forall k {:trigger ns[k].next} :: 0 <= k < |ns| && k != p - 1 ==> ns[k].next == NextOf(ns, k)
    requires p > 0 ==> ns[p - 1].next == node
    requires node.next == (if p < |ns| then ns[p] else null)
    ensures Linked(ns[..p] + [node] + ns[p..])
  {
    var e := ns[..p] + [node] + ns[p..];
    forall k | 0 <= k < |e|
      ensures e[k].next == NextOf(e, k)
    {
      if k < p - 1 {
        assert e[k] == ns[k] && e[k + 1] == ns[k + 1];
        assert ns[k].next == NextOf(ns, k);
      } else if k == p - 1 {
        assert e[k] == ns[p - 1] && e[k + 1] == node;
      } else if k == p {
        assert e[k] == node;
        if k + 1 < |e| {
          assert e[k + 1] == ns[p];
        }
      } else {
        assert e[k] == ns[k - 1];
        assert ns[k - 1].next == NextOf(ns, k - 1);
        if k + 1 < |e| {
          assert e[k + 1] == ns[k];
        }
      }
    }
  }

  /** The state of compact's pass over the chain `ns` of blocks `bs` before node `c`: the nodes
      from `c` on are untouched, `kept` are the nodes that still head a block, in order, distinct,
      linked to each other and disjoint from the untouched part, `done` are the finished blocks of
      all but the last of them, `acc` is the block the last one is growing, and the finished
      blocks followed by the rest of the pass give Compacted(bs). */
  ghost predicate Pass(ns: seq<FLNode>, bs: seq<Block>, c: int, kept: seq<FLNode>, done: seq<Block>, acc: Block, repr: set<object>)
    reads ns, kept
  {
    && |bs| == |ns| && 1 <= c <= |ns|
    && (forall j :: c <= j < |ns| ==> ns[j].startAddress == bs[j].start && ns[j].length == bs[j].length)
    && (forall j {:trigger ns[j].next} :: c <= j < |ns| ==> ns[j].next == NextOf(ns, j))
    && |kept| == |done| + 1 && kept[0] == ns[0]
    && (forall k :: 0 <= k < |kept| ==> kept[k] in repr)
    && (forall k, j :: 0 <= k < |kept| && c <= j < |ns| ==> kept[k] != ns[j])
    && Distinct(kept)
    && (forall k {:trigger kept[k].next} :: 0 <= k < |kept| - 1 ==> kept[k].next == kept[k + 1])
    && (forall k :: 0 <= k < |done| ==> done[k] == Block(kept[k].startAddress, kept[k].length))
    && acc == Block(kept[|kept| - 1].startAddress, kept[|kept| - 1].length)
    && Compacted(bs) == done + CompactFrom(acc, bs[c..])
  }

  /** compact's merge branch, `blockStart.length += curNode.length`: node `c` is absorbed into the
      block the last kept node heads. */
  method Absorb(blockStart: FLNode, curNode: FLNode, ghost ns: seq<FLNode>, ghost bs: seq<Block>, ghost c: int,
                ghost kept: seq<FLNode>, ghost done: seq<Block>, ghost acc: Block, ghost repr: set<object>)
    requires Pass(ns, bs, c, kept, done, acc, repr) && c < |ns|
    requires blockStart == kept[|kept| - 1] && curNode == ns[c] && Contiguous(acc, bs[c])
    modifies blockStart
    ensures Pass(ns, bs, c + 1, kept, done, Merge(acc, bs[c]), repr)
    ensures curNode.next == NextOf(ns, c)
  {
    assert curNode.next == NextOf(ns, c);
    CompactStep(bs, c, done, acc);
    blockStart.length := Wrap32(blockStart.length + curNode.length);
  }

  /** compact's other branch, `blockStart.next = curNode`: node `c` is kept and starts the next
      block, and the block of the previous kept node is finished. */
  method Relink(blockStart: FLNode, curNode: FLNode, ghost ns: seq<FLNode>, ghost bs: seq<Block>, ghost c: int,
                ghost kept: seq<FLNode>, ghost done: seq<Block>, ghost acc: Block, ghost repr: set<object>)
    requires Pass(ns, bs, c, kept, done, acc, repr) && c < |ns| && ns[c] in repr && Distinct(ns)
    requires blockStart == kept[|kept| - 1] && curNode == ns[c] && !Contiguous(acc, bs[c])
    modifies blockStart
    ensures Pass(ns, bs, c + 1, kept + [curNode], done + [acc], bs[c], repr)
    ensures curNode.next == NextOf(ns, c)
  {
    assert curNode.next == NextOf(ns, c);
    CompactStep(bs, c, done, acc);
    DistinctAppend(kept, curNode);
    blockStart.next := curNode;
  }

  class FreeList {
    var first: FLNode?
    var size: int
    var sizeBytes: Int32

    /** The nodes reachable from `first`, in list order. */
    ghost var nodes: seq<FLNode>
    /** The blocks those nodes hold, in the same order. */
    ghost var blocks: seq<Block>
    /** Every object the list uses. */
    ghost var Repr: set<object>

    /** The chain from `first` is exactly `nodes`, without repetitions, node `k` holds block `k` of
        `blocks`, and the address space is not empty. */
    ghost predicate Valid()
      reads this`first, this`nodes, this`blocks, this`Repr, this`sizeBytes, nodes
    {
      && this in Repr
      && (forall k :: 0 <= k < |nodes| ==> nodes[k] in Repr)
      && first == (if nodes == [] then null else nodes[0])
      && Linked(nodes) && Distinct(nodes)
      && |blocks| == |nodes|
      && (forall k :: 0 <= k < |nodes| ==> nodes[k].startAddress == blocks[k].start && nodes[k].length == blocks[k].length)
      && 0 < sizeBytes
    }

    /** The list of a `numBytes`-byte space with all of it free. */
    constructor (numBytes: Int32)
      requires numBytes > 0
      ensures Valid() && fresh(Repr)
      ensures blocks == [Block(0, numBytes)] && size == 1 && sizeBytes == numBytes
    {
      var node := new FLNode(0, numBytes, null);
      first := node;
      size := 1;
      sizeBytes := numBytes;
      nodes := [node];
      blocks := [Block(0, numBytes)];
      Repr := {this, node};
    }

    /** `new FreeList(numBytes)`: throws IllegalArgumentException when `numBytes <= 0`. */
    static method Create(numBytes: Int32) returns (r: Result<FreeList>)
      ensures r.Err? <==> numBytes <= 0
      ensures r.Err? ==> r.error == IllegalArgument
      ensures r.Ok? ==> var l := r.value;
        && fresh(l.Repr) && l.Valid()
        && l.blocks == [Block(0, numBytes)] && l.size == 1 && l.sizeBytes == numBytes
    {
      if numBytes <= 0 {
        return Err(IllegalArgument);
      }
      var l := new FreeList(numBytes);
      return Ok(l);
    }

    /** The first-fit scan of `allocate`: it stops at the first block of at least `numBytes`
        bytes (or runs off the end), and also yields the node before that one. */
    method FindFit(numBytes: Int32) returns (prevNode: FLNode?, freeNode: FLNode?, ghost i: nat)
      requires Valid()
      ensures i == FirstFit(blocks, numBytes)
      ensures freeNode == (if i < |nodes| then nodes[i] else null)
      ensures prevNode == (if i > 0 then nodes[i - 1] else null)
    {
      prevNode := null;
      freeNode := first;
      i := 0;
      while freeNode != null && freeNode.length < numBytes
        invariant 0 <= i <= |nodes|
        invariant freeNode == if i < |nodes| then nodes[i] else null
        invariant prevNode == if i > 0 then nodes[i - 1] else null
        invariant forall j :: 0 <= j < i ==> blocks[j].length < numBytes
        decreases |nodes| - i
      {
        assert nodes[i].next == NextOf(nodes, i);
        prevNode := freeNode;
        freeNode := freeNode.next;
        i := i + 1;
      }
      FirstFitIs(blocks, numBytes, i);
    }

    /** `prevNode.next = freeNode.next`: the node after `prevNode` leaves the chain. */
    method Unlink(prevNode: FLNode, freeNode: FLNode, ghost i: nat)
      requires Valid() && 0 < i < |nodes| && prevNode == nodes[i - 1] && freeNode == nodes[i]
      modifies this, prevNode
      ensures Valid() && Repr == old(Repr)
      ensures nodes == old(nodes[..i] + nodes[i + 1..]) && blocks == old(blocks[..i] + blocks[i + 1..])
      ensures first == old(first) && size == old(size) && sizeBytes == old(sizeBytes)
    {
      ghost var ns := nodes;
      ghost var bs := blocks;
      assert freeNode.next == NextOf(ns, i);
      prevNode.next := freeNode.next;
      LinkedRemove(ns, i);
      DistinctRemove(ns, i);
      RemoveIndices(ns, i);
      RemoveIndices(bs, i);
      nodes := ns[..i] + ns[i + 1..];
      blocks := bs[..i] + bs[i + 1..];
    }

    /** `first = null`: the chain becomes empty. */
    method Clear()
      requires Valid()
      modifies this
      ensures Valid() && Repr == old(Repr) && nodes == [] && blocks == []
      ensures size == old(size) && sizeBytes == old(sizeBytes)
    {
      first := null;
      nodes := [];
      blocks := [];
    }

    /** `allocate(numBytes)`: first-fit allocation, with the list and `size` changed as
        FreeListSpec.Allocate describes. */
    method Allocate(numBytes: Int32) returns (r: Result<int>)
      requires Valid()
      modifies Repr
      ensures Valid() && Repr == old(Repr) && sizeBytes == old(sizeBytes)
      ensures Step(r, blocks, size) == FreeListSpec.Allocate(old(blocks), old(size), numBytes)
    {
      if numBytes <= 0 {
        return Err(IllegalArgument);
      }
      var prevNode, freeNode, i := FindFit(numBytes);
      AllocateAt(blocks, size, numBytes, i);
      if freeNode == null {
        return Err(NoSuchElement);
      }
      var start := freeNode.startAddress;
      if freeNode.length == numBytes {
        TakeWhole(prevNode, freeNode, i);
        return Ok(start);
      }
      Shrink(freeNode, i, numBytes);
      return Ok(start);
    }

    /** The exact fit of `allocate`: the node leaves the chain unless it is the first one, `size`
        falls by one, and the chain is emptied when `size` reaches zero. */
    method TakeWhole(prevNode: FLNode?, freeNode: FLNode, ghost i: nat)
      requires Valid() && i < |nodes| && freeNode == nodes[i]
      requires prevNode == if i > 0 then nodes[i - 1] else null
      modifies this, Repr
      ensures Valid() && Repr == old(Repr) && sizeBytes == old(sizeBytes) && size == old(size) - 1
      ensures blocks == if old(size) - 1 == 0 then [] else if i > 0 then old(blocks[..i] + blocks[i + 1..]) else old(blocks)
    {
      if prevNode != null {
        Unlink(prevNode, freeNode, i);
      }
      size := size - 1;
      if size == 0 {
        Clear();
      }
    }

    /** `freeNode.startAddress += numBytes; freeNode.length -= numBytes`, in Java `int`
        arithmetic: the front of the block is handed out. */
    method Shrink(freeNode: FLNode, ghost i: nat, numBytes: Int32)
      requires Valid() && i < |nodes| && freeNode == nodes[i] && 0 < numBytes < blocks[i].length
      modifies this, freeNode
      ensures Valid() && Repr == old(Repr) && nodes == old(nodes)
      ensures blocks == old(blocks[i := Block(Wrap32(blocks[i].start + numBytes), blocks[i].length - numBytes)])
      ensures first == old(first) && size == old(size) && sizeBytes == old(sizeBytes)
    {
      freeNode.startAddress := Wrap32(freeNode.startAddress + numBytes);
      freeNode.length := freeNode.length - numBytes;
      blocks := blocks[i := Block(freeNode.startAddress, freeNode.length)];
      assert Linked(nodes);
    }

    /** The scan of `free`: it stops at the first block that does not start below `startAddress`
        (or runs off the end), and also yields the node before that one. */
    method FindInsertionPoint(startAddress: Int32) returns (prevNode: FLNode?, nextNode: FLNode?, ghost p: nat)
      requires Valid()
      ensures p == InsertionPoint(blocks, startAddress)
      ensures nextNode == (if p < |nodes| then nodes[p] else null)
      ensures prevNode == (if p > 0 then nodes[p - 1] else null)
    {
      prevNode := null;
      nextNode := first;
      p := 0;
      while nextNode != null && nextNode.startAddress < startAddress
        invariant 0 <= p <= |nodes|
        invariant nextNode == if p < |nodes| then nodes[p] else null
        invariant prevNode == if p > 0 then nodes[p - 1] else null
        invariant forall j :: 0 <= j < p ==> blocks[j].start < startAddress
        decreases |nodes| - p
      {
        assert nodes[p].next == NextOf(nodes, p);
        prevNode := nextNode;
        nextNode := nextNode.next;
        p := p + 1;
      }
      InsertionPointIs(blocks, startAddress, p);
    }

    /** `free(startAddress, numBytes)`: a sorted insertion of one new node, with the list and `size`
        changed as FreeListSpec.Free describes. */
    method Free(startAddress: Int32, numBytes: Int32) returns (r: Result<()>)
      requires Valid()
      modifies Repr
      ensures Valid() && fresh(Repr - old(Repr)) && sizeBytes == old(sizeBytes)
      ensures Step(r, blocks, size) == FreeListSpec.Free(old(blocks), old(size), sizeBytes, startAddress, numBytes)
    {
      if numBytes <= 0 {
        return Err(IllegalArgument);
      }
      if startAddress < 0 || Wrap32(startAddress + numBytes) > sizeBytes {
        return Err(IllegalArgument);
      }
      var prevNode, nextNode, p := FindInsertionPoint(startAddress);
      if nextNode != null && Wrap32(startAddress + numBytes) > nextNode.startAddress {
        return Err(IllegalArgument);
      }
      FreeSucceedsAt(blocks, size, sizeBytes, startAddress, numBytes, p);
      LinkIn(prevNode, nextNode, p, startAddress, numBytes);
      return Ok(());
    }

    /** The insertion of `free`: a new node for the block goes between `prevNode` (or the head)
        and `nextNode`, and `size` grows by one. */
    method LinkIn(prevNode: FLNode?, nextNode: FLNode?, ghost p: nat, startAddress: Int32, numBytes: Int32)
      requires Valid() && p <= |nodes|
      requires nextNode == (if p < |nodes| then nodes[p] else null)
      requires prevNode == (if p > 0 then nodes[p - 1] else null)
      modifies this, Repr
      ensures Valid() && fresh(Repr - old(Repr)) && sizeBytes == old(sizeBytes) && size == old(size) + 1
      ensures blocks == old(blocks[..p] + [Block(startAddress, numBytes)] + blocks[p..])
    {
      ghost var ns := nodes;
      ghost var bs := blocks;
      var node := Splice(prevNode, nextNode, p, startAddress, numBytes);
      DistinctInsert(ns, p, node);
      InsertIndices(ns, p, node);
      InsertIndices(bs, p, Block(startAddress, numBytes));
      nodes := ns[..p] + [node] + ns[p..];
      blocks := bs[..p] + [Block(startAddress, numBytes)] + bs[p..];
      Repr := Repr + {node};
      size := size + 1;
    }

    /** The pointer updates of the insertion: a fresh node linked in at position `p` of the chain,
        from the head when `p` is 0 and from `prevNode` otherwise. */
    method Splice(prevNode: FLNode?, nextNode: FLNode?, ghost p: nat, startAddress: Int32, numBytes: Int32)
      returns (node: FLNode)
      requires Valid() && p <= |nodes|
      requires nextNode == (if p < |nodes| then nodes[p] else null)
      requires prevNode == (if p > 0 then nodes[p - 1] else null)
      modifies this`first, prevNode
      ensures fresh(node) && node.startAddress == startAddress && node.length == numBytes
      ensures Linked(nodes[..p] + [node] + nodes[p..])
      ensures first == (nodes[..p] + [node] + nodes[p..])[0]
      ensures prevNode != null ==> prevNode.startAddress == old(prevNode.startAddress) && prevNode.length == old(prevNode.length)
    {
      node := new FLNode(startAddress, numBytes, nextNode);
      if prevNode == null {
        first := node;
      } else {
        prevNode.next := node;
      }
      LinkedInsert(nodes, p, node);
    }

    /** `compact()`: one pass that absorbs every block into the block before it when the two are
        contiguous, so the list becomes FreeListSpec.Compacted of the old one and `size` falls by
        the number of blocks absorbed. */
    method Compact()
      requires Valid()
      modifies Repr
      ensures Valid() && Repr == old(Repr) && sizeBytes == old(sizeBytes)
      ensures blocks == Compacted(old(blocks))
      ensures size == old(size) - (|old(blocks)| - |blocks|)
    {
      if first == null {
        return;
      }
      var blockStart, kept, done := MergeRuns();
      assert blocks[|blocks|..] == [];
      blockStart.next := null;
      nodes := kept;
      blocks := done + [Block(blockStart.startAddress, blockStart.length)];
    }

    /** One iteration of compact's loop: absorb `curNode` into the block `blockStart` heads when the
        two are contiguous (one block fewer), and otherwise link `curNode` after `blockStart` and
        continue from it. */
    method MergeStep(blockStart: FLNode, curNode: FLNode, ghost ns: seq<FLNode>, ghost bs: seq<Block>, ghost c: int,
                     ghost kept: seq<FLNode>, ghost done: seq<Block>, ghost acc: Block)
      returns (nextStart: FLNode, ghost kept': seq<FLNode>, ghost done': seq<Block>, ghost acc': Block)
      requires Pass(ns, bs, c, kept, done, acc, Repr) && Distinct(ns) && c < |ns| && ns[c] in Repr
      requires blockStart == kept[|kept| - 1] && curNode == ns[c]
      modifies this`size, blockStart
      ensures Pass(ns, bs, c + 1, kept', done', acc', Repr) && nextStart == kept'[|kept'| - 1]
      ensures size == old(size) - (|kept| + 1 - |kept'|)
      ensures curNode.next == NextOf(ns, c)
    {
      if Wrap32(blockStart.startAddress + blockStart.length) == curNode.startAddress {
        Absorb(blockStart, curNode, ns, bs, c, kept, done, acc, Repr);
        size := size - 1;
        nextStart, kept', done', acc' := blockStart, kept, done, Merge(acc, bs[c]);
      } else {
        Relink(blockStart, curNode, ns, bs, c, kept, done, acc, Repr);
        nextStart, kept', done', acc' := curNode, kept + [curNode], done + [acc], bs[c];
      }
    }

    /** The loop of `compact`: `blockStart` is the block being grown and `curNode` walks the rest of
        the chain. On exit the nodes `kept` still head a block each (`blockStart` last), linked in
        order, and `done` are the finished blocks before `blockStart`. */
    method MergeRuns() returns (blockStart: FLNode, ghost kept: seq<FLNode>, ghost done: seq<Block>)
      requires Valid() && first != null
      modifies Repr
      ensures nodes == old(nodes) && blocks == old(blocks) && Repr == old(Repr)
      ensures first == old(first) && sizeBytes == old(sizeBytes)
      ensures Pass(nodes, blocks, |nodes|, kept, done, Block(blockStart.startAddress, blockStart.length), Repr)
      ensures blockStart == kept[|kept| - 1]
      ensures size == old(size) - (|blocks| - |kept|)
    {
      ghost var bs := blocks;
      ghost var ns := nodes;
      assert first.next == NextOf(ns, 0);
      blockStart := first;
      var curNode := first.next;
      ghost var c := 1;
      ghost var acc := bs[0];
      kept := [blockStart];
      done := [];
      while curNode != null
        invariant nodes == ns && blocks == bs && Repr == old(Repr) && sizeBytes == old(sizeBytes) && first == ns[0]
        invariant Distinct(ns) && forall j :: 0 <= j < |ns| ==> ns[j] in Repr
        invariant Pass(ns, bs, c, kept, done, acc, Repr)
        invariant curNode == (if c < |ns| then ns[c] else null) && blockStart == kept[|kept| - 1]
        invariant size == old(size) - (c - |kept|)
        decreases |ns| - c
      {
        blockStart, kept, done, acc := MergeStep(blockStart, curNode, ns, bs, c, kept, done, acc);
        curNode := curNode.next;
        c := c + 1;
      }
    }
  }
}
