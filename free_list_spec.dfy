/** The free list of LinkedList/FreeList/solution/FreeList.java viewed as a value: the sequence of
    (startAddress, length) blocks reachable from `first`, together with the `size` counter. Each
    operation of the class is given here as a function from the old state to the new one, and the
    properties the source promises are lemmas about those functions. */
module FreeListSpec {
  import opened Runtime

  /** One free block, as an FLNode holds it. */
  datatype Block = Block(start: int, length: int) {
    /** The first address after the block. */
    function End(): int { start + length }
  }

  /** What a call returned or threw, and the blocks and `size` it leaves behind. */
  datatype Step<+T> = Step(result: Result<T>, blocks: seq<Block>, size: int)

  /** The list invariant: every block is non-empty and inside [0, sizeBytes), and the blocks are in
      ascending address order without overlapping. */
  ghost predicate WellFormed(bs: seq<Block>, sizeBytes: int) {
    && (forall i :: 0 <= i < |bs| ==> 0 <= bs[i].start && 0 < bs[i].length && bs[i].End() <= sizeBytes)
    && (forall i, j :: 0 <= i < j < |bs| ==> bs[i].End() <= bs[j].start)
  }

  /** Address `a` is free according to the list. */
  ghost predicate Covers(bs: seq<Block>, a: int) {
    bs != [] && (bs[0].start <= a < bs[0].End() || Covers(bs[1..], a))
  }

  /** The block lies in [0, Integer.MAX_VALUE], so the `int` sum of its start and length does not
      wrap. */
  predicate Fits(b: Block) {
    0 <= b.start && 0 <= b.length && b.End() <= INT_MAX
  }

  /** Every block fits. */
  ghost predicate FitsInt(bs: seq<Block>) {
    forall i :: 0 <= i < |bs| ==> Fits(bs[i])
  }

  /** A well-formed list of an address space no larger than Integer.MAX_VALUE fits. */
  lemma WellFormedFits(bs: seq<Block>, sizeBytes: int)
    requires WellFormed(bs, sizeBytes) && sizeBytes <= INT_MAX
    ensures FitsInt(bs)
  {
  }

  /** Block `k` of a well-formed list ends at least `k + 1` bytes into the space: each block holds
      a byte and starts where or after its predecessor ends. */
  lemma {:induction false} EndsAtLeast(bs: seq<Block>, sizeBytes: int, k: nat)
    requires WellFormed(bs, sizeBytes) && k < |bs|
    ensures bs[k].End() >= k + 1
  {
    if k > 0 {
      EndsAtLeast(bs, sizeBytes, k - 1);
      assert bs[k - 1].End() <= bs[k].start;
    }
  }

  /** A well-formed list has no more blocks than the space has bytes, so a `size` that counts the
      blocks of a list over a space of at most Integer.MAX_VALUE bytes is a Java `int`. */
  lemma BlockCountBound(bs: seq<Block>, sizeBytes: int)
    requires WellFormed(bs, sizeBytes)
    ensures bs == [] || |bs| <= sizeBytes
    ensures sizeBytes <= INT_MAX ==> |bs| <= INT_MAX
  {
    if bs != [] {
      EndsAtLeast(bs, sizeBytes, |bs| - 1);
    }
  }

  /** The blocks `a` and `b` are contiguous: `a` ends where `b` starts, with the end computed in
      Java `int` arithmetic. */
  predicate Contiguous(a: Block, b: Block) {
    Wrap32(a.start + a.length) == b.start
  }

  /** No block is contiguous with the block after it. */
  ghost predicate NoContiguousPair(bs: seq<Block>) {
    forall i :: 0 <= i < |bs| - 1 ==> !Contiguous(bs[i], bs[i + 1])
  }

  /** The number of free bytes the list records. */
  function TotalLength(bs: seq<Block>): int {
    if bs == [] then 0 else bs[0].length + TotalLength(bs[1..])
  }

  // ---------------------------------------------------------------------------------------------
  // allocate

  /** The index the first-fit scan of `allocate` stops at: the first block of at least `n` bytes,
      or |bs| when there is none. */
  function FirstFit(bs: seq<Block>, n: int): (i: nat)
    ensures i <= |bs|
    ensures i < |bs| ==> bs[i].length >= n
    ensures forall j :: 0 <= j < i ==> bs[j].length < n
  {
    if bs == [] then 0
    else if bs[0].length >= n then 0
    else 1 + FirstFit(bs[1..], n)
  }

  /** The first-fit scan stops at `i` when every block before `i` is too small and block `i`, if
      any, is not. */
  lemma FirstFitIs(bs: seq<Block>, n: int, i: int)
    requires 0 <= i <= |bs|
    requires forall j :: 0 <= j < i ==> bs[j].length < n
    requires i < |bs| ==> bs[i].length >= n
    ensures FirstFit(bs, n) == i
  {
  }

  /** `allocate(n)` as the code is written. On an exact fit the block is unlinked only through its
      predecessor, so an exact fit at the head leaves the list as it was; `size` is decremented
      either way, and `first` is cleared when `size` reaches 0. A larger block has its start
      advanced by `n` in `int` arithmetic. */
  function Allocate(bs: seq<Block>, size: int, n: int): Step<int> {
    if n <= 0 then Step(Err(IllegalArgument), bs, size)
    else
      var i := FirstFit(bs, n);
      if i == |bs| then Step(Err(NoSuchElement), bs, size)
      else if bs[i].length == n then
        var unlinked := if i > 0 then bs[..i] + bs[i + 1..] else bs;
        Step(Ok(bs[i].start), if size - 1 == 0 then [] else unlinked, size - 1)
      else
        Step(Ok(bs[i].start), bs[i := Block(Wrap32(bs[i].start + n), bs[i].length - n)], size)
  }

  /** The exact fit that meets the head-removal defect: the first block fits exactly and other
      blocks remain. */
  predicate HeadExactFit(bs: seq<Block>, size: int, n: int) {
    n > 0 && |bs| > 0 && FirstFit(bs, n) == 0 && bs[0].length == n && size != 1
  }

  lemma AllocateOutcome(bs: seq<Block>, size: int, n: int)
    ensures var r := Allocate(bs, size, n);
      && (r.result == Err(IllegalArgument) <==> n <= 0)
      && (r.result == Err(NoSuchElement) <==> n > 0 && forall j :: 0 <= j < |bs| ==> bs[j].length < n)
      && (r.result.Err? ==> r.blocks == bs && r.size == size)
  {
    var i := FirstFit(bs, n);
    if n > 0 && i < |bs| {
      assert bs[i].length >= n;
    }
  }

  /** A successful allocation returns the start of the first block that is large enough, and the
      blocks before it are left as they were. */
  lemma AllocateIsFirstFit(bs: seq<Block>, size: int, n: int)
    requires Allocate(bs, size, n).result.Ok?
    ensures var r := Allocate(bs, size, n);
      exists i :: && 0 <= i < |bs| && bs[i].length >= n
                  && (forall j :: 0 <= j < i ==> bs[j].length < n)
                  && r.result.value == bs[i].start
                  && (r.blocks != [] ==> |r.blocks| >= i && r.blocks[..i] == bs[..i])
  {
    var i := FirstFit(bs, n);
    var r := Allocate(bs, size, n);
    if r.blocks != [] && bs[i].length == n && i > 0 {
      assert r.blocks[..i] == bs[..i];
    }
  }

  /** A larger block is shrunk in place and `size` is unchanged. */
  lemma AllocateSplits(bs: seq<Block>, size: int, n: int)
    requires n > 0
    requires FirstFit(bs, n) < |bs| && bs[FirstFit(bs, n)].length > n
    requires Fits(bs[FirstFit(bs, n)])
    ensures var i := FirstFit(bs, n); var r := Allocate(bs, size, n);
      && r.result == Ok(bs[i].start) && r.size == size && |r.blocks| == |bs|
      && r.blocks[i] == Block(bs[i].start + n, bs[i].length - n)
      && forall j :: 0 <= j < |bs| && j != i ==> r.blocks[j] == bs[j]
  {
  }

  /** An exact fit on an accurate list removes the block and decrements `size`, except at the head
      of a list with more than one block, where the block stays and `size` falls behind. */
  lemma AllocateExactFit(bs: seq<Block>, n: int)
    requires n > 0
    requires FirstFit(bs, n) < |bs| && bs[FirstFit(bs, n)].length == n
    ensures var i := FirstFit(bs, n); var r := Allocate(bs, |bs|, n);
      && r.result == Ok(bs[i].start) && r.size == |bs| - 1
      && (i > 0 ==> r.blocks == bs[..i] + bs[i + 1..])
      && (|bs| == 1 ==> r.blocks == [])
      && (i == 0 && |bs| > 1 ==> r.blocks == bs && r.size == |r.blocks| - 1)
  {
  }

  /** Allocation keeps the list invariant. */
  lemma AllocatePreservesWellFormed(bs: seq<Block>, size: int, sizeBytes: int, n: int)
    requires WellFormed(bs, sizeBytes) && sizeBytes <= INT_MAX
    ensures WellFormed(Allocate(bs, size, n).blocks, sizeBytes)
  {
    var r := Allocate(bs, size, n);
    if n > 0 && FirstFit(bs, n) < |bs| {
      var i := FirstFit(bs, n);
      if bs[i].length == n && i > 0 && size - 1 != 0 {
        RemoveKeepsInvariant(bs, sizeBytes, i, bs[..i] + bs[i + 1..]);
      }
    }
  }

  /** The allocated range lies inside the address space. */
  lemma AllocateWithinSpace(bs: seq<Block>, size: int, sizeBytes: int, n: int)
    requires WellFormed(bs, sizeBytes)
    requires Allocate(bs, size, n).result.Ok?
    ensures var a := Allocate(bs, size, n).result.value; 0 <= a && a + n <= sizeBytes
  {
  }

  lemma CoversAt(bs: seq<Block>, a: int)
    ensures Covers(bs, a) <==> exists k :: 0 <= k < |bs| && bs[k].start <= a < bs[k].End()
  {
    if bs != [] {
      CoversAt(bs[1..], a);
      if exists k :: 0 <= k < |bs| && bs[k].start <= a < bs[k].End() {
        var k :| 0 <= k < |bs| && bs[k].start <= a < bs[k].End();
        if k > 0 {
          assert bs[1..][k - 1] == bs[k];
        }
      }
    }
  }

  /** Except in the head-removal case, no address of an allocated range is still free, so two
      allocations without a `free` between them never overlap. */
  lemma AllocatedRangeNotFree(bs: seq<Block>, sizeBytes: int, n: int, a: int)
    requires WellFormed(bs, sizeBytes) && sizeBytes <= INT_MAX
    requires Allocate(bs, |bs|, n).result.Ok? && !HeadExactFit(bs, |bs|, n)
    requires var s := Allocate(bs, |bs|, n).result.value; s <= a < s + n
    ensures !Covers(Allocate(bs, |bs|, n).blocks, a)
  {
    var r := Allocate(bs, |bs|, n);
    var i := FirstFit(bs, n);
    CoversAt(r.blocks, a);
  }

  /** The head-removal defect, shown on two blocks: the first allocation of 10 bytes returns 0 but
      the block stays in the list, so the next allocation of 10 bytes returns 0 again. */
  lemma HeadRemovalAllocatesTwice()
    ensures var first := Allocate([Block(0, 10), Block(20, 10)], 2, 10);
      && first == Step(Ok(0), [Block(0, 10), Block(20, 10)], 1)
      && first.size != |first.blocks|
      && Allocate(first.blocks, first.size, 10).result == Ok(0)
  {
    var bs := [Block(0, 10), Block(20, 10)];
    assert FirstFit(bs, 10) == 0;
  }

  /** `allocate(n)` as evidently intended: an exact fit at the head advances `first`. */
  function AllocateFixed(bs: seq<Block>, size: int, n: int): Step<int> {
    if n <= 0 then Step(Err(IllegalArgument), bs, size)
    else
      var i := FirstFit(bs, n);
      if i == |bs| then Step(Err(NoSuchElement), bs, size)
      else if bs[i].length == n then Step(Ok(bs[i].start), bs[..i] + bs[i + 1..], size - 1)
      else Step(Ok(bs[i].start), bs[i := Block(bs[i].start + n, bs[i].length - n)], size)
  }

  /** The intended allocation keeps the list invariant and `size` equal to the number of blocks,
      and takes the allocated range out of the list. */
  lemma AllocateFixedKeepsInvariant(bs: seq<Block>, sizeBytes: int, n: int, a: int)
    requires WellFormed(bs, sizeBytes)
    ensures var r := AllocateFixed(bs, |bs|, n);
      && WellFormed(r.blocks, sizeBytes) && r.size == |r.blocks|
      && (r.result.Ok? && r.result.value <= a < r.result.value + n ==> !Covers(r.blocks, a))
  {
    var r := AllocateFixed(bs, |bs|, n);
    if n > 0 && FirstFit(bs, n) < |bs| {
      var i := FirstFit(bs, n);
      if bs[i].length == n {
        RemoveKeepsInvariant(bs, sizeBytes, i, bs[..i] + bs[i + 1..]);
      }
      CoversAt(r.blocks, a);
    }
  }

  /** The code as written and the intended allocation agree except in the head-removal case (and
      on blocks that reach past Integer.MAX_VALUE). */
  lemma AllocateAgreesWithFixed(bs: seq<Block>, n: int)
    requires FitsInt(bs) && !HeadExactFit(bs, |bs|, n)
    ensures Allocate(bs, |bs|, n) == AllocateFixed(bs, |bs|, n)
  {
    if n > 0 && FirstFit(bs, n) < |bs| && bs[FirstFit(bs, n)].length == n && |bs| == 1 {
      assert bs[..0] + bs[1..] == [];
    }
  }

  // ---------------------------------------------------------------------------------------------
  // free

  /** The index the scan of `free` stops at: the first block that does not start below `start`. */
  function InsertionPoint(bs: seq<Block>, start: int): (p: nat)
    ensures p <= |bs|
    ensures p < |bs| ==> bs[p].start >= start
    ensures forall j :: 0 <= j < p ==> bs[j].start < start
  {
    if bs == [] then 0
    else if bs[0].start >= start then 0
    else 1 + InsertionPoint(bs[1..], start)
  }

  /** `free(start, n)` as the code is written: the range check `start + n > sizeBytes` and the
      overlap check against the next block both use Java's wrapping `int` addition, and only the
      block at the insertion point is checked for overlap. */
  function Free(bs: seq<Block>, size: int, sizeBytes: int, start: Int32, n: Int32): Step<()> {
    if n <= 0 then Step(Err(IllegalArgument), bs, size)
    else if start < 0 || Wrap32(start + n) > sizeBytes then Step(Err(IllegalArgument), bs, size)
    else
      var p := InsertionPoint(bs, start);
      if p < |bs| && Wrap32(start + n) > bs[p].start then Step(Err(IllegalArgument), bs, size)
      else Step(Ok(()), bs[..p] + [Block(start, n)] + bs[p..], size + 1)
  }

  /** When `start + n` does not overflow, `free` fails exactly when the size is not positive, the
      range leaves the address space, or some free block starting at or after `start` begins
      inside the range; a failure leaves the list as it was. */
  lemma FreeOutcome(bs: seq<Block>, size: int, sizeBytes: int, start: Int32, n: Int32)
    requires WellFormed(bs, sizeBytes)
    requires start + n <= INT_MAX
    ensures var r := Free(bs, size, sizeBytes, start, n);
      && (r.result.Err? <==>
            || n <= 0 || start < 0 || start + n > sizeBytes
            || exists j :: 0 <= j < |bs| && start <= bs[j].start < start + n)
      && (r.result.Err? ==> r.result.error == IllegalArgument && r.blocks == bs && r.size == size)
  {
    var p := InsertionPoint(bs, start);
    if n > 0 && 0 <= start && start + n <= sizeBytes {
      if exists j :: 0 <= j < |bs| && start <= bs[j].start < start + n {
        var j :| 0 <= j < |bs| && start <= bs[j].start < start + n;
        assert p <= j;
        if p < j {
          assert bs[p].End() <= bs[j].start;
        }
      }
    }
  }

  /** A successful `free` inserts exactly one block (start, n) between the blocks that start below
      `start` and those that do not, never merging, and adds one to `size`. */
  lemma FreeInserts(bs: seq<Block>, size: int, sizeBytes: int, start: Int32, n: Int32)
    requires WellFormed(bs, sizeBytes)
    requires Free(bs, size, sizeBytes, start, n).result.Ok?
    ensures var r := Free(bs, size, sizeBytes, start, n);
      exists p :: && 0 <= p <= |bs|
                  && r.blocks == bs[..p] + [Block(start, n)] + bs[p..]
                  && (forall j :: 0 <= j < p ==> bs[j].start < start)
                  && (forall j :: p <= j < |bs| ==> bs[j].start >= start)
                  && r.size == size + 1 && |r.blocks| == |bs| + 1
  {
    var p := InsertionPoint(bs, start);
    forall j | p <= j < |bs|
      ensures bs[j].start >= start
    {
      if p < j {
        assert bs[p].End() <= bs[j].start;
      }
    }
  }

  /** `free` keeps the list invariant when its argument neither overflows nor overlaps the block
      before the insertion point (the one check the code leaves to the caller); `size` stays equal
      to the number of blocks. */
  lemma FreePreservesWellFormed(bs: seq<Block>, size: int, sizeBytes: int, start: Int32, n: Int32)
    requires WellFormed(bs, sizeBytes)
    requires start + n <= INT_MAX
    requires forall j :: 0 <= j < |bs| && bs[j].start < start ==> bs[j].End() <= start
    ensures var r := Free(bs, size, sizeBytes, start, n);
      && WellFormed(r.blocks, sizeBytes)
      && (size == |bs| ==> r.size == |r.blocks|)
  {
    FreeAgreesWithChecked(bs, size, sizeBytes, start, n);
    FreeCheckedPreservesWellFormed(bs, size, sizeBytes, start, n);
  }

  /** The overlap check only looks at the block at the insertion point: a range inside an existing
      free block that starts earlier is accepted, and the list stops being well formed. */
  lemma FreeInsideFreeBlockAccepted()
    ensures var r := Free([Block(0, 100)], 1, 1024, 10, 5);
      && r == Step(Ok(()), [Block(0, 100), Block(10, 5)], 2)
      && WellFormed([Block(0, 100)], 1024) && !WellFormed(r.blocks, 1024)
  {
    assert InsertionPoint([Block(0, 100)], 10) == 1;
    var bad := [Block(0, 100), Block(10, 5)];
    assert !(bad[0].End() <= bad[1].start);
  }

  /** Freeing a range that starts where a free block starts is always refused. */
  lemma FreeAtFreeBlockStartRejected(bs: seq<Block>, size: int, sizeBytes: int, start: Int32, n: Int32, j: int)
    requires WellFormed(bs, sizeBytes)
    requires start + n <= INT_MAX
    requires 0 <= j < |bs| && bs[j].start == start
    ensures Free(bs, size, sizeBytes, start, n).result == Err(IllegalArgument)
  {
    FreeOutcome(bs, size, sizeBytes, start, n);
  }

  /** The range check wraps: freeing 1 byte at Integer.MAX_VALUE in a 1024-byte list passes both
      checks and inserts a block that lies outside the address space. */
  lemma FreeOverflowAccepted()
    ensures var r := Free([], 0, 1024, INT_MAX, 1);
      && r == Step(Ok(()), [Block(INT_MAX, 1)], 1)
      && !WellFormed(r.blocks, 1024)
  {
    assert Wrap32(INT_MAX + 1) == INT_MIN;
    assert [Block(INT_MAX, 1)][0].End() > 1024;
  }

  /** `free(start, n)` as evidently intended: the checks on exact sums, and a range that overlaps the
      block before the insertion point is refused as already free, like one that overlaps the block
      after it. */
  function FreeChecked(bs: seq<Block>, size: int, sizeBytes: int, start: int, n: int): Step<()> {
    if n <= 0 then Step(Err(IllegalArgument), bs, size)
    else if start < 0 || start + n > sizeBytes then Step(Err(IllegalArgument), bs, size)
    else
      var p := InsertionPoint(bs, start);
      if p < |bs| && start + n > bs[p].start then Step(Err(IllegalArgument), bs, size)
      else if p > 0 && bs[p - 1].End() > start then Step(Err(IllegalArgument), bs, size)
      else Step(Ok(()), bs[..p] + [Block(start, n)] + bs[p..], size + 1)
  }

  /** The intended `free` keeps the list invariant for every pair of arguments, and keeps `size`
      equal to the number of blocks. */
  lemma FreeCheckedPreservesWellFormed(bs: seq<Block>, size: int, sizeBytes: int, start: int, n: int)
    requires WellFormed(bs, sizeBytes)
    ensures var r := FreeChecked(bs, size, sizeBytes, start, n);
      WellFormed(r.blocks, sizeBytes) && (size == |bs| ==> r.size == |r.blocks|)
  {
    var r := FreeChecked(bs, size, sizeBytes, start, n);
    if r.result.Ok? {
      var p := InsertionPoint(bs, start);
      InsertKeepsInvariant(bs, sizeBytes, p, Block(start, n), r.blocks);
    }
  }

  /** The intended `free` refuses exactly the bad sizes, the ranges outside the address space and the
      ranges that share a byte with a free block; a refusal changes nothing. */
  lemma FreeCheckedOutcome(bs: seq<Block>, size: int, sizeBytes: int, start: int, n: int)
    requires WellFormed(bs, sizeBytes)
    ensures var r := FreeChecked(bs, size, sizeBytes, start, n);
      && (r.result.Err? <==>
            || n <= 0 || start < 0 || start + n > sizeBytes
            || exists j :: 0 <= j < |bs| && bs[j].start < start + n && start < bs[j].End())
      && (r.result.Err? ==> r.result.error == IllegalArgument && r.blocks == bs && r.size == size)
  {
    if n > 0 && 0 <= start && start + n <= sizeBytes {
      if exists j :: 0 <= j < |bs| && bs[j].start < start + n && start < bs[j].End() {
        var j :| 0 <= j < |bs| && bs[j].start < start + n && start < bs[j].End();
        FreeCheckedRefusesOverlap(bs, size, sizeBytes, start, n, j);
      } else {
        FreeCheckedAcceptsDisjoint(bs, size, sizeBytes, start, n);
      }
    }
  }

  lemma FreeCheckedRefusesOverlap(bs: seq<Block>, size: int, sizeBytes: int, start: int, n: int, j: int)
    requires WellFormed(bs, sizeBytes)
    requires 0 <= j < |bs| && bs[j].start < start + n && start < bs[j].End()
    ensures FreeChecked(bs, size, sizeBytes, start, n).result.Err?
  {
    var p := InsertionPoint(bs, start);
    if p < j {
      assert bs[p].End() <= bs[j].start;
    }
  }

  lemma FreeCheckedAcceptsDisjoint(bs: seq<Block>, size: int, sizeBytes: int, start: int, n: int)
    requires WellFormed(bs, sizeBytes)
    requires n > 0 && 0 <= start && start + n <= sizeBytes
    requires forall j :: 0 <= j < |bs| ==> !(bs[j].start < start + n && start < bs[j].End())
    ensures FreeChecked(bs, size, sizeBytes, start, n).result.Ok?
  {
    var p := InsertionPoint(bs, start);
    if p < |bs| {
      assert bs[p].start >= start;
    }
    if p > 0 {
      assert bs[p - 1].start < start;
    }
  }

  /** Inserting a block that fits between its neighbours keeps the list invariant. */
  lemma InsertKeepsInvariant(bs: seq<Block>, sizeBytes: int, p: int, b: Block, e: seq<Block>)
    requires WellFormed(bs, sizeBytes) && 0 <= p <= |bs|
    requires 0 <= b.start && 0 < b.length && b.End() <= sizeBytes
    requires p > 0 ==> bs[p - 1].End() <= b.start
    requires p < |bs| ==> b.End() <= bs[p].start
    requires e == bs[..p] + [b] + bs[p..]
    ensures WellFormed(e, sizeBytes)
  {
    assert forall k :: 0 <= k < p ==> e[k] == bs[k];
    assert forall k :: p < k < |e| ==> e[k] == bs[k - 1];
    forall x, y | 0 <= x < y < |e|
      ensures e[x].End() <= e[y].start
    {
      if x < p && y < p {
        assert bs[x].End() <= bs[y].start;
      } else if x < p {
        if x < p - 1 {
          assert bs[x].End() <= bs[p - 1].start;
        }
        if y > p {
          assert bs[p - 1].End() <= bs[y - 1].start || p - 1 == y - 1;
        }
      } else if x == p {
        if y > p + 1 {
          assert bs[p].End() <= bs[y - 1].start;
        }
      } else {
        assert bs[x - 1].End() <= bs[y - 1].start;
      }
    }
  }

  /** Removing a block keeps the list invariant. */
  lemma RemoveKeepsInvariant(bs: seq<Block>, sizeBytes: int, i: int, e: seq<Block>)
    requires WellFormed(bs, sizeBytes) && 0 <= i < |bs|
    requires e == bs[..i] + bs[i + 1..]
    ensures WellFormed(e, sizeBytes)
  {
    assert forall k :: 0 <= k < i ==> e[k] == bs[k];
    assert forall k :: i <= k < |e| ==> e[k] == bs[k + 1];
    forall x, y | 0 <= x < y < |e|
      ensures e[x].End() <= e[y].start
    {
      var bx := if x < i then x else x + 1;
      var iy := if y < i then y else y + 1;
      assert e[x] == bs[bx] && e[y] == bs[iy];
      assert bs[bx].End() <= bs[iy].start;
    }
  }

  /** The code as written and the intended `free` agree whenever `start + n` fits in an `int` and the
      range does not overlap a free block that starts below it. */
  lemma FreeAgreesWithChecked(bs: seq<Block>, size: int, sizeBytes: int, start: Int32, n: Int32)
    requires start + n <= INT_MAX
    requires forall j :: 0 <= j < |bs| && bs[j].start < start ==> bs[j].End() <= start
    ensures Free(bs, size, sizeBytes, start, n) == FreeChecked(bs, size, sizeBytes, start, n)
  {
    if n > 0 {
      assert Wrap32(start + n) == start + n;
      var p := InsertionPoint(bs, start);
      if p > 0 {
        assert bs[p - 1].start < start;
      }
    }
  }

  /** The state after freeing the single bytes 0, 1, ..., k - 1 of a `sizeBytes`-byte list that is
      fully allocated. */
  function FreeBytes(k: nat, sizeBytes: int): Step<()>
    requires k <= INT_MAX
  {
    if k == 0 then Step(Ok(()), [], 0)
    else
      var s := FreeBytes(k - 1, sizeBytes);
      Free(s.blocks, s.size, sizeBytes, k - 1, 1)
  }

  /** The one-byte blocks (0, 1), (1, 1), ..., (k - 1, 1). */
  function SingleBytes(k: nat): (bs: seq<Block>)
    ensures |bs| == k && forall j :: 0 <= j < k ==> bs[j] == Block(j, 1)
  {
    if k == 0 then [] else SingleBytes(k - 1) + [Block(k - 1, 1)]
  }

  /** Freeing the bytes of the space one at a time in ascending order appends one block per byte,
      so freeing all 1024 bytes of a 1024-byte list gives `size` 1024. */
  lemma {:induction false} FreeBytesCount(k: nat, sizeBytes: int)
    requires k <= sizeBytes <= INT_MAX
    ensures FreeBytes(k, sizeBytes) == Step(Ok(()), SingleBytes(k), k)
  {
    if k > 0 {
      FreeBytesCount(k - 1, sizeBytes);
      var bs := SingleBytes(k - 1);
      InsertionPointIs(bs, k - 1, k - 1);
      FreeSucceedsAt(bs, k - 1, sizeBytes, k - 1, 1, k - 1);
      assert bs[..k - 1] + [Block(k - 1, 1)] + bs[k - 1..] == SingleBytes(k);
    }
  }

  lemma FreeAllSingleBytes()
    ensures FreeBytes(1024, 1024).size == 1024
  {
    FreeBytesCount(1024, 1024);
  }

  /** Allocations from a fresh 1024-byte list: the whole space at once, then nothing is left; or a
      half and two quarters in turn, each taken from the front of the remaining block. */
  lemma AllocationExamples()
    ensures Allocate([Block(0, 1024)], 1, 1024) == Step(Ok(0), [], 0)
    ensures Allocate([], 0, 1) == Step(Err(NoSuchElement), [], 0)
    ensures Allocate([Block(0, 1024)], 1, 512) == Step(Ok(0), [Block(512, 512)], 1)
    ensures Allocate([Block(512, 512)], 1, 256) == Step(Ok(512), [Block(768, 256)], 1)
    ensures Allocate([Block(768, 256)], 1, 256) == Step(Ok(768), [], 0)
    ensures Allocate([Block(0, 1024)], 1, -1).result == Err(IllegalArgument)
  {
  }

  /** Frees refused for a bad size, a range outside the space or a range that reaches into a free
      block, after 100 bytes or the whole space have been allocated. */
  lemma FreeRejectionExamples()
    ensures Free([Block(100, 924)], 1, 1024, 0, 0).result == Err(IllegalArgument)
    ensures Free([Block(100, 924)], 1, 1024, -1, 100).result == Err(IllegalArgument)
    ensures Free([], 0, 1024, 1025, 1024).result == Err(IllegalArgument)
    ensures Free([], 0, 1024, 0, 1025).result == Err(IllegalArgument)
    ensures Free([Block(0, 1024)], 1, 1024, 0, 100).result == Err(IllegalArgument)
    ensures Free([Block(100, 924)], 1, 1024, 0, 101).result == Err(IllegalArgument)
  {
  }

  /** Frees accepted on a fully allocated 1024-byte list: the whole space, a block in the middle
      (which cannot then be freed again), and two blocks kept in address order. */
  lemma FreeAcceptanceExamples()
    ensures Free([], 0, 1024, 0, 1024) == Step(Ok(()), [Block(0, 1024)], 1)
    ensures Free([], 0, 1024, 512, 256) == Step(Ok(()), [Block(512, 256)], 1)
    ensures Free([Block(512, 256)], 1, 1024, 512, 256).result == Err(IllegalArgument)
    ensures Free([], 0, 1024, 0, 256) == Step(Ok(()), [Block(0, 256)], 1)
    ensures Free([Block(0, 256)], 1, 1024, 768, 256) == Step(Ok(()), [Block(0, 256), Block(768, 256)], 2)
  {
  }

  /** The scan of `free` stops at `i` when the blocks before `i` start below `start` and the block
      at `i`, if any, does not. */
  lemma InsertionPointIs(bs: seq<Block>, start: int, i: int)
    requires 0 <= i <= |bs|
    requires forall j :: 0 <= j < i ==> bs[j].start < start
    requires i < |bs| ==> bs[i].start >= start
    ensures InsertionPoint(bs, start) == i
  {
  }

  /** `free` of a range that passes the range check and ends, in `int` arithmetic, before the
      block at its insertion point inserts it there. */
  lemma FreeSucceedsAt(bs: seq<Block>, size: int, sizeBytes: int, start: Int32, n: Int32, p: int)
    requires 0 < n && 0 <= start && Wrap32(start + n) <= sizeBytes
    requires InsertionPoint(bs, start) == p
    requires p < |bs| ==> Wrap32(start + n) <= bs[p].start
    ensures Free(bs, size, sizeBytes, start, n) == Step(Ok(()), bs[..p] + [Block(start, n)] + bs[p..], size + 1)
  {
  }

  /** Exact fit: `allocate(n)` followed by `free` of the returned range gives back the same list
      (outside the head-removal case). */
  lemma AllocateThenFreeExact(bs: seq<Block>, sizeBytes: int, n: int)
    requires WellFormed(bs, sizeBytes) && sizeBytes <= INT_MAX
    requires Allocate(bs, |bs|, n).result.Ok? && !HeadExactFit(bs, |bs|, n)
    requires bs[FirstFit(bs, n)].length == n
    ensures var r := Allocate(bs, |bs|, n);
      Free(r.blocks, r.size, sizeBytes, r.result.value, n) == Step(Ok(()), bs, |bs|)
  {
    var i := FirstFit(bs, n);
    var s := bs[i].start;
    AllocateExactFit(bs, n);
    var r := Allocate(bs, |bs|, n);
    assert r.result.value == s && r.size == |bs| - 1;
    if |bs| == 1 {
      assert r.blocks == [];
      FreeSucceedsAt([], 0, sizeBytes, s as Int32, n as Int32, 0);
      assert [] + [Block(s, n)] + [] == bs;
    } else {
      assert r.blocks == bs[..i] + bs[i + 1..];
      FreeRestoresUnlinked(bs, sizeBytes, i);
    }
  }

  /** Freeing the range of block `i` after it was unlinked puts it back where it was. */
  lemma FreeRestoresUnlinked(bs: seq<Block>, sizeBytes: int, i: int)
    requires WellFormed(bs, sizeBytes) && sizeBytes <= INT_MAX && 0 <= i < |bs|
    ensures Free(bs[..i] + bs[i + 1..], |bs| - 1, sizeBytes, bs[i].start as Int32, bs[i].length as Int32)
      == Step(Ok(()), bs, |bs|)
  {
    var cut := bs[..i] + bs[i + 1..];
    UnlinkInsertionPoint(bs, sizeBytes, i, cut);
    FreeSucceedsAt(cut, |bs| - 1, sizeBytes, bs[i].start as Int32, bs[i].length as Int32, i);
    ReinsertRemoved(bs, i);
  }

  /** After block `i` is unlinked, the scan of `free` for its start stops where it was. */
  lemma UnlinkInsertionPoint(bs: seq<Block>, sizeBytes: int, i: int, cut: seq<Block>)
    requires WellFormed(bs, sizeBytes) && 0 <= i < |bs|
    requires cut == bs[..i] + bs[i + 1..]
    ensures InsertionPoint(cut, bs[i].start) == i
    ensures i < |cut| ==> bs[i].End() <= cut[i].start
  {
    assert forall k :: 0 <= k < i ==> cut[k] == bs[k];
    assert forall k :: i <= k < |cut| ==> cut[k] == bs[k + 1];
    StartsBelow(bs, sizeBytes, i);
    if i < |cut| {
      assert cut[i] == bs[i + 1];
      assert bs[i].End() <= bs[i + 1].start;
    }
    InsertionPointIs(cut, bs[i].start, i);
  }

  /** Split: `allocate(n)` followed by `free` of the returned range succeeds and gives back the
      same free addresses, in a well-formed list whose `size` counts its blocks. */
  lemma AllocateThenFreeSplit(bs: seq<Block>, sizeBytes: int, n: int, a: int)
    requires WellFormed(bs, sizeBytes) && sizeBytes <= INT_MAX
    requires n > 0 && FirstFit(bs, n) < |bs| && bs[FirstFit(bs, n)].length > n
    ensures var r := Allocate(bs, |bs|, n);
      var f := Free(r.blocks, r.size, sizeBytes, r.result.value, n);
      && r.result.Ok? && f.result.Ok? && f.size == |f.blocks| && WellFormed(f.blocks, sizeBytes)
      && (Covers(f.blocks, a) <==> Covers(bs, a))
  {
    var i := FirstFit(bs, n);
    var r := Allocate(bs, |bs|, n);
    assert r == Step(Ok(bs[i].start), bs[i := Block(bs[i].start + n, bs[i].length - n)], |bs|) by {
      WellFormedFits(bs, sizeBytes);
      assert Fits(bs[i]);
      AllocateSplitIs(bs, |bs|, n);
    }
    SplitRoundTrip(bs, sizeBytes, i, n, a, r);
  }

  /** Block `i` shrunk from the front by `n` bytes (the step `r`) and then those `n` bytes freed:
      `free` succeeds and cuts block `i` in two, which keeps the invariant and the free bytes. */
  lemma SplitRoundTrip(bs: seq<Block>, sizeBytes: int, i: int, n: int, a: int, r: Step<int>)
    requires WellFormed(bs, sizeBytes) && sizeBytes <= INT_MAX
    requires 0 <= i < |bs| && 0 < n < bs[i].length
    requires r == Step(Ok(bs[i].start), bs[i := Block(bs[i].start + n, bs[i].length - n)], |bs|)
    ensures var f := Free(r.blocks, r.size, sizeBytes, r.result.value, n);
      && f.result.Ok? && f.size == |f.blocks| && WellFormed(f.blocks, sizeBytes)
      && (Covers(f.blocks, a) <==> Covers(bs, a))
  {
    var s := bs[i].start;
    var rest := Block(s + n, bs[i].length - n);
    var shrunk := bs[i := rest];
    var expected := bs[..i] + [Block(s, n), rest] + bs[i + 1..];
    assert Free(shrunk, |bs|, sizeBytes, s, n) == Step(Ok(()), expected, |bs| + 1) by {
      SplitInsertionPoint(bs, sizeBytes, i, rest);
      FreeSucceedsAt(shrunk, |bs|, sizeBytes, s as Int32, n as Int32, i);
      ReinsertSplit(bs, i, rest, Block(s, n));
    }
    SplitKeepsInvariant(bs, sizeBytes, i, n, expected);
    SplitKeepsCoverage(bs, i, n, expected, a);
  }

  /** The step `allocate` takes once its scan has stopped at block `i`. */
  lemma AllocateAt(bs: seq<Block>, size: int, n: int, i: int)
    requires n > 0 && FirstFit(bs, n) == i
    ensures i == |bs| ==> Allocate(bs, size, n) == Step(Err(NoSuchElement), bs, size)
    ensures i < |bs| && bs[i].length == n && i > 0 && size != 1 ==>
      Allocate(bs, size, n) == Step(Ok(bs[i].start), bs[..i] + bs[i + 1..], size - 1)
    ensures i < |bs| && bs[i].length == n && i == 0 && size != 1 ==>
      Allocate(bs, size, n) == Step(Ok(bs[i].start), bs, size - 1)
    ensures i < |bs| && bs[i].length == n && size == 1 ==> Allocate(bs, size, n) == Step(Ok(bs[i].start), [], 0)
    ensures i < |bs| && bs[i].length > n ==>
      Allocate(bs, size, n) == Step(Ok(bs[i].start), bs[i := Block(Wrap32(bs[i].start + n), bs[i].length - n)], size)
  {
  }

  lemma AllocateSplitIs(bs: seq<Block>, size: int, n: int)
    requires n > 0 && FirstFit(bs, n) < |bs| && bs[FirstFit(bs, n)].length > n
    requires Fits(bs[FirstFit(bs, n)])
    ensures var i := FirstFit(bs, n);
      Allocate(bs, size, n) == Step(Ok(bs[i].start), bs[i := Block(bs[i].start + n, bs[i].length - n)], size)
  {
  }

  /** After block `i` is shrunk from the front, the scan of `free` for its old start stops at it. */
  lemma SplitInsertionPoint(bs: seq<Block>, sizeBytes: int, i: int, rest: Block)
    requires WellFormed(bs, sizeBytes) && 0 <= i < |bs| && rest.start >= bs[i].start
    ensures InsertionPoint(bs[i := rest], bs[i].start) == i
  {
    StartsBelow(bs, sizeBytes, i);
    var shrunk := bs[i := rest];
    assert forall j :: 0 <= j < i ==> shrunk[j] == bs[j];
    InsertionPointIs(shrunk, bs[i].start, i);
  }

  /** In a well-formed list every block before block `i` starts below it. */
  lemma StartsBelow(bs: seq<Block>, sizeBytes: int, i: int)
    requires WellFormed(bs, sizeBytes) && 0 <= i < |bs|
    ensures forall j :: 0 <= j < i ==> bs[j].start < bs[i].start
  {
    forall j | 0 <= j < i
      ensures bs[j].start < bs[i].start
    {
      assert bs[j].End() <= bs[i].start;
    }
  }

  lemma ReinsertRemoved(bs: seq<Block>, i: int)
    requires 0 <= i < |bs|
    ensures var cut := bs[..i] + bs[i + 1..]; cut[..i] + [bs[i]] + cut[i..] == bs
  {
    var cut := bs[..i] + bs[i + 1..];
    assert cut[..i] == bs[..i] && cut[i..] == bs[i + 1..];
    assert bs[..i] + [bs[i]] + bs[i + 1..] == bs;
  }

  lemma ReinsertSplit(bs: seq<Block>, i: int, rest: Block, b: Block)
    requires 0 <= i < |bs|
    ensures var shrunk := bs[i := rest];
      shrunk[..i] + [b] + shrunk[i..] == bs[..i] + [b, rest] + bs[i + 1..]
  {
    var shrunk := bs[i := rest];
    assert shrunk[..i] == bs[..i];
    assert shrunk[i..] == [rest] + bs[i + 1..];
  }

  /** Cutting block `i` into (start, n) and (start + n, length - n) keeps the list invariant. */
  lemma SplitKeepsInvariant(bs: seq<Block>, sizeBytes: int, i: int, n: int, e: seq<Block>)
    requires WellFormed(bs, sizeBytes) && 0 <= i < |bs| && 0 < n < bs[i].length
    requires e == bs[..i] + [Block(bs[i].start, n), Block(bs[i].start + n, bs[i].length - n)] + bs[i + 1..]
    ensures WellFormed(e, sizeBytes)
  {
    assert forall k :: 0 <= k < i ==> e[k] == bs[k];
    assert forall k :: i + 1 < k < |e| ==> e[k] == bs[k - 1];
    forall x | 0 <= x < |e|
      ensures 0 <= e[x].start && 0 < e[x].length && e[x].End() <= sizeBytes
    {
      if x > i + 1 {
        assert e[x] == bs[x - 1];
      }
    }
    forall x, y | 0 <= x < y < |e|
      ensures e[x].End() <= e[y].start
    {
      var ex := e[x];
      var ey := e[y];
      if y > i + 1 {
        assert ey == bs[y - 1];
        if x < i {
          assert bs[x].End() <= bs[y - 1].start;
        } else if x <= i + 1 {
          assert bs[i].End() <= bs[y - 1].start;
        } else {
          assert ex == bs[x - 1];
          assert bs[x - 1].End() <= bs[y - 1].start;
        }
      } else if x < i {
        assert ex == bs[x];
        assert bs[x].End() <= bs[i].start;
        if y < i {
          assert bs[x].End() <= bs[y].start;
        }
      }
    }
  }

  /** Cutting a block in two keeps the set of free addresses. */
  lemma SplitKeepsCoverage(bs: seq<Block>, i: int, n: int, e: seq<Block>, a: int)
    requires 0 <= i < |bs| && 0 < n < bs[i].length
    requires e == bs[..i] + [Block(bs[i].start, n), Block(bs[i].start + n, bs[i].length - n)] + bs[i + 1..]
    ensures Covers(e, a) <==> Covers(bs, a)
  {
    assert forall k :: 0 <= k < i ==> e[k] == bs[k];
    assert forall k :: i + 1 < k < |e| ==> e[k] == bs[k - 1];
    CoversAt(e, a);
    CoversAt(bs, a);
    if Covers(e, a) {
      var k :| 0 <= k < |e| && e[k].start <= a < e[k].End();
      if k < i {
        assert bs[k] == e[k];
      } else if k <= i + 1 {
        assert bs[i].start <= a < bs[i].End();
      } else {
        assert bs[k - 1] == e[k];
      }
    }
    if Covers(bs, a) {
      var j :| 0 <= j < |bs| && bs[j].start <= a < bs[j].End();
      if j < i {
        assert e[j] == bs[j];
      } else if j > i {
        assert e[j + 1] == bs[j];
      } else if a < bs[i].start + n {
        assert e[i].start <= a < e[i].End();
      } else {
        assert e[i + 1].start <= a < e[i + 1].End();
      }
    }
  }

  // ---------------------------------------------------------------------------------------------
  // compact

  /** The pass of `compact` from the accumulating block `acc` over the blocks after it: a
      contiguous block is absorbed into `acc` (the lengths added in `int` arithmetic); otherwise
      `acc` is finished and the block becomes the new accumulating block. */
  function CompactFrom(acc: Block, rest: seq<Block>): seq<Block>
    decreases |rest|
  {
    if rest == [] then [acc]
    else if Contiguous(acc, rest[0]) then CompactFrom(Merge(acc, rest[0]), rest[1..])
    else [acc] + CompactFrom(rest[0], rest[1..])
  }

  /** `acc` grown by the length of `b`. */
  function Merge(acc: Block, b: Block): Block {
    Block(acc.start, Wrap32(acc.length + b.length))
  }

  /** Absorbing the contiguous block `b` into `acc`, when neither reaches past Integer.MAX_VALUE,
      gives the block from the start of `acc` to the end of `b`. */
  lemma MergeExact(acc: Block, b: Block)
    requires Fits(acc) && Fits(b) && Contiguous(acc, b)
    ensures acc.End() == b.start
    ensures Merge(acc, b) == Block(acc.start, acc.length + b.length)
    ensures Fits(Merge(acc, b)) && Merge(acc, b).End() == b.End()
  {
  }

  /** One step of the single pass behind Compacted: with `done` the finished blocks and `acc` the
      block being grown before `bs[c]`, `bs[c]` is absorbed when contiguous with `acc`, and
      otherwise `acc` joins the finished blocks and `bs[c]` starts a new one. */
  lemma CompactStep(bs: seq<Block>, c: int, done: seq<Block>, acc: Block)
    requires 0 <= c < |bs|
    requires Compacted(bs) == done + CompactFrom(acc, bs[c..])
    ensures Contiguous(acc, bs[c]) ==> Compacted(bs) == done + CompactFrom(Merge(acc, bs[c]), bs[c + 1..])
    ensures !Contiguous(acc, bs[c]) ==> Compacted(bs) == (done + [acc]) + CompactFrom(bs[c], bs[c + 1..])
  {
    assert bs[c..][0] == bs[c] && bs[c..][1..] == bs[c + 1..];
    if !Contiguous(acc, bs[c]) {
      assert done + ([acc] + CompactFrom(bs[c], bs[c + 1..])) == (done + [acc]) + CompactFrom(bs[c], bs[c + 1..]);
    }
  }

  /** The blocks `compact` leaves (a no-op on the empty list). */
  function Compacted(bs: seq<Block>): seq<Block> {
    if bs == [] then [] else CompactFrom(bs[0], bs[1..])
  }

  lemma {:induction false} CompactFromShape(acc: Block, rest: seq<Block>)
    ensures 1 <= |CompactFrom(acc, rest)| <= |rest| + 1
    ensures CompactFrom(acc, rest)[0].start == acc.start
    decreases |rest|
  {
    if rest != [] {
      if Contiguous(acc, rest[0]) {
        CompactFromShape(Merge(acc, rest[0]), rest[1..]);
      } else {
        CompactFromShape(rest[0], rest[1..]);
      }
    }
  }

  lemma {:induction false} CompactFromNoContiguous(acc: Block, rest: seq<Block>)
    ensures NoContiguousPair(CompactFrom(acc, rest))
    decreases |rest|
  {
    if rest != [] {
      if Contiguous(acc, rest[0]) {
        CompactFromNoContiguous(Merge(acc, rest[0]), rest[1..]);
      } else {
        var tail := CompactFrom(rest[0], rest[1..]);
        CompactFromNoContiguous(rest[0], rest[1..]);
        CompactFromShape(rest[0], rest[1..]);
        var r := [acc] + tail;
        forall i | 0 <= i < |r| - 1
          ensures !Contiguous(r[i], r[i + 1])
        {
          if i > 0 {
            assert r[i] == tail[i - 1] && r[i + 1] == tail[i];
          }
        }
      }
    }
  }

  /** After `compact`, no block is contiguous with the next one. */
  lemma CompactLeavesNoContiguousPair(bs: seq<Block>)
    ensures NoContiguousPair(Compacted(bs))
  {
    if bs != [] {
      CompactFromNoContiguous(bs[0], bs[1..]);
    }
  }

  lemma {:induction false} CompactFromTotal(acc: Block, rest: seq<Block>)
    requires Fits(acc) && FitsInt(rest)
    ensures TotalLength(CompactFrom(acc, rest)) == acc.length + TotalLength(rest)
    decreases |rest|
  {
    if rest != [] {
      assert FitsInt(rest[1..]) && Fits(rest[0]);
      if Contiguous(acc, rest[0]) {
        MergeExact(acc, rest[0]);
        CompactFromTotal(Merge(acc, rest[0]), rest[1..]);
      } else {
        CompactFromTotal(rest[0], rest[1..]);
        assert ([acc] + CompactFrom(rest[0], rest[1..]))[1..] == CompactFrom(rest[0], rest[1..]);
      }
    }
  }

  /** `compact` keeps the number of free bytes. */
  lemma CompactPreservesTotal(bs: seq<Block>)
    requires FitsInt(bs)
    ensures TotalLength(Compacted(bs)) == TotalLength(bs)
  {
    if bs != [] {
      CompactFromTotal(bs[0], bs[1..]);
    }
  }

  lemma {:induction false} CompactFromCovers(acc: Block, rest: seq<Block>, a: int)
    requires Fits(acc) && FitsInt(rest)
    ensures Covers(CompactFrom(acc, rest), a) <==> (acc.start <= a < acc.End() || Covers(rest, a))
    decreases |rest|
  {
    if rest != [] {
      assert FitsInt(rest[1..]) && Fits(rest[0]);
      if Contiguous(acc, rest[0]) {
        MergeExact(acc, rest[0]);
        CompactFromCovers(Merge(acc, rest[0]), rest[1..], a);
      } else {
        CompactFromCovers(rest[0], rest[1..], a);
        assert ([acc] + CompactFrom(rest[0], rest[1..]))[1..] == CompactFrom(rest[0], rest[1..]);
      }
    }
  }

  /** `compact` keeps the set of free addresses. */
  lemma CompactPreservesCoverage(bs: seq<Block>, a: int)
    requires FitsInt(bs)
    ensures Covers(Compacted(bs), a) <==> Covers(bs, a)
  {
    if bs != [] {
      CompactFromCovers(bs[0], bs[1..], a);
    }
  }

  lemma {:induction false} CompactFromWellFormed(acc: Block, rest: seq<Block>, sizeBytes: int)
    requires 0 <= acc.start && 0 < acc.length && acc.End() <= sizeBytes <= INT_MAX
    requires WellFormed(rest, sizeBytes)
    requires forall k :: 0 <= k < |rest| ==> acc.End() <= rest[k].start
    ensures WellFormed(CompactFrom(acc, rest), sizeBytes)
    ensures forall k :: 0 <= k < |CompactFrom(acc, rest)| ==> CompactFrom(acc, rest)[k].start >= acc.start
    decreases |rest|
  {
    if rest != [] {
      var tail := rest[1..];
      TailWellFormed(rest, sizeBytes);
      if Contiguous(acc, rest[0]) {
        MergeExact(acc, rest[0]);
        CompactFromWellFormed(Merge(acc, rest[0]), tail, sizeBytes);
      } else {
        var out := CompactFrom(rest[0], tail);
        CompactFromWellFormed(rest[0], tail, sizeBytes);
        CompactFromShape(rest[0], tail);
        assert out[..0] + [acc] + out[0..] == [acc] + out;
        InsertKeepsInvariant(out, sizeBytes, 0, acc, [acc] + out);
      }
    }
  }

  /** The blocks after the first of a well-formed list form a well-formed list that starts after
      the first block. */
  lemma TailWellFormed(bs: seq<Block>, sizeBytes: int)
    requires WellFormed(bs, sizeBytes) && bs != []
    ensures WellFormed(bs[1..], sizeBytes)
    ensures forall k :: 0 <= k < |bs| - 1 ==> bs[0].End() <= bs[1..][k].start
  {
    var tail := bs[1..];
    assert forall k :: 0 <= k < |tail| ==> tail[k] == bs[k + 1];
  }

  /** `compact` keeps the list invariant, so the blocks stay in ascending address order. */
  lemma CompactPreservesWellFormed(bs: seq<Block>, sizeBytes: int)
    requires WellFormed(bs, sizeBytes) && sizeBytes <= INT_MAX
    ensures WellFormed(Compacted(bs), sizeBytes)
    ensures |Compacted(bs)| <= |bs|
  {
    if bs != [] {
      var tail := bs[1..];
      TailWellFormed(bs, sizeBytes);
      CompactFromWellFormed(bs[0], tail, sizeBytes);
      CompactFromShape(bs[0], bs[1..]);
    }
  }

  lemma {:induction false} CompactFromFixpoint(acc: Block, rest: seq<Block>)
    requires NoContiguousPair([acc] + rest)
    ensures CompactFrom(acc, rest) == [acc] + rest
    decreases |rest|
  {
    if rest != [] {
      var all := [acc] + rest;
      assert all[0] == acc && all[1] == rest[0];
      assert forall k :: 0 <= k < |rest| ==> rest[k] == all[k + 1];
      assert [rest[0]] + rest[1..] == rest;
      CompactFromFixpoint(rest[0], rest[1..]);
    }
  }

  /** `compact` is idempotent. */
  lemma CompactIdempotent(bs: seq<Block>)
    ensures Compacted(Compacted(bs)) == Compacted(bs)
  {
    var c := Compacted(bs);
    CompactLeavesNoContiguousPair(bs);
    if c != [] {
      assert [c[0]] + c[1..] == c;
      CompactFromFixpoint(c[0], c[1..]);
    }
  }

  lemma CoversFrom(bs: seq<Block>, sizeBytes: int, a: int)
    requires WellFormed(bs, sizeBytes) && Covers(bs, a)
    ensures bs[0].start <= a
  {
    CoversAt(bs, a);
    var k :| 0 <= k < |bs| && bs[k].start <= a < bs[k].End();
    if k > 0 {
      assert bs[0].End() <= bs[k].start;
    }
  }

  /** When the free blocks tile the whole space, `compact` leaves the single block (0, sizeBytes). */
  lemma CompactTiling(bs: seq<Block>, sizeBytes: int)
    requires 0 < sizeBytes <= INT_MAX && WellFormed(bs, sizeBytes)
    requires forall a :: 0 <= a < sizeBytes ==> Covers(bs, a)
    ensures Compacted(bs) == [Block(0, sizeBytes)]
  {
    var r := Compacted(bs);
    WellFormedFits(bs, sizeBytes);
    CompactPreservesWellFormed(bs, sizeBytes);
    CompactLeavesNoContiguousPair(bs);
    CompactPreservesCoverage(bs, 0);
    CompactPreservesCoverage(bs, sizeBytes - 1);
    assert Covers(r, 0);
    if |r| >= 2 {
      var a := r[0].End();
      assert r[0].End() < r[1].start by {
        assert r[0].End() <= r[1].start && !Contiguous(r[0], r[1]);
      }
      CoversAt(r, r[1].start);
      assert Covers(r, r[1].start);
      CompactPreservesCoverage(bs, r[1].start);
      CoversAt(bs, r[1].start);
      var k :| 0 <= k < |bs| && bs[k].start <= r[1].start < bs[k].End();
      CompactPreservesCoverage(bs, a);
      assert Covers(r, a);
      assert Covers(r[1..], a);
      CoversFrom(r[1..], sizeBytes, a);
      assert false;
    }
    assert |r| == 1;
    assert r[0].start <= 0;
    assert sizeBytes - 1 < r[0].End();
  }

  /** The compaction example of the problem description: two runs of contiguous blocks merge and
      the rest stay. */
  lemma CompactDescriptionExample()
    ensures Compacted([Block(240, 20), Block(270, 15), Block(285, 15), Block(350, 8), Block(360, 10), Block(370, 16)])
         == [Block(240, 20), Block(270, 30), Block(350, 8), Block(360, 26)]
  {
  }

  /** A run of four contiguous blocks merges into one and the following block stays. */
  lemma CompactLongRunExample()
    ensures Compacted([Block(0, 84), Block(84, 16), Block(100, 20), Block(120, 80), Block(220, 16)])
         == [Block(0, 200), Block(220, 16)]
  {
  }

  /** A list whose blocks are all contiguous merges into a single block. */
  lemma CompactWholeListExample()
    ensures Compacted([Block(0, 100), Block(100, 100), Block(200, 100), Block(300, 100)]) == [Block(0, 400)]
  {
  }

  /** Two separate pairs merge into two blocks. */
  lemma CompactTwoPairsExample()
    ensures Compacted([Block(0, 128), Block(128, 256), Block(512, 128), Block(640, 384)])
         == [Block(0, 384), Block(512, 512)]
  {
  }

  /** Compacting no blocks, one block, two separate blocks and two contiguous halves. */
  lemma CompactSmallExamples()
    ensures Compacted([]) == []
    ensures Compacted([Block(0, 1024)]) == [Block(0, 1024)]
    ensures Compacted([Block(0, 256), Block(768, 256)]) == [Block(0, 256), Block(768, 256)]
    ensures Compacted([Block(0, 512), Block(512, 512)]) == [Block(0, 1024)]
  {
  }

  /** After every byte of a k-byte list has been freed one at a time, `compact` leaves the single
      block (0, k). */
  lemma CompactSingleBytes(k: nat)
    requires 0 < k <= INT_MAX
    ensures Compacted(FreeBytes(k, k).blocks) == [Block(0, k)]
  {
    FreeBytesCount(k, k);
    var bs := SingleBytes(k);
    assert WellFormed(bs, k);
    forall a | 0 <= a < k
      ensures Covers(bs, a)
    {
      CoversAt(bs, a);
      assert bs[a].start <= a < bs[a].End();
    }
    CompactTiling(bs, k);
  }
}
