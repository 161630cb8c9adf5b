/** The arena allocator of ma_alloc.c: blocks on two linked lists, carved from the front. */
module Arena {
  import opened Basics

  const WRAP: nat := 0x1_0000_0000_0000_0000
  const WRAP32: nat := 0x1_0000_0000
  const MALLOC_OVERHEAD: nat := 8
  const SIZEOF_USED_MEM: nat := 24
  const MIN_MALLOC: nat := 32

  /** ALIGN_SIZE in 64-bit arithmetic. */
  function AlignSize(n: nat): (a: nat)
    ensures a % 8 == 0
    ensures n + 7 < WRAP ==> n <= a < n + 8
  {
    (n + 7) % WRAP / 8 * 8
  }

  /** Bytes that a new block needs for one request. */
  function Needed(size: nat): nat {
    (AlignSize(size) + SIZEOF_USED_MEM) % WRAP
  }

  /** The computed block size holds header and request exactly for requests that leave room for
      both in a 64-bit size; longer ones wrap around. */
  lemma NeededIsEnough(size: nat)
    requires size < WRAP
    ensures Needed(size) >= SIZEOF_USED_MEM + size <==> size <= WRAP - 32
  {
  }

  class UsedMem {
    var next: UsedMem?
    var left: nat
    const size: nat

    constructor (size: nat)
      ensures this.size == size && next == null && left == 0
    {
      this.size, next, left := size, null, 0;
    }
  }

  /** Bytes `start` to `start + length` of a block. */
  datatype Region = Region(block: UsedMem, start: nat, length: nat)

  ghost predicate Disjoint(r: Region, s: Region) {
    r.block != s.block || r.start + r.length <= s.start || s.start + s.length <= r.start
  }

  ghost function After(s: seq<UsedMem>, i: nat): UsedMem? {
    if i < |s| then s[i] else null
  }

  /** A null-terminated list. */
  ghost predicate Chain(head: UsedMem?, s: seq<UsedMem>)
    reads s
  {
    head == After(s, 0) && forall i :: 0 <= i < |s| ==> s[i].next == After(s, i + 1)
  }

  ghost predicate Distinct(s: seq<UsedMem>) {
    forall i, j :: 0 <= i < j < |s| ==> s[i] != s[j]
  }

  ghost function Elements(s: seq<UsedMem>): set<UsedMem> {
    set b | b in s
  }

  lemma Removed(s: seq<UsedMem>, k: nat)
    requires k < |s| && Distinct(s)
    ensures Distinct(s[..k] + s[k + 1..]) && Elements(s[..k] + s[k + 1..]) == Elements(s) - {s[k]}
    ensures s[k] in Elements(s)
  {
    var t := s[..k] + s[k + 1..];
    forall i | 0 <= i < |t| ensures t[i] == s[if i < k then i else i + 1] {}
    forall b | b in Elements(s) - {s[k]} ensures b in t {
      var j :| 0 <= j < |s| && s[j] == b;
      assert t[if j < k then j else j - 1] == b;
    }
  }

  lemma Added(s: seq<UsedMem>, b: UsedMem)
    requires Distinct(s) && b !in Elements(s)
    ensures Distinct([b] + s) && Elements([b] + s) == {b} + Elements(s)
    ensures Distinct(s + [b]) && Elements(s + [b]) == {b} + Elements(s)
  {
    assert forall c <- s :: c in [b] + s && c in s + [b];
    assert b in [b] + s && b in s + [b];
  }

  /** Both lists after block `k` went from one to the front of the other. */
  lemma Moved(fl: seq<UsedMem>, ul: seq<UsedMem>, prev: UsedMem?, k: nat)
    requires k < |fl| && Distinct(fl) && Distinct(ul) && Elements(fl) !! Elements(ul)
    requires prev == if k == 0 then null else fl[k - 1]
    ensures var fl', ul' := fl[..k] + fl[k + 1..], [fl[k]] + ul;
      && Distinct(fl') && Distinct(ul') && Elements(fl') !! Elements(ul')
      && Elements(fl') + Elements(ul') == Elements(fl) + Elements(ul)
      && fl[k] !in fl' && fl[k] !in ul && prev !in ul
  {
    Removed(fl, k);
    assert fl[k] in Elements(fl) && (prev != null ==> prev in Elements(fl));
    assert fl[k] !in ul;
    Added(ul, fl[k]);
    assert fl[k] !in Elements(fl[..k] + fl[k + 1..]);
  }

  ghost predicate BlockOk(b: UsedMem)
    reads b
  {
    SIZEOF_USED_MEM <= b.size - b.left && (b.size - b.left) % 8 == 0
  }

  /** Behind the header, aligned, and in the part of the block already given away. */
  ghost predicate Placed(r: Region)
    reads r.block
  {
    SIZEOF_USED_MEM <= r.start && r.start % 8 == 0 && r.start + r.length <= r.block.size - r.block.left
  }

  /** malloc: a new block exactly when there is memory for it. */
  method Malloc(size: nat, memory: bool) returns (b: UsedMem?)
    ensures b != null <==> memory
    ensures b != null ==> fresh(b) && b.size == size
  {
    b := null;
    if memory {
      b := new UsedMem(size);
    }
  }

  class MemRoot {
    var free: UsedMem?
    var used: UsedMem?
    var preAlloc: UsedMem?
    var blockSize: nat
    var blockNum: nat
    var firstBlockUsage: nat
    ghost var freeList: seq<UsedMem>
    ghost var usedList: seq<UsedMem>
    ghost var regions: seq<Region>
    ghost var heap: set<UsedMem>

    /** Every block is on exactly one list. `heap` are the blocks not yet given back to malloc. */
    ghost predicate Linked()
      reads `free, `used, `freeList, `usedList, `heap, freeList, usedList
    {
      && Chain(free, freeList) && Chain(used, usedList) && Distinct(freeList) && Distinct(usedList)
      && Elements(freeList) !! Elements(usedList) && heap == Elements(freeList) + Elements(usedList)
    }

    /** All regions lie in blocks, and none overlap. */
    ghost predicate Filled()
      reads `preAlloc, `regions, `heap, heap
    {
      && (forall b <- heap :: BlockOk(b))
      && (preAlloc != null ==> preAlloc in heap)
      && (forall i :: 0 <= i < |regions| ==> regions[i].block in heap && Placed(regions[i]))
      && (forall i, j :: 0 <= i < j < |regions| ==> Disjoint(regions[i], regions[j]))
    }

    ghost predicate Valid()
      reads `free, `used, `preAlloc, `regions, `heap, `freeList, `usedList, heap, freeList, usedList
    {
      Linked() && Filled()
    }

    ghost predicate At(prev: UsedMem?, next: UsedMem?, k: nat)
      reads `freeList
    {
      && k <= |freeList| && prev == (if k == 0 then null else freeList[k - 1])
      && next == (if k == |freeList| then null else freeList[k])
    }

    /** `*prev = next`. */
    method SetLink(prev: UsedMem?, next: UsedMem?)
      modifies `free, if prev == null then {} else {prev}
      ensures if prev == null then free == next else prev.next == next && free == old(free)
      ensures prev != null ==> prev.left == old(prev.left)
    {
      if prev == null {
        free := next;
      } else {
        prev.next := next;
      }
    }

    /** Takes block `k` out of the free list. */
    method Unlink(prev: UsedMem?, next: UsedMem, ghost k: nat)
      requires Chain(free, freeList) && Distinct(freeList) && At(prev, next, k)
      modifies `free, `freeList, if prev == null then {} else {prev}
      ensures freeList == old(freeList[..k] + freeList[k + 1..]) && Chain(free, freeList)
      ensures prev != null ==> prev.left == old(prev.left)
    {
      ghost var fl := freeList;
      SetLink(prev, next.next);
      freeList := fl[..k] + fl[k + 1..];
      forall i | 0 <= i < |freeList| ensures freeList[i].next == After(freeList, i + 1) {
        assert freeList[i] == fl[if i < k then i else i + 1];
      }
    }

    /** Puts a block in front of the used list. */
    method Push(next: UsedMem)
      requires Chain(used, usedList) && next !in usedList
      modifies `used, `usedList, next
      ensures usedList == [next] + old(usedList) && Chain(used, usedList) && next.left == old(next.left)
    {
      ghost var ul := usedList;
      next.next := used;
      used := next;
      usedList := [next] + ul;
      forall i | 0 <= i < |usedList| ensures usedList[i].next == After(usedList, i + 1) {
        assert i > 0 ==> usedList[i] == ul[i - 1];
      }
    }

    method Relink(prev: UsedMem?, next: UsedMem, ghost k: nat)
      requires Linked() && At(prev, next, k)
      modifies `free, `used, `freeList, `usedList, next, if prev == null then {} else {prev}
      ensures Linked() && freeList == old(freeList[..k] + freeList[k + 1..]) && usedList == [next] + old(usedList)
      ensures next.left == old(next.left) && (prev != null ==> prev.left == old(prev.left))
    {
      hide Distinct, Chain, Elements, After;
      Moved(freeList, usedList, prev, k);
      Unlink(prev, next, k);
      assert next.left == old(next.left);
      Push(next);
    }

    /** Moves block `k` of the free list to the front of the used list. */
    method Retire(prev: UsedMem?, next: UsedMem, ghost k: nat)
      requires Valid() && At(prev, next, k)
      modifies `free, `used, `freeList, `usedList, next, if prev == null then {} else {prev}
      ensures Valid() && freeList == old(freeList[..k] + freeList[k + 1..]) && usedList == [next] + old(usedList)
      ensures forall b <- heap :: b.left == old(b.left)
    {
      hide Linked, Filled;
      Relink(prev, next, k);
      FilledKept();
    }

    /** What is in the blocks does not depend on the lists they are on. */
    twostate lemma FilledKept()
      requires old(Filled()) && preAlloc == old(preAlloc) && regions == old(regions) && old(heap) <= heap
      requires forall b <- old(heap) :: b.left == old(b.left)
      requires forall b <- heap :: b in old(heap) || BlockOk(b)
      ensures Filled()
    {
    }

    /** ma_init_alloc_root. Without memory for the first block there is just no first block. */
    constructor (size: nat, preAllocSize: nat, memory: bool)
      requires size < WRAP && preAllocSize + SIZEOF_USED_MEM < WRAP
      ensures Valid() && regions == [] && usedList == [] && fresh(heap) && |freeList| <= 1
      ensures preAlloc != null <==> preAllocSize > 0 && memory
      ensures preAlloc == After(freeList, 0) && (preAlloc != null ==> preAlloc.left == preAllocSize)
      ensures blockSize < WRAP && (size >= 24 ==> blockSize == size - 24) && blockNum == 4 && firstBlockUsage == 0
    {
      used, free, preAlloc := null, null, null;
      blockSize := (size - MALLOC_OVERHEAD - SIZEOF_USED_MEM + 8) % WRAP;
      blockNum, firstBlockUsage := 4, 0;
      freeList, usedList, regions, heap := [], [], [], {};
      new;
      if preAllocSize > 0 {
        var b := Malloc(preAllocSize + SIZEOF_USED_MEM, memory);
        if b != null {
          free, preAlloc := b, b;
          b.left := preAllocSize;
          b.next := null;
          freeList, heap := [b], {b};
        }
      }
    }

    /** The first block on the free list with room, and the link that leads to it. */
    method Find(size: nat) returns (prev: UsedMem?, next: UsedMem?, ghost k: nat)
      requires Valid()
      ensures At(prev, next, k) && (next != null ==> next.left >= size)
      ensures forall i :: 0 <= i < k ==> freeList[i].left < size
    {
      prev, next, k := null, free, 0;
      while next != null && next.left < size
        invariant At(prev, next, k)
        invariant forall i :: 0 <= i < k ==> freeList[i].left < size
        decreases |freeList| - k
      {
        prev := next;
        next := next.next;
        k := k + 1;
      }
    }

    /** What a new block has when the request is not longer: more with every four blocks. */
    function Grown(): nat
      reads `blockSize, `blockNum
    {
      blockSize / 2 * 2 * (blockNum / 4) % WRAP
    }

    /** The length of a new block always holds the request. */
    function BlockLength(size: nat): (getSize: nat)
      reads `blockSize, `blockNum
      ensures getSize >= size + SIZEOF_USED_MEM && getSize >= Grown()
      ensures getSize == size + SIZEOF_USED_MEM || getSize == Grown()
    {
      if Grown() < size + SIZEOF_USED_MEM then size + SIZEOF_USED_MEM else Grown()
    }

    /** Appends a new block with room for `size` bytes to the free list, if there is memory. */
    method AddBlock(prev: UsedMem?, size: nat, memory: bool) returns (next: UsedMem?)
      requires Valid() && At(prev, null, |freeList|) && size % 8 == 0 && size + SIZEOF_USED_MEM < WRAP
      modifies `free, `freeList, `heap, `blockNum, freeList
      ensures Valid() && (next != null <==> memory)
      ensures forall b <- old(heap) :: b.left == old(b.left)
      ensures next == null ==> freeList == old(freeList) && heap == old(heap) && blockNum == old(blockNum)
      ensures next != null ==> fresh(next) && freeList == old(freeList) + [next] && heap == old(heap) + {next}
      ensures next != null ==> next.size == old(BlockLength(size)) && next.left == next.size - SIZEOF_USED_MEM
      ensures next != null ==> blockNum == (old(blockNum) + 1) % WRAP32
    {
      NoneBehind(prev);
      hide *;
      next := NewBlock(prev, size, memory);
      if next != null {
        Append(prev, next);
      }
    }

    /** A block with room for `size` bytes that links to what `prev` links to. */
    method NewBlock(prev: UsedMem?, size: nat, memory: bool) returns (next: UsedMem?)
      requires size % 8 == 0 && size + SIZEOF_USED_MEM < WRAP
      modifies `blockNum
      ensures next != null <==> memory
      ensures next == null ==> blockNum == old(blockNum)
      ensures next != null ==> fresh(next) && BlockOk(next) && blockNum == (old(blockNum) + 1) % WRAP32
      ensures next != null ==> next.size == old(BlockLength(size)) && next.left == next.size - SIZEOF_USED_MEM
      ensures next != null ==> next.next == if prev == null then free else prev.next
    {
      var getSize := BlockLength(size);
      next := Malloc(getSize, memory);
      if next != null {
        blockNum := (blockNum + 1) % WRAP32;
        next.next := if prev == null then free else prev.next;
        next.left := getSize - SIZEOF_USED_MEM;
      }
    }

    lemma NoneBehind(prev: UsedMem?)
      requires Valid() && At(prev, null, |freeList|)
      ensures (if prev == null then free else prev.next) == null
    {
    }

    /** Makes a new block the last one of the free list. */
    method Append(prev: UsedMem?, next: UsedMem)
      requires Valid() && At(prev, null, |freeList|) && next !in heap && BlockOk(next) && next.next == null
      modifies `free, `freeList, `heap, freeList
      ensures Valid() && freeList == old(freeList) + [next] && heap == old(heap) + {next}
      ensures next.left == old(next.left) && forall b <- old(heap) :: b.left == old(b.left)
    {
      hide *;
      Appending(prev, next);
      LinkLast(prev, next);
      heap := heap + {next};
      NowLinked();
      FilledKept();
      NowValid();
    }

    lemma Appending(prev: UsedMem?, next: UsedMem)
      requires Valid() && At(prev, null, |freeList|) && next !in heap
      ensures Chain(free, freeList) && Chain(used, usedList) && Distinct(freeList) && Distinct(usedList) && Filled()
      ensures prev != null ==> prev in freeList && prev in heap
      ensures prev !in usedList && next !in freeList && next !in usedList
      ensures Distinct(freeList + [next]) && Elements(freeList + [next]) !! Elements(usedList)
      ensures Elements(freeList + [next]) + Elements(usedList) == heap + {next}
    {
      Added(freeList, next);
      hide Distinct, Chain, Filled;
      assert prev != null ==> prev in Elements(freeList);
    }

    lemma NowLinked()
      requires Chain(free, freeList) && Chain(used, usedList) && Distinct(freeList) && Distinct(usedList)
      requires Elements(freeList) !! Elements(usedList) && heap == Elements(freeList) + Elements(usedList)
      ensures Linked()
    {
    }

    lemma NowValid()
      requires Linked() && Filled()
      ensures Valid()
    {
    }

    method LinkLast(prev: UsedMem?, next: UsedMem)
      requires Chain(free, freeList) && Distinct(freeList) && At(prev, null, |freeList|)
      requires next !in freeList && next.next == null
      modifies `free, `freeList, if prev == null then {} else {prev}
      ensures freeList == old(freeList) + [next] && Chain(free, freeList)
      ensures prev != null ==> prev.left == old(prev.left)
    {
      ghost var fl := freeList;
      SetLink(prev, next);
      freeList := fl + [next];
      forall i | 0 <= i < |freeList| ensures freeList[i].next == After(freeList, i + 1) {
        assert i < |fl| ==> freeList[i] == fl[i];
      }
    }

    /** The first block goes out of use when it has little left and was too small sixteen times. */
    method GiveUpFirst(size: nat)
      requires Valid()
      modifies `free, `used, `freeList, `usedList, `firstBlockUsage, freeList
      ensures Valid() && forall b <- heap :: b.left == old(b.left)
      ensures var tooSmall := old(freeList != [] && freeList[0].left < size);
        if tooSmall && old(firstBlockUsage >= 16 && freeList[0].left < 4096) then
          freeList == old(freeList)[1..] && usedList == old([freeList[0]] + usedList) && firstBlockUsage == 0
        else
          && freeList == old(freeList) && usedList == old(usedList)
          && firstBlockUsage == if tooSmall then (old(firstBlockUsage) + 1) % WRAP32 else old(firstBlockUsage)
    {
      if free != null && free.left < size {
        var was := firstBlockUsage;
        firstBlockUsage := (firstBlockUsage + 1) % WRAP32;
        if was >= 16 && free.left < 4096 {
          Retire(null, free, 0);
          firstBlockUsage := 0;
        }
      }
    }

    lemma OnList(prev: UsedMem?, next: UsedMem, k: nat)
      requires Valid() && At(prev, next, k)
      ensures next in heap && BlockOk(next)
    {
      assert next in Elements(freeList);
    }

    /** Cuts a region off the front of what is left of a block. */
    method Cut(next: UsedMem, size: nat) returns (point: nat)
      requires Valid() && next in heap && size % 8 == 0 && size <= next.left && BlockOk(next)
      modifies `regions, next`left
      ensures Valid() && regions == old(regions) + [Region(next, point, size)]
      ensures point == next.size - old(next.left)
      ensures next.left == old(next.left) - size
    {
      hide Distinct, Elements, After;
      point := next.size - next.left;
      ghost var region := Region(next, point, size);
      assert forall i :: 0 <= i < |regions| ==> Disjoint(regions[i], region) && Placed(regions[i]);
      next.left := next.left - size;
      regions := regions + [region];
      assert Linked();
      hide Linked, Disjoint, Chain;
      assert forall b <- heap :: BlockOk(b);
      assert Placed(region);
      hide BlockOk;
      assert forall i :: 0 <= i < |regions| ==> regions[i].block in heap && Placed(regions[i]);
    }

    method Carve(prev: UsedMem?, next: UsedMem, ghost k: nat, size: nat) returns (point: nat)
      requires Valid() && At(prev, next, k) && size % 8 == 0 && size <= next.left
      modifies `free, `used, `freeList, `usedList, `regions, `firstBlockUsage, next, if prev == null then {} else {prev}
      ensures Valid() && regions == old(regions) + [Region(next, point, size)]
      ensures point == next.size - old(next.left)
      ensures forall b <- heap :: b != next ==> b.left == old(b.left)
      ensures next in heap && next.left == old(next.left) - size
      ensures freeList == if next.left < MIN_MALLOC then old(freeList[..k] + freeList[k + 1..]) else old(freeList)
    {
      hide *;
      OnList(prev, next, k);
      point := Cut(next, size);
      RetireIfFull(prev, next, k);
    }

    /** A block with too little left goes to the used list. */
    method RetireIfFull(prev: UsedMem?, next: UsedMem, ghost k: nat)
      requires Valid() && At(prev, next, k)
      modifies `free, `used, `freeList, `usedList, `firstBlockUsage, next, if prev == null then {} else {prev}
      ensures Valid() && forall b <- heap :: b.left == old(b.left)
      ensures freeList == if old(next.left) < MIN_MALLOC then old(freeList[..k] + freeList[k + 1..]) else old(freeList)
    {
      hide *;
      if next.left < MIN_MALLOC {
        Retire(prev, next, k);
        firstBlockUsage := 0;
      }
    }

    /** The first block of the list that had room for `size` bytes. */
    twostate predicate FirstRoom(size: nat, new next: UsedMem)
      reads this, freeList
    {
      exists k :: 0 <= k < |old(freeList)| && old(freeList[k]) == next && old(freeList[k].left) >= size
        && forall i :: 0 <= i < k ==> old(freeList[i].left) < size
    }

    /** A block with room for `size` bytes: the first one on the free list, or a new one when
        there is none. */
    method FindOrAdd(size: nat, memory: bool) returns (prev: UsedMem?, next: UsedMem?, ghost k: nat)
      requires Valid() && size % 8 == 0 && size + SIZEOF_USED_MEM < WRAP
      modifies `free, `used, `freeList, `usedList, `heap, `blockNum, `firstBlockUsage, freeList
      ensures Valid() && (next == null ==> heap == old(heap))
      ensures next != null ==> next in old(freeList) || fresh(next)
      ensures next != null && prev != null ==> prev in old(freeList)
      ensures next != null ==> At(prev, next, k) && next.left >= size && next in heap
      ensures next != null && next in old(heap) ==>
        heap == old(heap) && next.left == old(next.left) && FirstRoom(size, next)
      ensures next != null && next !in old(heap) ==>
        && fresh(next) && heap == old(heap) + {next}
        && next.size == old(BlockLength(size)) && next.left == next.size - SIZEOF_USED_MEM
      ensures next == null || next !in old(heap) <==> forall b <- old(freeList) :: old(b.left) < size
      ensures next == null <==> !memory && forall b <- old(freeList) :: old(b.left) < size
    {
      hide Valid, BlockOk;
      OnHeap();
      GiveUpFirst(size);
      assert forall b <- old(freeList) :: b.left == old(b.left);
      assert forall b <- old(freeList) :: b in freeList || b.left < size;
      prev, next, k := Find(size);
      if next == null {
        next := AddBlock(prev, size, memory);
        assert next != null ==> next !in old(heap);
      } else {
        ghost var j := if freeList == old(freeList) then k else k + 1;
        assert old(freeList[j]) == next;
      }
      if next != null {
        OnList(prev, next, k);
      }
    }

    /** ma_alloc_root: a region of the requested length, rounded up to a multiple of eight, from the
        first block with room, else from a new block; nothing exactly when that is refused. */
    method Alloc(request: nat, memory: bool) returns (r: Option<Region>)
      requires Valid() && request <= WRAP - 32
      modifies this, freeList
      ensures Valid() && preAlloc == old(preAlloc)
      ensures r.None? <==> !memory && forall b <- old(freeList) :: old(b.left) < AlignSize(request)
      ensures r.None? ==> regions == old(regions) && heap == old(heap)
      ensures r.Some? ==> regions == old(regions) + [r.value] && r.value.length == AlignSize(request)
      ensures r.Some? ==> r.value.block.left == r.value.block.size - r.value.start - r.value.length
      ensures r.Some? && r.value.block in old(heap) ==>
        && heap == old(heap) && FirstRoom(AlignSize(request), r.value.block)
        && r.value.start == r.value.block.size - old(r.value.block.left)
      ensures r.Some? && r.value.block !in old(heap) ==>
        && fresh(r.value.block) && heap == old(heap) + {r.value.block} && r.value.start == SIZEOF_USED_MEM
        && r.value.block.size == old(BlockLength(AlignSize(request)))
      ensures r.None? || r.value.block !in old(heap) <==> forall b <- old(freeList) :: old(b.left) < AlignSize(request)
    {
      hide Chain, Distinct, Elements, Filled, Linked, After, AlignSize, At;
      var size := AlignSize(request);
      var prev, next;
      ghost var k;
      prev, next, k := FindOrAdd(size, memory);
      if next == null {
        return None;
      }
      var point := Carve(prev, next, k, size);
      r := Some(Region(next, point, size));
    }

    twostate lemma OnHeap()
      requires old(Valid())
      ensures forall b <- old(freeList) :: b in old(heap)
    {
      assert forall b <- old(freeList) :: b in Elements(old(freeList));
    }

    /** free: gives a block back, which must not have been given back before. */
    ghost method Free(b: UsedMem)
      requires b in heap
      modifies `heap
      ensures heap == old(heap) - {b}
    {
      heap := heap - {b};
    }

    /** Frees the blocks of a list, except the first block if it is to be kept. */
    method FreeList(head: UsedMem?, ghost s: seq<UsedMem>)
      requires Chain(head, s) && Distinct(s) && Elements(s) <= heap
      modifies `heap
      ensures heap == old(heap) - (Elements(s) - if preAlloc == null then {} else {preAlloc})
    {
      var next := head;
      ghost var i := 0;
      while next != null
        invariant i <= |s| && next == After(s, i)
        invariant Elements(s[i..]) <= heap
        invariant heap == old(heap) - (Elements(s[..i]) - if preAlloc == null then {} else {preAlloc})
        decreases |s| - i
      {
        var old' := next;
        next := next.next;
        assert s[i..] == [old'] + s[i + 1..] && s[..i + 1] == s[..i] + [old'];
        assert Elements(s[..i + 1]) == Elements(s[..i]) + {old'};
        if old' != preAlloc {
          Free(old');
        }
        i := i + 1;
      }
      assert s[..i] == s;
    }

    /** ma_free_root: every block is freed exactly once, apart from the first one if it is kept
        for reuse. */
    method FreeRoot(keepPrealloc: bool)
      requires Valid()
      modifies this, freeList, usedList
      ensures Valid() && regions == [] && usedList == []
      ensures preAlloc == if keepPrealloc then old(preAlloc) else null
      ensures heap == if preAlloc == null then {} else {preAlloc}
      ensures preAlloc != null ==> freeList == [preAlloc] && preAlloc.left == preAlloc.size - SIZEOF_USED_MEM
    {
      if !keepPrealloc {
        preAlloc := null;
      }
      FreeList(used, usedList);
      FreeList(free, freeList);
      Reset();
    }

    method Reset()
      requires heap == if preAlloc == null then {} else {preAlloc}
      requires preAlloc != null ==> preAlloc.size >= SIZEOF_USED_MEM
      modifies `free, `used, `freeList, `usedList, `regions, if preAlloc == null then {} else {preAlloc}
      ensures Valid() && regions == [] && usedList == []
      ensures preAlloc != null ==> freeList == [preAlloc] && preAlloc.left == preAlloc.size - SIZEOF_USED_MEM
    {
      used, free := null, null;
      usedList, freeList, regions := [], [], [];
      if preAlloc != null {
        free := preAlloc;
        free.left := preAlloc.size - SIZEOF_USED_MEM;
        free.next := null;
        freeList := [preAlloc];
        assert Elements(freeList) == {preAlloc};
      }
    }
  }

  /** The first request of a new arena: with memory, eight bytes behind the header of a block of
      8168 bytes; without, nothing. */
  method FirstRequest(memory: bool) returns (r: Option<Region>)
    ensures r.Some? <==> memory
    ensures r.Some? ==> r.value.start == 24 && r.value.length == 8 && r.value.block.size == 8168
  {
    var root := new MemRoot(8192, 0, true);
    assert root.Grown() == 8168;
    r := root.Alloc(8, memory);
  }
}
