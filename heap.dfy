/** The allocator: its global state (the list, the next-fit cursor, the program break) and the
    operations findFreeBlock, growHeap, malloc and free. */
module Allocator {
  import opened Layout
  import opened Blocks
  import opened Placement
  import opened Coalesce

  /** What free() does with a pointer: nothing for NULL, abort on the assertion against a double
      free, or release the block. */
  datatype FreeOutcome = Ignored | DoubleFree | Released

  /** Every record's header lies below the program break. */
  ghost predicate Below(bs: seq<Block>, brk: int)
  {
    forall j :: 0 <= j < |bs| ==> bs[j].addr < brk
  }

  /** The header map names, for each header address, the record whose header sits there, and nothing else. */
  ghost predicate Indexed(bs: seq<Block>, header: map<int, nat>)
  {
    && (forall j :: 0 <= j < |bs| ==> bs[j].addr in header && header[bs[j].addr] == j)
    && (forall a :: a in header ==> header[a] < |bs| && bs[header[a]].addr == a)
  }

  /** The allocator's state is well formed: the list is linked forward from the head and lists ids,
      the cursor names a record, the listed blocks tile the memory from base to the break, and the
      header map finds every record from its header address. */
  ghost predicate Wf(bs: seq<Block>, head: Ref, ids: seq<nat>, temp: Ref, base: int, brk: int, header: map<int, nat>)
  {
    && ForwardLinks(bs) && Listed(bs, head, ids)
    && Points(bs, temp)
    && (ids == [] <==> bs == [])
    && Tiles(ViewOf(bs, ids), base, brk)
    && Below(bs, brk)
    && Indexed(bs, header)
  }

  /** Setting a free flag and moving the cursor to another record keeps the state well formed. */
  lemma MarkedWf(bs: seq<Block>, head: Ref, ids: seq<nat>, temp: Ref, base: int, brk: int, header: map<int, nat>,
                 i: nat, f: bool, temp': Ref)
    requires Wf(bs, head, ids, temp, base, brk, header) && i < |bs| && Points(bs, temp')
    ensures Wf(Marked(bs, i, f), head, ids, temp', base, brk, header)
  {
    MarkedListed(bs, head, ids, i, f);
    SameAddressesIndexed(bs, Marked(bs, i, f), header, brk);
    TilesIgnoresFlags(ViewOf(bs, ids), ViewOf(Marked(bs, i, f), ids), base, brk);
  }

  /** A record placed at the break gets a fresh header address. */
  lemma AppendedIndexed(bs: seq<Block>, header: map<int, nat>, brk: int, tail: Ref, b: Block)
    requires Indexed(bs, header) && Below(bs, brk) && Points(bs, tail) && b.addr == brk
    ensures Indexed(Appended(bs, tail, b), header[brk := |bs|])
    ensures forall m :: m > brk ==> Below(Appended(bs, tail, b), m)
  {
    assert brk !in header;
  }

  /** Changing only sizes, flags and links keeps every header where it was. */
  lemma SameAddressesIndexed(bs: seq<Block>, bs': seq<Block>, header: map<int, nat>, brk: int)
    requires Indexed(bs, header) && Below(bs, brk)
    requires |bs'| == |bs| && forall j :: 0 <= j < |bs| ==> bs'[j].addr == bs[j].addr
    ensures Indexed(bs', header) && Below(bs', brk)
  {
  }

  /** Appending a record after the tail adds its span at the end of the memory view. */
  lemma AppendedView(bs: seq<Block>, ids: seq<nat>, tail: Ref, b: Block)
    requires InRange(bs, ids) && Points(bs, tail)
    ensures InRange(Appended(bs, tail, b), ids + [|bs|])
    ensures ViewOf(Appended(bs, tail, b), ids + [|bs|]) == ViewOf(bs, ids) + [SpanOf(b)]
  {
    var bs' := Appended(bs, tail, b);
    var ids' := ids + [|bs|];
    assert InRange(bs', ids') by {
      forall j | 0 <= j < |ids'|
        ensures ids'[j] < |bs'|
      {
        if j < |ids| {
          assert ids'[j] == ids[j];
        }
      }
    }
    var w := ViewOf(bs', ids');
    var v := ViewOf(bs, ids) + [SpanOf(b)];
    forall j | 0 <= j < |w|
      ensures w[j] == v[j]
    {
      if j < |ids| {
        assert ids'[j] == ids[j];
      }
    }
  }

  /** growHeap keeps the state well formed: the new record, placed at the break and linked after the
      tail, extends the list, the tiling and the header map. */
  lemma AppendedWf(bs: seq<Block>, head: Ref, ids: seq<nat>, temp: Ref, base: int, brk: int, header: map<int, nat>,
                   size: nat)
    requires Wf(bs, head, ids, temp, base, brk, header)
    ensures var tail := LastBefore(ids, |ids|, Null);
      var b := Block(brk, size, false, Null);
      && Wf(Appended(bs, tail, b), if head == Null then Rec(|bs|) else head, ids + [|bs|], temp, base,
            brk + H + size, header[brk := |bs|])
      && ViewOf(Appended(bs, tail, b), ids + [|bs|]) == ViewOf(bs, ids) + [SpanOf(b)]
  {
    var tail := LastBefore(ids, |ids|, Null);
    var b := Block(brk, size, false, Null);
    AppendedListed(bs, head, ids, b);
    AppendedIndexed(bs, header, brk, tail, b);
    AppendedView(bs, ids, tail, b);
    TilesAppend(ViewOf(bs, ids), base, brk, SpanOf(b));
  }

  class Heap {
    /** The placement strategy the allocator is built with. */
    const fit: Fit
    /** The program break when the allocator starts: the first header goes there. */
    const base: nat
    /** Every descriptor record ever created, in creation order. Records that coalescing unlinked stay
        here with their stale links: they are only cut out of the list. */
    var blocks: seq<Block>
    /** The first record of the list (freeList); it never changes once set. */
    var freeList: Ref
    /** The next-fit cursor (temp): `*last` of the previous successful malloc. */
    var temp: Ref
    /** The program break: the end of the memory obtained so far. */
    var brk: int
    /** Which record's header sits at each header address: the memory BLOCK_HEADER reads. */
    var header: map<int, nat>
    /** The records reachable from freeList, in list order. */
    ghost var order: seq<nat>

    /** The list is well formed: links only go forward and `order` is what a walk from the head meets. */
    ghost predicate Linked()
      reads this
    {
      ForwardLinks(blocks) && Listed(blocks, freeList, order)
    }

    /** The allocator's state is well formed (see Wf). */
    ghost predicate Valid()
      reads this
    {
      Wf(blocks, freeList, order, temp, base, brk, header)
    }

    /** The listed blocks as memory, in list order. */
    ghost function View(): seq<Span>
      reads this
      requires Valid()
    {
      ViewOf(blocks, order)
    }

    /** The last listed record, or NULL when nothing has been allocated yet. */
    ghost function Tail(): Ref
      reads this
      requires Valid()
    {
      LastBefore(order, |order|, Null)
    }

    /** An allocator whose list is empty, with the program break at `base`. */
    constructor (fit: Fit, base: nat)
      ensures Valid()
      ensures this.fit == fit && this.base == base
      ensures blocks == [] && freeList == Null && temp == Null && brk == base && header == map[]
    {
      this.fit := fit;
      this.base := base;
      blocks := [];
      freeList := Null;
      temp := Null;
      brk := base;
      header := map[];
      order := [];
    }

    /** The accounting every reachable state keeps: the listed blocks, headers included, use exactly
        the memory between base and the break, the first starting at base and each one ending
        where the next one's header begins. */
    lemma Accounting()
      requires Valid()
      ensures Bytes(View()) == brk - base
      ensures View() != [] ==> View()[0].addr == base
      ensures forall k :: 0 <= k < |View()| - 1 ==> View()[k].addr + H + View()[k].size == View()[k + 1].addr
    {
      TilesBytes(View(), base, brk);
      forall k | 0 <= k < |View()| - 1
        ensures View()[k].addr + H + View()[k].size == View()[k + 1].addr
      {
        TilesContiguous(View(), base, brk, k);
      }
    }

    /** findFreeBlock built with FIT: the first free block that is large enough. */
    method FirstFitSearch(last0: Ref, size: nat) returns (r: Ref, last: Ref)
      requires Linked()
      ensures Found(r, last) == FirstFitChoice(blocks, order, size, last0)
    {
      var curr := freeList;
      last := last0;
      ghost var k := 0;
      while curr != Null && !(blocks[curr.i].free && blocks[curr.i].size >= size)
        invariant 0 <= k <= |order| && curr == RefAt(order, k)
        invariant last == LastBefore(order, k, last0)
        invariant forall j :: 0 <= j < k ==> !Accepts(Fitting(size), blocks[order[j]])
        decreases |order| - k
      {
        last := curr;
        curr := blocks[curr.i].next;
        k := k + 1;
      }
      FirstWhereIs(blocks, order, Fitting(size), k);
      r := curr;
    }

    /** findFreeBlock built with BEST: an exact fit at once, else the least surplus below Cap,
        found again by a rescan from the head. */
    method BestFitSearch(last0: Ref, size: nat) returns (r: Ref, last: Ref)
      requires Linked()
      ensures Found(r, last) == BestFitChoice(blocks, order, size, last0)
    {
      var bs := blocks;
      ghost var ids := order;
      var dif := Cap;
      var curr := freeList;
      last := last0;
      ghost var k := 0;
      while curr != Null
        invariant 0 <= k <= |ids| && curr == RefAt(ids, k)
        invariant last == LastBefore(ids, k, last0)
        invariant forall j :: 0 <= j < k ==> !Accepts(ExactFree(size), bs[ids[j]])
        invariant dif == BestSurplus(bs, ids, k, size)
        decreases |ids| - k
      {
        var b := bs[curr.i];
        if b.free {
          if b.size == size {
            FirstWhereIs(bs, ids, ExactFree(size), k);
            return curr, last;
          }
          if b.size > size {
            if b.size - size < dif {
              dif := b.size - size;
            }
          }
        }
        last := curr;
        curr := b.next;
        k := k + 1;
      }
      FirstWhereIs(bs, ids, ExactFree(size), k);
      r := Null;
      if dif != Cap {
        ghost var w := BestSurplusAttained(bs, ids, |ids|, size);
        r := Rescan(size + dif, w);
      }
    }

    /** findFreeBlock built with WORST: the greatest positive surplus, found again by a rescan from the head. */
    method WorstFitSearch(last0: Ref, size: nat) returns (r: Ref, last: Ref)
      requires Linked()
      ensures Found(r, last) == WorstFitChoice(blocks, order, size, last0)
    {
      var bs := blocks;
      ghost var ids := order;
      var dif := 0;
      var curr := freeList;
      last := last0;
      ghost var k := 0;
      while curr != Null
        invariant 0 <= k <= |ids| && curr == RefAt(ids, k)
        invariant last == LastBefore(ids, k, last0)
        invariant dif == WorstSurplus(bs, ids, k, size)
        decreases |ids| - k
      {
        var b := bs[curr.i];
        if b.free {
          if b.size > size {
            if b.size - size > dif {
              dif := b.size - size;
            }
          }
        }
        last := curr;
        curr := b.next;
        k := k + 1;
      }
      r := Null;
      if dif != 0 {
        ghost var w := WorstSurplusAttained(bs, ids, |ids|, size);
        r := Rescan(size + dif, w);
      }
    }

    /** The second loop of best and worst fit: from the head, the first block whose size is `target`.
        It does not test for the end of the list, and need not: some listed block has that size. */
    method Rescan(target: nat, ghost w: nat) returns (r: Ref)
      requires Linked()
      requires w < |order| && blocks[order[w]].size == target
      ensures r == RefAt(order, FirstWhere(blocks, order, OfSize(target)))
      ensures r != Null
    {
      var curr := freeList;
      ghost var k := 0;
      while blocks[curr.i].size != target
        invariant 0 <= k <= w && curr == Rec(order[k])
        invariant forall j :: 0 <= j < k ==> !Accepts(OfSize(target), blocks[order[j]])
        decreases w - k
      {
        curr := blocks[curr.i].next;
        k := k + 1;
      }
      FirstWhereIs(blocks, order, OfSize(target), k);
      r := curr;
    }

    /** One loop of next fit: from `start` along the links, return the first free block that is
        large enough, updating `*last` on every step past a block. */
    method FitScan(start: Ref, ghost chain: seq<nat>, last0: Ref, size: nat) returns (r: Ref, last: Ref)
      requires ForwardLinks(blocks) && Listed(blocks, start, chain)
      ensures Found(r, last) == FirstFitChoice(blocks, chain, size, last0)
    {
      var bs := blocks;
      var curr := start;
      last := last0;
      ghost var k := 0;
      while curr != Null
        invariant 0 <= k <= |chain| && curr == RefAt(chain, k)
        invariant last == LastBefore(chain, k, last0)
        invariant forall j :: 0 <= j < k ==> !Accepts(Fitting(size), bs[chain[j]])
        decreases |chain| - k
      {
        if bs[curr.i].free && bs[curr.i].size >= size {
          FirstWhereIs(bs, chain, Fitting(size), k);
          return curr, last;
        }
        last := curr;
        curr := bs[curr.i].next;
        k := k + 1;
      }
      FirstWhereIs(bs, chain, Fitting(size), k);
      r := Null;
    }

    /** findFreeBlock built with NEXT: from the cursor to the end of its chain, then once more from the head. */
    method NextFitSearch(last0: Ref, size: nat) returns (r: Ref, last: Ref)
      requires Linked() && Points(blocks, temp)
      ensures Found(r, last) == NextFitChoice(blocks, order, temp, size, last0)
    {
      ChainIsListed(blocks, temp);
      r, last := FitScan(temp, Chain(blocks, temp), last0, size);
      if r == Null {
        r, last := FitScan(freeList, order, last, size);
      }
    }

    /** findFreeBlock: the search of the strategy the allocator is built with. */
    method FindFreeBlock(last0: Ref, size: nat) returns (r: Ref, last: Ref)
      requires Valid() && Points(blocks, last0)
      ensures Found(r, last) == Choose(fit, blocks, order, temp, size, last0)
    {
      match fit
      case FirstFit => r, last := FirstFitSearch(last0, size);
      case BestFit => r, last := BestFitSearch(last0, size);
      case WorstFit => r, last := WorstFitSearch(last0, size);
      case NextFit => r, last := NextFitSearch(last0, size);
    }

    /** growHeap: move the break past a new header and `size` payload bytes, and append a record
        there after `last`. `ok` says whether the system granted the memory. */
    method GrowHeap(last: Ref, size: nat, ok: bool) returns (r: Ref)
      requires Valid() && last == Tail()
      modifies this
      ensures Valid()
      ensures !ok ==> r == Null && unchanged(this)
      ensures ok ==>
        && r == Rec(old(|blocks|))
        && blocks == Appended(old(blocks), last, Block(old(brk), size, false, Null))
        && order == old(order) + [old(|blocks|)]
        && View() == old(View()) + [Span(old(brk), size, false)]
        && brk == old(brk) + H + size
        && header == old(header)[old(brk) := old(|blocks|)]
        && freeList == (if old(freeList) == Null then r else old(freeList))
        && temp == old(temp)
    {
      if !ok {
        return Null;
      }
      AppendedWf(blocks, freeList, order, temp, base, brk, header, size);
      ghost var grown := Appended(blocks, last, Block(brk, size, false, Null));
      var curr := |blocks|;
      if freeList == Null {
        freeList := Rec(curr);
      }
      if last != Null {
        blocks := blocks[last.i := blocks[last.i].(next := Rec(curr))];
      }
      blocks := blocks + [Block(brk, size, false, Null)];
      assert blocks == grown;
      header := header[brk := curr];
      order := order + [curr];
      brk := brk + H + size;
      r := Rec(curr);
    }

    /** malloc: align the request, search, grow on a miss, mark the block in use and return its payload. */
    method Malloc(n: SizeT, grows: bool) returns (p: int)
      requires Valid()
      modifies this
      ensures Valid()
      ensures var a := Align4(n);
              var c := old(Choose(fit, blocks, order, temp, a, freeList));
        if a == 0 || (c.block == Null && !grows) then
          p == NULL && unchanged(this)
        else if c.block != Null then
          && p == BlockData(old(blocks)[c.block.i].addr)
          && blocks == old(blocks)[c.block.i := old(blocks)[c.block.i].(free := false)]
          && order == old(order) && brk == old(brk) && header == old(header)
          && freeList == old(freeList) && temp == c.last
        else
          && p == BlockData(old(brk))
          && blocks == Appended(old(blocks), c.last, Block(old(brk), a, false, Null))
          && order == old(order) + [old(|blocks|)]
          && brk == old(brk) + H + a
          && header == old(header)[old(brk) := old(|blocks|)]
          && freeList == (if old(freeList) == Null then Rec(old(|blocks|)) else old(freeList))
          && temp == c.last
      ensures p != NULL ==>
        && BlockHeader(p) in header
        && !blocks[header[BlockHeader(p)]].free
        && n <= Align4(n) <= blocks[header[BlockHeader(p)]].size
    {
      var size := Align4(n);
      if size == 0 {
        return NULL;
      }
      var last := freeList;
      var next;
      next, last := FindFreeBlock(last, size);
      if next == Null {
        next := GrowHeap(last, size, grows);
      }
      if next == Null {
        return NULL;
      }
      MarkedWf(blocks, freeList, order, temp, base, brk, header, next.i, false, last);
      blocks := blocks[next.i := blocks[next.i].(free := false)];
      temp := last;
      p := BlockData(blocks[next.i].addr);
    }

    /** free: ignore NULL, abort on a block already free, else mark it free and run one coalescing
        sweep from the head. */
    method Free(ptr: int) returns (outcome: FreeOutcome)
      requires Valid()
      requires ptr == NULL || BlockHeader(ptr) in header
      modifies this
      ensures Valid()
      ensures ptr == NULL ==> outcome == Ignored && unchanged(this)
      ensures ptr != NULL && old(blocks[header[BlockHeader(ptr)]].free) ==>
        outcome == DoubleFree && unchanged(this)
      ensures ptr != NULL && !old(blocks[header[BlockHeader(ptr)]].free) ==>
        var i := old(header[BlockHeader(ptr)]);
        var marked := old(blocks)[i := old(blocks)[i].(free := true)];
        && outcome == Released
        && View() == Sweep(ViewOf(marked, old(order)))
        && Reshaped(marked, old(order), blocks, order)
        && freeList == old(freeList) && temp == old(temp) && brk == old(brk) && header == old(header)
    {
      if ptr == NULL {
        return Ignored;
      }
      var i := header[BlockHeader(ptr)];
      if blocks[i].free {
        return DoubleFree;
      }
      MarkedWf(blocks, freeList, order, temp, base, brk, header, i, true, temp);
      blocks := blocks[i := blocks[i].(free := true)];
      ghost var v0 := View();
      var bs;
      ghost var ids;
      bs, ids := SweepList(blocks, freeList, order);
      SweepTiles(v0, base, brk);
      SameAddressesIndexed(blocks, bs, header, brk);
      blocks := bs;
      order := ids;
      return Released;
    }
  }
}
