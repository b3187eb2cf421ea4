/** The descriptor records (struct _block), the links between them and the memory they tile. */
module Blocks {
  import opened Layout

  /** A reference to a descriptor record (a struct _block pointer): an index into the record table, or NULL. */
  datatype Ref = Null | Rec(i: nat)

  /** One descriptor record: where its header sits, its payload size, whether it is free,
      and the record that follows it. The prev field is never written and is not modelled. */
  datatype Block = Block(addr: int, size: nat, free: bool, next: Ref)

  /** The part of a record that describes memory: its address, payload size and free flag. */
  datatype Span = Span(addr: int, size: nat, free: bool)

  function SpanOf(b: Block): Span
  {
    Span(b.addr, b.size, b.free)
  }

  /** The k-th record of a walk, or NULL once the walk has ended. */
  function RefAt(ids: seq<nat>, k: nat): Ref
  {
    if k < |ids| then Rec(ids[k]) else Null
  }

  /** The value `*last` holds after a walk over ids stopped at position k, having started as last0. */
  function LastBefore(ids: seq<nat>, k: nat, last0: Ref): Ref
    requires k <= |ids|
  {
    if k == 0 then last0 else Rec(ids[k - 1])
  }

  /** Every index of ids names a record of the table. */
  predicate InRange(bs: seq<Block>, ids: seq<nat>)
  {
    forall j :: 0 <= j < |ids| ==> ids[j] < |bs|
  }

  /** The reference is NULL or names a record of the table. */
  predicate Points(bs: seq<Block>, p: Ref)
  {
    p == Null || p.i < |bs|
  }

  /** Every link points to a record created later: growth only appends after the tail, and a
      merge replaces a link by the absorbed record's link. So every walk ends. */
  predicate ForwardLinks(bs: seq<Block>)
  {
    forall j :: 0 <= j < |bs| && bs[j].next.Rec? ==> j < bs[j].next.i < |bs|
  }

  /** ids is the list that starts at p: each record linked to the next, the last one to NULL. */
  predicate Listed(bs: seq<Block>, p: Ref, ids: seq<nat>)
  {
    && InRange(bs, ids)
    && p == RefAt(ids, 0)
    && (forall j {:trigger bs[ids[j]]} :: 0 <= j < |ids| ==> bs[ids[j]].next == RefAt(ids, j + 1))
  }

  /** Forward links make every list run in creation order, so no record is listed twice. */
  lemma {:induction false} ListedIncreasing(bs: seq<Block>, p: Ref, ids: seq<nat>, j: nat, j': nat)
    requires ForwardLinks(bs) && Listed(bs, p, ids)
    requires j < j' < |ids|
    ensures ids[j] < ids[j']
    decreases j' - j
  {
    assert bs[ids[j]].next == Rec(ids[j + 1]);
    if j + 1 < j' {
      ListedIncreasing(bs, p, ids, j + 1, j');
    }
  }

  /** The records met by following links from p until NULL. */
  function Chain(bs: seq<Block>, p: Ref): (ids: seq<nat>)
    requires ForwardLinks(bs) && Points(bs, p)
    ensures InRange(bs, ids)
    ensures p == RefAt(ids, 0)
    decreases if p == Null then 0 else |bs| - p.i
  {
    if p == Null then [] else [p.i] + Chain(bs, bs[p.i].next)
  }

  /** The listed order is exactly what a walk from the head meets: the ghost order is the list. */
  lemma {:induction false} ListedIsChain(bs: seq<Block>, p: Ref, ids: seq<nat>)
    requires ForwardLinks(bs) && Listed(bs, p, ids)
    ensures Points(bs, p) && Chain(bs, p) == ids
    decreases |ids|
  {
    if ids != [] {
      var rest := ids[1..];
      assert Listed(bs, bs[ids[0]].next, rest) by {
        forall j | 0 <= j < |rest|
          ensures bs[rest[j]].next == RefAt(rest, j + 1)
        {
          assert bs[ids[j + 1]].next == RefAt(ids, j + 2);
        }
      }
      ListedIsChain(bs, bs[ids[0]].next, rest);
    }
  }

  /** Conversely, the records a walk meets form a list. */
  lemma {:induction false} ChainIsListed(bs: seq<Block>, p: Ref)
    requires ForwardLinks(bs) && Points(bs, p)
    ensures Listed(bs, p, Chain(bs, p))
    decreases if p == Null then 0 else |bs| - p.i
  {
    if p != Null {
      var rest := Chain(bs, bs[p.i].next);
      ChainIsListed(bs, bs[p.i].next);
      var ids := Chain(bs, p);
      assert ids == [p.i] + rest;
      forall j | 0 <= j < |ids|
        ensures bs[ids[j]].next == RefAt(ids, j + 1)
      {
        if j > 0 {
          assert ids[j] == rest[j - 1];
          assert bs[rest[j - 1]].next == RefAt(rest, j);
        }
      }
    }
  }

  /** The table after growHeap: `tail` (if any) linked to the new record b, which is added at the end. */
  function Appended(bs: seq<Block>, tail: Ref, b: Block): (r: seq<Block>)
    requires Points(bs, tail)
    ensures |r| == |bs| + 1 && r[|bs|] == b
    ensures tail != Null ==> r[tail.i].next == Rec(|bs|) && SpanOf(r[tail.i]) == SpanOf(bs[tail.i])
  {
    (if tail == Null then bs else bs[tail.i := bs[tail.i].(next := Rec(|bs|))]) + [b]
  }

  /** Appending changes no record other than the tail. */
  lemma AppendedKeepsOthers(bs: seq<Block>, tail: Ref, b: Block)
    requires Points(bs, tail)
    ensures forall j :: 0 <= j < |bs| && tail != Rec(j) ==> Appended(bs, tail, b)[j] == bs[j]
  {
  }

  /** The table with record i's free flag set to f. */
  function Marked(bs: seq<Block>, i: nat, f: bool): (r: seq<Block>)
    requires i < |bs|
    ensures |r| == |bs| && r[i].free == f
    ensures r[i].(free := bs[i].free) == bs[i]
  {
    bs[i := bs[i].(free := f)]
  }

  /** Marking one record changes no other record. */
  lemma MarkedKeepsOthers(bs: seq<Block>, i: nat, f: bool)
    requires i < |bs|
    ensures forall j :: 0 <= j < |bs| && j != i ==> Marked(bs, i, f)[j] == bs[j]
  {
  }

  /** The table after record i absorbs record n: i grows by n's header and payload and takes over n's link. */
  function Absorbed(bs: seq<Block>, i: nat, n: nat): (r: seq<Block>)
    requires i < |bs| && n < |bs|
    ensures |r| == |bs|
    ensures r[i].addr == bs[i].addr && r[i].free == bs[i].free && r[i].next == bs[n].next
    ensures H + r[i].size == (H + bs[i].size) + (H + bs[n].size)
  {
    bs[i := bs[i].(size := bs[i].size + bs[n].size + H, next := bs[n].next)]
  }

  /** A merge writes only the surviving record. */
  lemma AbsorbedKeepsOthers(bs: seq<Block>, i: nat, n: nat)
    requires i < |bs| && n < |bs|
    ensures forall j :: 0 <= j < |bs| && j != i ==> Absorbed(bs, i, n)[j] == bs[j]
  {
  }

  /** Appending a record after the tail extends the list by that record. */
  lemma AppendedListed(bs: seq<Block>, head: Ref, ids: seq<nat>, b: Block)
    requires ForwardLinks(bs) && Listed(bs, head, ids) && b.next == Null
    requires ids == [] ==> head == Null
    ensures var tail := LastBefore(ids, |ids|, Null);
      var bs' := Appended(bs, tail, b);
      && ForwardLinks(bs')
      && Listed(bs', if head == Null then Rec(|bs|) else head, ids + [|bs|])
  {
    var tail := LastBefore(ids, |ids|, Null);
    var bs' := Appended(bs, tail, b);
    var ids' := ids + [|bs|];
    forall j | 0 <= j < |ids'|
      ensures bs'[ids'[j]].next == RefAt(ids', j + 1)
    {
      if j + 1 < |ids| {
        ListedIncreasing(bs, head, ids, j, |ids| - 1);
      }
    }
  }

  /** Setting a free flag changes no link. */
  lemma MarkedListed(bs: seq<Block>, head: Ref, ids: seq<nat>, i: nat, f: bool)
    requires ForwardLinks(bs) && Listed(bs, head, ids) && i < |bs|
    ensures ForwardLinks(Marked(bs, i, f)) && Listed(Marked(bs, i, f), head, ids)
  {
    var bs' := Marked(bs, i, f);
    forall j | 0 <= j < |ids|
      ensures bs'[ids[j]].next == RefAt(ids, j + 1)
    {
      assert bs'[ids[j]].next == bs[ids[j]].next;
    }
  }

  /** When the k-th listed record absorbs its successor, the successor drops out of the list. */
  lemma AbsorbedListed(bs: seq<Block>, head: Ref, ids: seq<nat>, k: nat)
    requires ForwardLinks(bs) && Listed(bs, head, ids) && k + 1 < |ids|
    ensures var bs' := Absorbed(bs, ids[k], ids[k + 1]);
      && ForwardLinks(bs')
      && Listed(bs', head, ids[..k + 1] + ids[k + 2..])
  {
    var bs' := Absorbed(bs, ids[k], ids[k + 1]);
    var ids' := ids[..k + 1] + ids[k + 2..];
    assert bs[ids[k]].next == Rec(ids[k + 1]);
    assert bs[ids[k + 1]].next == RefAt(ids, k + 2);
    forall j | 0 <= j < |ids'|
      ensures bs'[ids'[j]].next == RefAt(ids', j + 1)
    {
      if j < k {
        ListedIncreasing(bs, head, ids, j, k);
        assert ids'[j] == ids[j];
      } else if j > k {
        ListedIncreasing(bs, head, ids, k, j + 1);
        assert ids'[j] == ids[j + 1];
        assert bs[ids[j + 1]].next == RefAt(ids, j + 2);
      }
    }
    assert head == RefAt(ids', 0);
  }

  /** The memory view of the records ids lists, in list order. */
  function ViewOf(bs: seq<Block>, ids: seq<nat>): (s: seq<Span>)
    requires InRange(bs, ids)
    ensures |s| == |ids|
    ensures forall j :: 0 <= j < |ids| ==> s[j] == SpanOf(bs[ids[j]])
  {
    seq(|ids|, j requires 0 <= j < |ids| => SpanOf(bs[ids[j]]))
  }

  /** The spans tile [lo, hi): each header starts where the previous payload ends. */
  predicate Tiles(s: seq<Span>, lo: int, hi: int)
    decreases |s|
  {
    if s == [] then lo == hi else s[0].addr == lo && Tiles(s[1..], lo + H + s[0].size, hi)
  }

  /** Bytes taken by the spans, headers included. */
  function Bytes(s: seq<Span>): int
  {
    if s == [] then 0 else H + s[0].size + Bytes(s[1..])
  }

  /** Conservation: the listed blocks, headers included, account for every byte between the first address and the break. */
  lemma {:induction false} TilesBytes(s: seq<Span>, lo: int, hi: int)
    requires Tiles(s, lo, hi)
    ensures Bytes(s) == hi - lo
    decreases |s|
  {
    if s != [] {
      TilesBytes(s[1..], lo + H + s[0].size, hi);
    }
  }

  /** A block placed at the old end extends the tiling by its header and payload. */
  lemma {:induction false} TilesAppend(s: seq<Span>, lo: int, mid: int, x: Span)
    requires Tiles(s, lo, mid) && x.addr == mid
    ensures Tiles(s + [x], lo, mid + H + x.size)
    decreases |s|
  {
    if s == [] {
      assert [x][1..] == [];
    } else {
      assert (s + [x])[1..] == s[1..] + [x];
      TilesAppend(s[1..], lo + H + s[0].size, mid, x);
    }
  }

  /** Tiling reads only addresses and sizes, never the free flags. */
  lemma {:induction false} TilesIgnoresFlags(s: seq<Span>, t: seq<Span>, lo: int, hi: int)
    requires Tiles(s, lo, hi) && |s| == |t|
    requires forall j :: 0 <= j < |s| ==> s[j].addr == t[j].addr && s[j].size == t[j].size
    ensures Tiles(t, lo, hi)
    decreases |s|
  {
    if s != [] {
      TilesIgnoresFlags(s[1..], t[1..], lo + H + s[0].size, hi);
    }
  }

  /** In a tiling each block ends exactly where the next one's header begins. */
  lemma {:induction false} TilesContiguous(s: seq<Span>, lo: int, hi: int, k: nat)
    requires Tiles(s, lo, hi) && k + 1 < |s|
    ensures s[k].addr + H + s[k].size == s[k + 1].addr
    decreases k
  {
    if k > 0 {
      TilesContiguous(s[1..], lo + H + s[0].size, hi, k - 1);
    }
  }
}
