/** The coalescing sweep that free() runs over the list after marking a block free. */
module Coalesce {
  import opened Layout
  import opened Blocks

  /** The record that survives a merge: the earlier one, grown by the header and payload of the later one. */
  function Merge(a: Span, b: Span): (r: Span)
    ensures r.addr == a.addr && r.free == a.free
    ensures H + r.size == (H + a.size) + (H + b.size)
  {
    Span(a.addr, a.size + b.size + H, a.free)
  }

  /** One pass from the head over the listed blocks. Two neighbours that are both free merge, and the
      scan then moves on to the block after the absorbed one: the merged block is not compared with
      its new successor. */
  function Sweep(s: seq<Span>): (r: seq<Span>)
    ensures |r| <= |s|
    ensures s != [] ==> r != [] && r[0].addr == s[0].addr
    decreases |s|
  {
    if |s| < 2 then s
    else if s[0].free && s[1].free then [Merge(s[0], s[1])] + Sweep(s[2..])
    else [s[0]] + Sweep(s[1..])
  }

  /** Two neighbours that are both free. */
  predicate FreePairAt(s: seq<Span>, j: int)
  {
    0 <= j && j + 1 < |s| && s[j].free && s[j + 1].free
  }

  /** One step of the sweep's loop at position k that merges: the merged list w, processed up to
      k + 1, leads to the same result as v processed up to k. */
  lemma MergeStep(v: seq<Span>, w: seq<Span>, k: nat)
    requires k + 1 < |v| && v[k].free && v[k + 1].free
    requires |w| == |v| - 1 && w[k] == Merge(v[k], v[k + 1])
    requires forall j :: 0 <= j < k ==> w[j] == v[j]
    requires forall j :: k < j < |w| ==> w[j] == v[j + 1]
    ensures w[..k + 1] + Sweep(w[k + 1..]) == v[..k] + Sweep(v[k..])
  {
    assert w[..k + 1] == v[..k] + [Merge(v[k], v[k + 1])];
    assert w[k + 1..] == v[k + 2..];
    assert v[k..][2..] == v[k + 2..];
  }

  /** One step of the sweep's loop at position k that does not merge. */
  lemma SkipStep(v: seq<Span>, k: nat)
    requires k < |v|
    requires !FreePairAt(v, k)
    ensures v[..k + 1] + Sweep(v[k + 1..]) == v[..k] + Sweep(v[k..])
  {
    assert v[..k + 1] == v[..k] + [v[k]];
    assert v[k..][1..] == v[k + 1..];
  }

  /** After the k-th listed block absorbs its successor, the memory view has the merged block at k,
      the blocks before it unchanged and the blocks after the absorbed one shifted down by one. */
  lemma AbsorbedShape(bs: seq<Block>, head: Ref, ids: seq<nat>, k: nat)
    requires ForwardLinks(bs) && Listed(bs, head, ids) && k + 1 < |ids|
    ensures var w := ViewOf(Absorbed(bs, ids[k], ids[k + 1]), ids[..k + 1] + ids[k + 2..]);
      var v := ViewOf(bs, ids);
      && |w| == |v| - 1 && w[k] == Merge(v[k], v[k + 1])
      && (forall j :: 0 <= j < k ==> w[j] == v[j])
      && (forall j :: k < j < |w| ==> w[j] == v[j + 1])
  {
    var ids' := ids[..k + 1] + ids[k + 2..];
    forall j | 0 <= j < k
      ensures ids[j] != ids[k] && ids'[j] == ids[j]
    {
      ListedIncreasing(bs, head, ids, j, k);
    }
    forall j | k < j < |ids'|
      ensures ids[j + 1] != ids[k] && ids'[j] == ids[j + 1]
    {
      ListedIncreasing(bs, head, ids, k, j + 1);
    }
  }

  /** free()'s merge on the records is Merge on their memory view: when the k-th listed block absorbs
      its free successor, one more step of the sweep has been taken. */
  lemma AbsorbedView(bs: seq<Block>, head: Ref, ids: seq<nat>, k: nat)
    requires ForwardLinks(bs) && Listed(bs, head, ids) && k + 1 < |ids|
    requires bs[ids[k]].free && bs[ids[k + 1]].free
    ensures var w := ViewOf(Absorbed(bs, ids[k], ids[k + 1]), ids[..k + 1] + ids[k + 2..]);
      var v := ViewOf(bs, ids);
      w[..k + 1] + Sweep(w[k + 1..]) == v[..k] + Sweep(v[k..])
  {
    AbsorbedShape(bs, head, ids, k);
    MergeStep(ViewOf(bs, ids), ViewOf(Absorbed(bs, ids[k], ids[k + 1]), ids[..k + 1] + ids[k + 2..]), k);
  }

  /** Merging keeps the tiling: the survivor covers exactly the memory the pair covered. */
  lemma {:induction false} SweepTiles(s: seq<Span>, lo: int, hi: int)
    requires Tiles(s, lo, hi)
    ensures Tiles(Sweep(s), lo, hi)
    decreases |s|
  {
    if |s| >= 2 {
      if s[0].free && s[1].free {
        var m := Merge(s[0], s[1]);
        assert Tiles(s[2..], lo + H + m.size, hi) by {
          assert s[1..][1..] == s[2..];
        }
        SweepTiles(s[2..], lo + H + m.size, hi);
        assert ([m] + Sweep(s[2..]))[1..] == Sweep(s[2..]);
      } else {
        SweepTiles(s[1..], lo + H + s[0].size, hi);
        assert ([s[0]] + Sweep(s[1..]))[1..] == Sweep(s[1..]);
      }
    }
  }

  /** Total bytes are conserved: what the absorbed blocks held, header included, goes to the survivor. */
  lemma {:induction false} SweepBytes(s: seq<Span>)
    ensures Bytes(Sweep(s)) == Bytes(s)
    decreases |s|
  {
    if |s| >= 2 {
      if s[0].free && s[1].free {
        SweepBytes(s[2..]);
        assert ([Merge(s[0], s[1])] + Sweep(s[2..]))[1..] == Sweep(s[2..]);
        assert s[1..][1..] == s[2..];
      } else {
        SweepBytes(s[1..]);
        assert ([s[0]] + Sweep(s[1..]))[1..] == Sweep(s[1..]);
      }
    }
  }

  /** Only pairs of neighbours that are both free are merged: every block the sweep leaves is a block
      it was given, or the merge of a free block with the free block that followed it. */
  lemma {:induction false} SweepMergesOnlyFreePairs(s: seq<Span>, k: nat)
    requires k < |Sweep(s)|
    ensures (exists j :: 0 <= j < |s| && Sweep(s)[k] == s[j])
         || (exists j :: FreePairAt(s, j) && Sweep(s)[k] == Merge(s[j], s[j + 1]))
    decreases |s|
  {
    if |s| >= 2 {
      if s[0].free && s[1].free {
        if k == 0 {
          assert FreePairAt(s, 0);
        } else {
          SweepMergesOnlyFreePairs(s[2..], k - 1);
          if j :| 0 <= j < |s[2..]| && Sweep(s[2..])[k - 1] == s[2..][j] {
            assert Sweep(s)[k] == s[j + 2];
          } else {
            var j :| FreePairAt(s[2..], j) && Sweep(s[2..])[k - 1] == Merge(s[2..][j], s[2..][j + 1]);
            assert FreePairAt(s, j + 2);
          }
        }
      } else if k == 0 {
        assert Sweep(s)[0] == s[0];
      } else {
        SweepMergesOnlyFreePairs(s[1..], k - 1);
        if j :| 0 <= j < |s[1..]| && Sweep(s[1..])[k - 1] == s[1..][j] {
          assert Sweep(s)[k] == s[j + 1];
        } else {
          var j :| FreePairAt(s[1..], j) && Sweep(s[1..])[k - 1] == Merge(s[1..][j], s[1..][j + 1]);
          assert FreePairAt(s, j + 1);
        }
      }
    } else {
      assert Sweep(s)[k] == s[k];
    }
  }

  /** The sweep shrinks the list exactly when some two neighbours are both free; otherwise it changes nothing. */
  lemma {:induction false} SweepShrinksIffFreePair(s: seq<Span>)
    ensures |Sweep(s)| < |s| <==> exists j :: FreePairAt(s, j)
    ensures (forall j :: !FreePairAt(s, j)) ==> Sweep(s) == s
    decreases |s|
  {
    if |s| >= 2 {
      if s[0].free && s[1].free {
        assert FreePairAt(s, 0);
      } else {
        SweepShrinksIffFreePair(s[1..]);
        if exists j :: FreePairAt(s, j) {
          var j :| FreePairAt(s, j);
          assert j > 0 && FreePairAt(s[1..], j - 1);
        }
        if exists j :: FreePairAt(s[1..], j) {
          var j :| FreePairAt(s[1..], j);
          assert FreePairAt(s, j + 1);
        }
        assert [s[0]] + s[1..] == s;
      }
    }
  }

  /** The sweep is not a full coalescing: three free neighbours end as two free neighbours, because
      the scan moves past the block it has just grown. */
  lemma ThreeFreeLeaveTwo(a: Span, b: Span, c: Span)
    requires a.free && b.free && c.free
    ensures Sweep([a, b, c]) == [Merge(a, b), c]
    ensures FreePairAt(Sweep([a, b, c]), 0)
  {
    assert [a, b, c][2..] == [c];
  }

  /** bs arises from bs0 by changing sizes and links of records still listed in ids only (a record
      unlinked on the way keeps its size and its stale link), and ids keeps only records ids0 listed. */
  ghost predicate Reshaped(bs0: seq<Block>, ids0: seq<nat>, bs: seq<Block>, ids: seq<nat>)
  {
    && |bs| == |bs0|
    && (forall j :: 0 <= j < |bs| ==> bs[j].addr == bs0[j].addr && bs[j].free == bs0[j].free)
    && (forall j :: 0 <= j < |bs| && j !in ids ==> bs[j] == bs0[j])
    && (forall j :: 0 <= j < |ids| ==> ids[j] in ids0)
  }

  /** The records at list positions k onwards have not been touched yet. */
  ghost predicate AheadUntouched(bs0: seq<Block>, bs: seq<Block>, ids: seq<nat>, k: nat)
    requires InRange(bs, ids) && |bs| == |bs0|
  {
    forall j :: k <= j < |ids| ==> bs[ids[j]] == bs0[ids[j]]
  }

  /** One merge of free()'s loop keeps the list well formed, touches only listed records and takes
      one more step of the sweep. */
  lemma AbsorbedStep(bs0: seq<Block>, ids0: seq<nat>, bs: seq<Block>, head: Ref, ids: seq<nat>, k: nat)
    requires ForwardLinks(bs) && Listed(bs, head, ids) && k + 1 < |ids|
    requires bs[ids[k]].free && bs[ids[k + 1]].free
    requires Reshaped(bs0, ids0, bs, ids) && AheadUntouched(bs0, bs, ids, k)
    ensures var bs' := Absorbed(bs, ids[k], ids[k + 1]);
      var ids' := ids[..k + 1] + ids[k + 2..];
      && ForwardLinks(bs') && Listed(bs', head, ids')
      && Reshaped(bs0, ids0, bs', ids') && AheadUntouched(bs0, bs', ids', k + 1)
      && ViewOf(bs', ids')[..k + 1] + Sweep(ViewOf(bs', ids')[k + 1..])
         == ViewOf(bs, ids)[..k] + Sweep(ViewOf(bs, ids)[k..])
  {
    AbsorbedListed(bs, head, ids, k);
    AbsorbedView(bs, head, ids, k);
    AbsorbedUntouched(bs0, ids0, bs, head, ids, k);
  }

  /** A merge at position k writes only the record at k: the absorbed record, now unlinked, keeps
      its size and link, and the records after it are still untouched. */
  lemma AbsorbedUntouched(bs0: seq<Block>, ids0: seq<nat>, bs: seq<Block>, head: Ref, ids: seq<nat>, k: nat)
    requires ForwardLinks(bs) && Listed(bs, head, ids) && k + 1 < |ids|
    requires Reshaped(bs0, ids0, bs, ids) && AheadUntouched(bs0, bs, ids, k)
    ensures var bs' := Absorbed(bs, ids[k], ids[k + 1]);
      var ids' := ids[..k + 1] + ids[k + 2..];
      && InRange(bs', ids')
      && Reshaped(bs0, ids0, bs', ids') && AheadUntouched(bs0, bs', ids', k + 1)
  {
    var bs' := Absorbed(bs, ids[k], ids[k + 1]);
    var ids' := ids[..k + 1] + ids[k + 2..];
    forall j | 0 <= j < |ids'|
      ensures ids'[j] in ids0 && ids'[j] < |bs|
      ensures j > k ==> ids'[j] == ids[j + 1] && ids[k] < ids[j + 1]
    {
      assert ids'[j] == if j <= k then ids[j] else ids[j + 1];
      if j > k {
        ListedIncreasing(bs, head, ids, k, j + 1);
      }
    }
    ListedIncreasing(bs, head, ids, k, k + 1);
    forall x | 0 <= x < |bs'| && x !in ids'
      ensures bs'[x] == bs0[x]
    {
      assert x in ids ==> x == ids[k + 1];
    }
  }

  /** free()'s coalescing loop, on the record table: walk the list from the head, and wherever the
      current record and its successor are both free, let the current one absorb the successor and
      step past it. The records keep their addresses and flags; only sizes and links change, and
      only on the list. */
  method SweepList(bs0: seq<Block>, head: Ref, ghost ids0: seq<nat>) returns (bs: seq<Block>, ghost ids: seq<nat>)
    requires ForwardLinks(bs0) && Listed(bs0, head, ids0)
    ensures ForwardLinks(bs) && Listed(bs, head, ids)
    ensures ViewOf(bs, ids) == Sweep(ViewOf(bs0, ids0))
    ensures Reshaped(bs0, ids0, bs, ids)
  {
    bs := bs0;
    ids := ids0;
    var curr := head;
    ghost var k := 0;
    while curr != Null
      invariant ForwardLinks(bs) && Listed(bs, head, ids)
      invariant Reshaped(bs0, ids0, bs, ids)
      invariant 0 <= k <= |ids| && curr == RefAt(ids, k)
      invariant AheadUntouched(bs0, bs, ids, k)
      invariant ViewOf(bs, ids)[..k] + Sweep(ViewOf(bs, ids)[k..]) == Sweep(ViewOf(bs0, ids0))
      decreases |ids| - k
    {
      var nx := bs[curr.i].next;
      if nx != Null && bs[curr.i].free && bs[nx.i].free {
        AbsorbedStep(bs0, ids0, bs, head, ids, k);
        bs := Absorbed(bs, curr.i, nx.i);
        ids := ids[..k + 1] + ids[k + 2..];
      } else {
        SkipStep(ViewOf(bs, ids), k);
      }
      curr := bs[curr.i].next;
      k := k + 1;
    }
    assert ViewOf(bs, ids)[..k] == ViewOf(bs, ids);
  }
}
