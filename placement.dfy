/** What findFreeBlock chooses under each of the four placement strategies. */
module Placement {
  import opened Blocks

  /** The strategy a build is compiled with (FIT, BEST, WORST or NEXT defined as 0). */
  datatype Fit = FirstFit | BestFit | WorstFit | NextFit

  /** The starting value of best fit's `dif`: surpluses at or above it are never chosen. */
  const Cap: int := 1000000

  /** A test that a scan applies to each record it visits. */
  datatype Probe =
    | Fitting(req: nat)    // free and large enough: first fit and next fit
    | ExactFree(req: nat)  // free and exactly the requested size: best fit returns it at once
    | OfSize(size: nat)    // of a given size, free or not: the rescan of best and worst fit

  predicate Accepts(probe: Probe, b: Block)
  {
    match probe
    case Fitting(req) => b.free && b.size >= req
    case ExactFree(req) => b.free && b.size == req
    case OfSize(size) => b.size == size
  }

  /** The position of the first record of ids the probe accepts, or |ids| if there is none. */
  function FirstWhere(bs: seq<Block>, ids: seq<nat>, probe: Probe): (k: nat)
    requires InRange(bs, ids)
    ensures k <= |ids|
  {
    if ids == [] then 0
    else if Accepts(probe, bs[ids[0]]) then 0
    else 1 + FirstWhere(bs, ids[1..], probe)
  }

  /** FirstWhere is the position of an accepted record (unless it is |ids|), and every record before it is rejected. */
  lemma {:induction false} FirstWhereFinds(bs: seq<Block>, ids: seq<nat>, probe: Probe)
    requires InRange(bs, ids)
    ensures var k := FirstWhere(bs, ids, probe);
      && (k < |ids| ==> Accepts(probe, bs[ids[k]]))
      && (forall j :: 0 <= j < k ==> !Accepts(probe, bs[ids[j]]))
    decreases |ids|
  {
    if ids != [] && !Accepts(probe, bs[ids[0]]) {
      FirstWhereFinds(bs, ids[1..], probe);
      var k := FirstWhere(bs, ids, probe);
      forall j | 0 <= j < k
        ensures !Accepts(probe, bs[ids[j]])
      {
        if j > 0 {
          assert ids[j] == ids[1..][j - 1];
        }
      }
    }
  }

  /** A scan that stops at position k, having passed only records the probe rejects, stopped at FirstWhere. */
  lemma FirstWhereIs(bs: seq<Block>, ids: seq<nat>, probe: Probe, k: nat)
    requires InRange(bs, ids) && k <= |ids|
    requires k < |ids| ==> Accepts(probe, bs[ids[k]])
    requires forall j :: 0 <= j < k ==> !Accepts(probe, bs[ids[j]])
    ensures FirstWhere(bs, ids, probe) == k
  {
    FirstWhereFinds(bs, ids, probe);
  }

  /** A free block larger than the request: the blocks best and worst fit weigh by their surplus. */
  predicate Candidate(b: Block, req: nat)
  {
    b.free && b.size > req
  }

  /** Best fit's `dif` after its first pass has visited the first n records of ids: the least surplus
      of a candidate among them, if below Cap. */
  function BestSurplus(bs: seq<Block>, ids: seq<nat>, n: nat, req: nat): (d: int)
    requires InRange(bs, ids) && n <= |ids|
    ensures 0 < d <= Cap
  {
    if n == 0 then Cap
    else
      var d0 := BestSurplus(bs, ids, n - 1, req);
      var b := bs[ids[n - 1]];
      if Candidate(b, req) && b.size - req < d0 then b.size - req else d0
  }

  /** Worst fit's `dif` after its first pass has visited the first n records of ids: the greatest
      surplus of a candidate among them, or 0 if there is none. */
  function WorstSurplus(bs: seq<Block>, ids: seq<nat>, n: nat, req: nat): (d: int)
    requires InRange(bs, ids) && n <= |ids|
    ensures d >= 0
  {
    if n == 0 then 0
    else
      var d0 := WorstSurplus(bs, ids, n - 1, req);
      var b := bs[ids[n - 1]];
      if Candidate(b, req) && b.size - req > d0 then b.size - req else d0
  }

  /** Best fit's first pass keeps a surplus no greater than that of any candidate it has passed. */
  lemma {:induction false} BestSurplusIsLeast(bs: seq<Block>, ids: seq<nat>, n: nat, req: nat)
    requires InRange(bs, ids) && n <= |ids|
    ensures forall j :: 0 <= j < n && Candidate(bs[ids[j]], req) ==> BestSurplus(bs, ids, n, req) <= bs[ids[j]].size - req
  {
    if n > 0 {
      BestSurplusIsLeast(bs, ids, n - 1, req);
    }
  }

  /** Below Cap, best fit's surplus is that of a candidate it has passed: some candidate attains it. */
  lemma {:induction false} BestSurplusAttained(bs: seq<Block>, ids: seq<nat>, n: nat, req: nat) returns (w: nat)
    requires InRange(bs, ids) && n <= |ids| && BestSurplus(bs, ids, n, req) < Cap
    ensures w < n && Candidate(bs[ids[w]], req) && bs[ids[w]].size - req == BestSurplus(bs, ids, n, req)
  {
    var b := bs[ids[n - 1]];
    if Candidate(b, req) && b.size - req < BestSurplus(bs, ids, n - 1, req) {
      w := n - 1;
    } else {
      w := BestSurplusAttained(bs, ids, n - 1, req);
    }
  }

  /** Worst fit's first pass keeps a surplus no smaller than that of any candidate it has passed. */
  lemma {:induction false} WorstSurplusIsGreatest(bs: seq<Block>, ids: seq<nat>, n: nat, req: nat)
    requires InRange(bs, ids) && n <= |ids|
    ensures forall j :: 0 <= j < n && Candidate(bs[ids[j]], req) ==> bs[ids[j]].size - req <= WorstSurplus(bs, ids, n, req)
  {
    if n > 0 {
      WorstSurplusIsGreatest(bs, ids, n - 1, req);
    }
  }

  /** A positive worst-fit surplus is that of a candidate it has passed: some candidate attains it. */
  lemma {:induction false} WorstSurplusAttained(bs: seq<Block>, ids: seq<nat>, n: nat, req: nat) returns (w: nat)
    requires InRange(bs, ids) && n <= |ids| && WorstSurplus(bs, ids, n, req) > 0
    ensures w < n && Candidate(bs[ids[w]], req) && bs[ids[w]].size - req == WorstSurplus(bs, ids, n, req)
  {
    var b := bs[ids[n - 1]];
    if Candidate(b, req) && b.size - req > WorstSurplus(bs, ids, n - 1, req) {
      w := n - 1;
    } else {
      w := WorstSurplusAttained(bs, ids, n - 1, req);
    }
  }

  /** What findFreeBlock hands back: the chosen record (or NULL) and the final value of `*last`. */
  datatype Found = Found(block: Ref, last: Ref)

  /** First fit: walk the list from the head and stop at the first free block that is large enough. */
  function FirstFitChoice(bs: seq<Block>, order: seq<nat>, req: nat, last0: Ref): (c: Found)
    requires InRange(bs, order)
    ensures c.block != Null ==> c.block.i < |bs| && Accepts(Fitting(req), bs[c.block.i])
    ensures c.block == Null ==> c.last == LastBefore(order, |order|, last0)
  {
    FirstWhereFinds(bs, order, Fitting(req));
    var k := FirstWhere(bs, order, Fitting(req));
    Found(RefAt(order, k), LastBefore(order, k, last0))
  }

  /** Best fit: the first free block of exactly the requested size is returned at once; otherwise the
      first pass finds the least surplus below Cap and a rescan from the head returns the first block
      with that surplus, without looking at its free flag again. */
  function BestFitChoice(bs: seq<Block>, order: seq<nat>, req: nat, last0: Ref): (c: Found)
    requires InRange(bs, order)
    ensures c.block != Null ==> c.block.i < |bs| && bs[c.block.i].size >= req
    ensures c.block == Null ==> c.last == LastBefore(order, |order|, last0)
  {
    FirstWhereFinds(bs, order, ExactFree(req));
    FirstWhereFinds(bs, order, OfSize(req + BestSurplus(bs, order, |order|, req)));
    var e := FirstWhere(bs, order, ExactFree(req));
    if e < |order| then
      Found(Rec(order[e]), LastBefore(order, e, last0))
    else
      var d := BestSurplus(bs, order, |order|, req);
      var tail := LastBefore(order, |order|, last0);
      if d == Cap then Found(Null, tail)
      else Found(RefAt(order, FirstWhere(bs, order, OfSize(req + d))), tail)
  }

  /** Worst fit: the first pass finds the greatest positive surplus, and a rescan from the head returns
      the first block with that surplus, without looking at its free flag again. */
  function WorstFitChoice(bs: seq<Block>, order: seq<nat>, req: nat, last0: Ref): (c: Found)
    requires InRange(bs, order)
    ensures c.block != Null ==> c.block.i < |bs| && bs[c.block.i].size > req
    ensures c.last == LastBefore(order, |order|, last0)
  {
    FirstWhereFinds(bs, order, OfSize(req + WorstSurplus(bs, order, |order|, req)));
    var d := WorstSurplus(bs, order, |order|, req);
    var tail := LastBefore(order, |order|, last0);
    if d == 0 then Found(Null, tail)
    else Found(RefAt(order, FirstWhere(bs, order, OfSize(req + d))), tail)
  }

  /** Next fit: walk from the cursor `temp` (which may name a record already unlinked by coalescing)
      to the end of its chain, then make a full pass from the head. */
  function NextFitChoice(bs: seq<Block>, order: seq<nat>, temp: Ref, req: nat, last0: Ref): (c: Found)
    requires InRange(bs, order) && ForwardLinks(bs) && Points(bs, temp)
    ensures c.block != Null ==> c.block.i < |bs| && Accepts(Fitting(req), bs[c.block.i])
  {
    FirstWhereFinds(bs, Chain(bs, temp), Fitting(req));
    FirstWhereFinds(bs, order, Fitting(req));
    var chain := Chain(bs, temp);
    var k1 := FirstWhere(bs, chain, Fitting(req));
    if k1 < |chain| then
      Found(Rec(chain[k1]), LastBefore(chain, k1, last0))
    else
      var k2 := FirstWhere(bs, order, Fitting(req));
      Found(RefAt(order, k2), LastBefore(order, k2, LastBefore(chain, |chain|, last0)))
  }

  /** findFreeBlock under the configured strategy. */
  function Choose(fit: Fit, bs: seq<Block>, order: seq<nat>, temp: Ref, req: nat, last0: Ref): (c: Found)
    requires InRange(bs, order) && ForwardLinks(bs) && Points(bs, temp)
    requires Points(bs, last0) && (order == [] ==> temp == Null)
    ensures c.block != Null ==> c.block.i < |bs| && bs[c.block.i].size >= req
    ensures c.block == Null ==> c.last == LastBefore(order, |order|, last0)
    ensures Points(bs, c.last)
  {
    match fit
    case FirstFit => FirstFitChoice(bs, order, req, last0)
    case BestFit => BestFitChoice(bs, order, req, last0)
    case WorstFit => WorstFitChoice(bs, order, req, last0)
    case NextFit => NextFitChoice(bs, order, temp, req, last0)
  }

  /** First fit returns the first listed block that is free and large enough, or NULL if there is none.
      On a hit `*last` is the block visited just before it (still the head if the head is returned);
      on a miss it is the tail. */
  lemma FirstFitChoosesFirst(bs: seq<Block>, order: seq<nat>, req: nat, last0: Ref)
    requires InRange(bs, order)
    ensures var c := FirstFitChoice(bs, order, req, last0);
      && (c.block == Null <==> forall j :: 0 <= j < |order| ==> !Accepts(Fitting(req), bs[order[j]]))
      && (c.block == Null ==> c.last == LastBefore(order, |order|, last0))
      && (c.block != Null ==>
            exists k :: 0 <= k < |order| && c.block == Rec(order[k]) && Accepts(Fitting(req), bs[order[k]])
              && (forall j :: 0 <= j < k ==> !Accepts(Fitting(req), bs[order[j]]))
              && c.last == LastBefore(order, k, last0))
  {
    FirstWhereFinds(bs, order, Fitting(req));
    var k := FirstWhere(bs, order, Fitting(req));
    if k < |order| {
      assert Accepts(Fitting(req), bs[order[k]]);
    }
  }

  /** Best fit returns the first free block of exactly the requested size if there is one. Otherwise
      `*last` is the tail, and the result is NULL exactly when no free block exceeds the request by
      less than Cap; if not NULL it exceeds the request, has the least surplus of all free blocks that
      exceed it, and is the first listed block of that size (which need not be free). */
  lemma BestFitChoosesLeastSurplus(bs: seq<Block>, order: seq<nat>, req: nat, last0: Ref)
    requires InRange(bs, order)
    ensures var c := BestFitChoice(bs, order, req, last0);
      && (forall e :: 0 <= e < |order| && Accepts(ExactFree(req), bs[order[e]])
            && (forall j :: 0 <= j < e ==> !Accepts(ExactFree(req), bs[order[j]]))
            ==> c == Found(Rec(order[e]), LastBefore(order, e, last0)))
      && ((forall j :: 0 <= j < |order| ==> !Accepts(ExactFree(req), bs[order[j]])) ==>
            && c.last == LastBefore(order, |order|, last0)
            && (c.block == Null <==>
                  forall j :: 0 <= j < |order| && Candidate(bs[order[j]], req) ==> bs[order[j]].size - req >= Cap)
            && (c.block != Null ==>
                  exists k :: 0 <= k < |order| && c.block == Rec(order[k]) && bs[order[k]].size > req
                    && (exists j :: 0 <= j < |order| && Candidate(bs[order[j]], req) && bs[order[j]].size == bs[order[k]].size)
                    && (forall j :: 0 <= j < |order| && Candidate(bs[order[j]], req) ==> bs[order[k]].size <= bs[order[j]].size)
                    && (forall j :: 0 <= j < k ==> bs[order[j]].size != bs[order[k]].size)))
  {
    FirstWhereFinds(bs, order, ExactFree(req));
    var e := FirstWhere(bs, order, ExactFree(req));
    forall e' | 0 <= e' < |order| && Accepts(ExactFree(req), bs[order[e']])
        && (forall j :: 0 <= j < e' ==> !Accepts(ExactFree(req), bs[order[j]]))
      ensures e' == e
    {
      FirstWhereIs(bs, order, ExactFree(req), e');
    }
    if e == |order| {
      var d := BestSurplus(bs, order, |order|, req);
      BestSurplusIsLeast(bs, order, |order|, req);
      if d < Cap {
        var j := BestSurplusAttained(bs, order, |order|, req);
        FirstWhereFinds(bs, order, OfSize(req + d));
        var k := FirstWhere(bs, order, OfSize(req + d));
        assert k <= j;
        assert Accepts(OfSize(req + d), bs[order[k]]);
      }
    }
  }

  /** Worst fit leaves `*last` at the tail. Its result is NULL exactly when no free block exceeds the
      request (so a free block of exactly the requested size is never returned); otherwise it exceeds
      the request, has the greatest surplus of all free blocks, and is the first listed block of that
      size (which need not be free). */
  lemma WorstFitChoosesGreatestSurplus(bs: seq<Block>, order: seq<nat>, req: nat, last0: Ref)
    requires InRange(bs, order)
    ensures var c := WorstFitChoice(bs, order, req, last0);
      && c.last == LastBefore(order, |order|, last0)
      && (c.block == Null <==> forall j :: 0 <= j < |order| ==> !Candidate(bs[order[j]], req))
      && (c.block != Null ==>
            exists k :: 0 <= k < |order| && c.block == Rec(order[k]) && bs[order[k]].size > req
              && (exists j :: 0 <= j < |order| && Candidate(bs[order[j]], req) && bs[order[j]].size == bs[order[k]].size)
              && (forall j :: 0 <= j < |order| && Candidate(bs[order[j]], req) ==> bs[order[j]].size <= bs[order[k]].size)
              && (forall j :: 0 <= j < k ==> bs[order[j]].size != bs[order[k]].size))
  {
    var d := WorstSurplus(bs, order, |order|, req);
    WorstSurplusIsGreatest(bs, order, |order|, req);
    if d > 0 {
      var j := WorstSurplusAttained(bs, order, |order|, req);
      FirstWhereFinds(bs, order, OfSize(req + d));
      var k := FirstWhere(bs, order, OfSize(req + d));
      assert k <= j;
      assert Accepts(OfSize(req + d), bs[order[k]]);
    }
  }

  /** Next fit returns a free block that is large enough, or NULL when no block on the cursor's chain
      and no listed block fits. If a block on the cursor's chain fits, it is first fit over that chain;
      on a miss `*last` is the tail. */
  lemma NextFitChoosesFromCursor(bs: seq<Block>, order: seq<nat>, temp: Ref, req: nat, last0: Ref)
    requires InRange(bs, order) && ForwardLinks(bs) && Points(bs, temp)
    ensures var c := NextFitChoice(bs, order, temp, req, last0);
      var chain := Chain(bs, temp);
      && (c.block != Null ==> c.block.i < |bs| && Accepts(Fitting(req), bs[c.block.i]))
      && (c.block == Null <==>
            (forall j :: 0 <= j < |order| ==> !Accepts(Fitting(req), bs[order[j]]))
            && (forall j :: 0 <= j < |chain| ==> !Accepts(Fitting(req), bs[chain[j]])))
      && (c.block == Null && order != [] ==> c.last == LastBefore(order, |order|, last0))
      && ((exists j :: 0 <= j < |chain| && Accepts(Fitting(req), bs[chain[j]])) ==>
            c == FirstFitChoice(bs, chain, req, last0))
  {
    var chain := Chain(bs, temp);
    var c := NextFitChoice(bs, order, temp, req, last0);
    FirstWhereFinds(bs, chain, Fitting(req));
    var k1 := FirstWhere(bs, chain, Fitting(req));
    if k1 < |chain| {
      assert c == FirstFitChoice(bs, chain, req, last0);
      assert Accepts(Fitting(req), bs[chain[k1]]);
    } else {
      assert forall j :: 0 <= j < |chain| ==> !Accepts(Fitting(req), bs[chain[j]]);
      FirstWhereFinds(bs, order, Fitting(req));
      var k2 := FirstWhere(bs, order, Fitting(req));
      if k2 < |order| {
        assert Accepts(Fitting(req), bs[order[k2]]);
      }
    }
  }

  /** When no block on the cursor's chain fits, next fit is first fit over the list from the head,
      with `*last` starting where the pass over the chain left it. */
  lemma NextFitFallsBackToHead(bs: seq<Block>, order: seq<nat>, temp: Ref, req: nat, last0: Ref)
    requires InRange(bs, order) && ForwardLinks(bs) && Points(bs, temp)
    requires forall j :: 0 <= j < |Chain(bs, temp)| ==> !Accepts(Fitting(req), bs[Chain(bs, temp)[j]])
    ensures NextFitChoice(bs, order, temp, req, last0)
         == FirstFitChoice(bs, order, req, LastBefore(Chain(bs, temp), |Chain(bs, temp)|, last0))
  {
    FirstWhereIs(bs, Chain(bs, temp), Fitting(req), |Chain(bs, temp)|);
  }

  /** Because the rescan compares sizes only, best fit can hand out a block that is in use: here the
      in-use head has the same size as the only candidate, and the rescan stops at the head. */
  lemma BestFitMayChooseBlockInUse()
    ensures var bs := [Block(0, 8, false, Rec(1)), Block(40, 8, true, Null)];
      var c := BestFitChoice(bs, [0, 1], 4, Null);
      c.block == Rec(0) && !bs[0].free
  {
  }
}
