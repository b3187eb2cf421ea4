/** Short call sequences on a fresh allocator: allocate, free, then allocate the same size again. */
module Scenarios {
  import opened Layout
  import opened Blocks
  import opened Placement
  import opened Allocator

  /** With one free block of 12 bytes listed, a request for 12 bytes finds it under every strategy
      except worst fit, which finds no block with a positive surplus. */
  lemma ChoiceAfterFree(fit: Fit, base: nat)
    ensures Choose(fit, [Block(base, 12, true, Null)], [0], Null, 12, Rec(0)).block
         == if fit == WorstFit then Null else Rec(0)
  {
  }

  /** malloc(10), free, malloc(10): first, best and next fit hand the same block out again; worst
      fit, which only weighs blocks strictly larger than the request, grows the heap instead. */
  method ReuseAfterFree(fit: Fit, base: nat) returns (p: int, q: int)
    ensures p == BlockData(base)
    ensures fit != WorstFit ==> q == p
    ensures fit == WorstFit ==> q == BlockData(base + H + 12)
  {
    var h := new Heap(fit, base);
    assert Choose(fit, [], [], Null, 12, Null).block == Null;
    p := h.Malloc(10, true);
    assert h.blocks == [Block(base, 12, false, Null)] && h.order == [0];
    var outcome := h.Free(p);
    assert h.order == [0];
    assert h.blocks == [Block(base, 12, true, Null)] && h.temp == Null && h.freeList == Rec(0);
    ChoiceAfterFree(fit, base);
    q := h.Malloc(10, true);
  }
}
