/** The chain over whole runs of calls, and what single calls undo, refuse and leave alone. */
module McbRuns {
  import opened McbChain
  import opened McbTheorems

  datatype Call =
    | Request(paragraphs: nat)
    | Release(segment: nat)
    | Change(segment: nat, paragraphs: nat)
    | ReserveHigh(paragraphs: nat)

  /** The index of the block whose data starts at `segment`, or |chain|. */
  function Find(chain: Chain, segment: nat): (i: nat)
    ensures i <= |chain|
    ensures i < |chain| ==> chain[i].segment + 1 == segment
  {
    if chain == [] || chain[0].segment + 1 == segment then 0 else 1 + Find(chain[1..], segment)
  }

  /** One call on the chain; a segment that names no block changes nothing, as a refusal does. */
  function Step(chain: Chain, call: Call): Chain {
    match call
    case Request(paragraphs) => Allocate(chain, paragraphs).chain
    case Release(segment) =>
      var i := Find(chain, segment);
      if i < |chain| then Free(chain, i) else chain
    case Change(segment, paragraphs) =>
      var i := Find(chain, segment);
      if i < |chain| && Resize(chain, i, paragraphs).Resized? then Resize(chain, i, paragraphs).chain else chain
    case ReserveHigh(paragraphs) =>
      if chain != [] && ReserveTop(chain, paragraphs).Reserved? then ReserveTop(chain, paragraphs).chain else chain
  }

  function Run(chain: Chain, calls: seq<Call>): Chain
    decreases |calls|
  {
    if calls == [] then chain else Run(Step(chain, calls[0]), calls[1..])
  }

  lemma StepTiles(chain: Chain, call: Call, first: nat, top: nat)
    requires Tiles(chain, first, top)
    ensures Tiles(Step(chain, call), first, top)
  {
    match call {
      case Request(paragraphs) => AllocateTiles(chain, paragraphs, first, top);
      case Release(segment) =>
        if Find(chain, segment) < |chain| {
          FreeTiles(chain, Find(chain, segment), first, top);
        }
      case Change(segment, paragraphs) =>
        var i := Find(chain, segment);
        if i < |chain| && Resize(chain, i, paragraphs).Resized? {
          ResizeTiles(chain, i, paragraphs, first, top);
        }
      case ReserveHigh(paragraphs) =>
        if chain != [] && ReserveTop(chain, paragraphs).Reserved? {
          ReserveTiles(chain, Victim(chain), paragraphs, first, top);
        }
    }
  }

  /** Every run of calls keeps the tiling, so the paragraphs accounted for never change. */
  lemma {:induction false} RunConserves(chain: Chain, calls: seq<Call>, first: nat, top: nat)
    requires Tiles(chain, first, top)
    ensures Tiles(Run(chain, calls), first, top)
    ensures Total(Run(chain, calls)) == Total(chain)
    decreases |calls|
  {
    if calls == [] {
    } else {
      StepTiles(chain, calls[0], first, top);
      RunConserves(Step(chain, calls[0]), calls[1..], first, top);
      TilesTotal(Step(chain, calls[0]), first, top);
    }
    TilesTotal(chain, first, top);
  }

  // ---- what a call leaves alone ----

  /** The call is not about `block`: it does not name it, and does not reserve out of it. */
  predicate Spares(chain: Chain, call: Call, block: Block) {
    match call
    case Request(_) => true
    case Release(segment) => segment != block.segment + 1
    case Change(segment, _) => segment != block.segment + 1
    case ReserveHigh(_) => chain != [] ==> block != chain[Victim(chain)]
  }

  lemma {:induction false} AbsorbSpares(head: Block, rest: Chain, block: Block)
    requires block in rest && !block.IsFree()
    ensures block in Absorb(head, rest).1
    decreases |rest|
  {
    if rest[0].IsFree() {
      AbsorbSpares(Merged(head, rest[0]), rest[1..], block);
    }
  }

  lemma {:induction false} AllocateSpares(chain: Chain, requested: nat, block: Block)
    requires block in chain && !block.IsFree()
    ensures block in Allocate(chain, requested).chain
    decreases |chain|
  {
    if !chain[0].IsFree() {
      if block != chain[0] {
        AllocateSpares(chain[1..], requested, block);
      }
    } else {
      var (merged, rest) := Absorb(chain[0], chain[1..]);
      AbsorbSpares(chain[0], chain[1..], block);
      if requested > merged.size {
        AllocateSpares(rest, requested, block);
      }
    }
  }

  lemma FreeSpares(chain: Chain, i: nat, n: nat)
    requires i < |chain| && n < |chain| && n != i && !chain[n].IsFree()
    ensures chain[n] in Free(chain, i)
  {
    if n < i {
      assert Free(chain, i)[n] == chain[n];
    } else {
      assert chain[n] == chain[i + 1..][n - i - 1];
      AbsorbSpares(chain[i].(owner := OWNER_FREE), chain[i + 1..], chain[n]);
    }
  }

  lemma ResizeSpares(chain: Chain, i: nat, requested: nat, n: nat)
    requires i < |chain| && n < |chain| && n != i && !chain[n].IsFree()
    requires Resize(chain, i, requested).Resized?
    ensures chain[n] in Resize(chain, i, requested).chain
  {
    if requested <= chain[i].size {
      SpliceSpares(chain, i, i + 1, Cut(chain[i], chain[i].size, requested), n);
    } else {
      SpliceSpares(chain, i, i + 2, Cut(chain[i], Reach(chain, i), requested), n);
    }
  }

  /** An owned block the call is not about comes through it with its place, owner and size. */
  lemma StepSpares(chain: Chain, call: Call, block: Block, first: nat, top: nat)
    requires Tiles(chain, first, top)
    requires block in chain && !block.IsFree() && Spares(chain, call, block)
    ensures block in Step(chain, call)
  {
    var n :| 0 <= n < |chain| && chain[n] == block;
    match call {
      case Request(paragraphs) => AllocateSpares(chain, paragraphs, block);
      case Release(segment) =>
        var i := Find(chain, segment);
        if i < |chain| {
          FreeSpares(chain, i, n);
        }
      case Change(segment, paragraphs) =>
        var i := Find(chain, segment);
        if i < |chain| && Resize(chain, i, paragraphs).Resized? {
          ResizeSpares(chain, i, paragraphs, n);
        }
      case ReserveHigh(paragraphs) =>
        if chain != [] && ReserveTop(chain, paragraphs).Reserved? {
          var v := Victim(chain);
          SpliceSpares(chain, v, v + 1, Halves(chain[v], paragraphs), n);
        }
    }
  }

  lemma SpliceSpares(chain: Chain, i: nat, j: nat, middle: Chain, n: nat)
    requires i <= j <= |chain| && n < |chain| && (n < i || j <= n)
    ensures chain[n] in Splice(chain, i, j, middle)
  {
    var after := Splice(chain, i, j, middle);
    if n < i {
      assert after[n] == chain[n];
    } else {
      assert after[n - j + i + |middle|] == chain[n];
    }
  }

  /** No call of the run is about `block` when its turn comes. */
  predicate RunSpares(chain: Chain, calls: seq<Call>, block: Block)
    decreases |calls|
  {
    calls != [] ==> Spares(chain, calls[0], block) && RunSpares(Step(chain, calls[0]), calls[1..], block)
  }

  /** Through any run of calls about other blocks, an owned block keeps its place, owner and size. */
  lemma {:induction false} RunKeepsOwned(chain: Chain, calls: seq<Call>, block: Block, first: nat, top: nat)
    requires Tiles(chain, first, top)
    requires block in chain && !block.IsFree() && RunSpares(chain, calls, block)
    ensures block in Run(chain, calls)
    decreases |calls|
  {
    if calls != [] {
      StepSpares(chain, calls[0], block, first, top);
      StepTiles(chain, calls[0], first, top);
      RunKeepsOwned(Step(chain, calls[0]), calls[1..], block, first, top);
    }
  }

  /** A grant is exactly the request: one block of that size, the program's, and no other owned block is new. */
  lemma {:induction false} GrantIsTheRequest(chain: Chain, requested: nat)
    requires Allocate(chain, requested).Granted?
    ensures var grant := Allocate(chain, requested);
            && grant.segment > 0
            && Block(grant.segment - 1, 0x100, requested) in grant.chain
            && forall block :: block in grant.chain && block.owner != 0 ==>
                 block in chain || block == Block(grant.segment - 1, 0x100, requested)
    decreases |chain|
  {
    if !chain[0].IsFree() {
      GrantIsTheRequest(chain[1..], requested);
      assert Allocate(chain, requested).chain[1..] == Allocate(chain[1..], requested).chain;
    } else {
      var (merged, rest) := Absorb(chain[0], chain[1..]);
      AbsorbLeavesTail(chain[0], chain[1..]);
      if requested <= merged.size {
        assert Carve(merged, requested)[0] == Block(merged.segment, PSP_SEGMENT, requested);
        assert Allocate(chain, requested).chain[0] == Carve(merged, requested)[0];
      } else {
        GrantIsTheRequest(rest, requested);
        assert Allocate(chain, requested).chain[1..] == Allocate(rest, requested).chain;
      }
    }
  }

  lemma {:induction false} AbsorbLeavesTail(head: Block, rest: Chain)
    ensures forall block :: block in Absorb(head, rest).1 ==> block in rest
    decreases |rest|
  {
    if rest != [] && rest[0].IsFree() {
      AbsorbLeavesTail(Merged(head, rest[0]), rest[1..]);
    }
  }

  // ---- resizing ----

  /**
   * A resize is granted exactly when the size fits the block and the one free block behind it, if there is one. The
   * block then has the size asked for, its place and its owner, what is left is free, and no other owned block changes.
   */
  lemma ResizeIsTheRequest(chain: Chain, i: nat, requested: nat)
    requires i < |chain|
    ensures Resize(chain, i, requested).Resized?
       <==> || requested <= chain[i].size
            || (i + 1 < |chain| && chain[i + 1].owner == 0 && requested <= chain[i].size + 1 + chain[i + 1].size)
    ensures Resize(chain, i, requested).Resized? ==>
              var after := Resize(chain, i, requested).chain;
              && after[..i] == chain[..i] && i < |after| && after[i] == chain[i].(size := requested)
              && (requested < chain[i].size ==>
                    && i + 1 < |after| && after[i + 2..] == chain[i + 1..]
                    && after[i + 1] == Block(chain[i].segment + 1 + requested, 0, chain[i].size - requested - 1))
              && (requested == chain[i].size ==> after == chain)
              && (requested > chain[i].size ==>
                    var left := chain[i].size + 1 + chain[i + 1].size - requested;
                    if left == 0 then after[i + 1..] == chain[i + 2..]
                    else && i + 1 < |after| && after[i + 2..] == chain[i + 2..]
                         && after[i + 1] == Block(chain[i].segment + 1 + requested, 0, left - 1))
  {
    if requested <= chain[i].size {
      SpliceParts(chain, i, i + 1, Cut(chain[i], chain[i].size, requested));
      SplitAround(chain, i);
    } else if requested <= Reach(chain, i) {
      SpliceParts(chain, i, i + 2, Cut(chain[i], Reach(chain, i), requested));
    }
  }

  /** A block shrunk and grown straight back leaves the chain as it was. */
  lemma ShrinkThenGrowBack(chain: Chain, i: nat, requested: nat)
    requires i < |chain| && requested <= chain[i].size
    ensures var shrunk := Resize(chain, i, requested);
            shrunk.Resized? && Resize(shrunk.chain, i, chain[i].size) == Resized(chain)
  {
    var shrunk := Resize(chain, i, requested).chain;
    SpliceParts(chain, i, i + 1, Cut(chain[i], chain[i].size, requested));
    SplitAround(chain, i);
    if requested < chain[i].size {
      assert shrunk[i..i + 2] == Cut(chain[i], chain[i].size, requested);
      assert shrunk[i] == shrunk[i..i + 2][0] && shrunk[i + 1] == shrunk[i..i + 2][1];
      assert Reach(shrunk, i) == chain[i].size;
      assert Cut(shrunk[i], Reach(shrunk, i), chain[i].size) == [chain[i]];
      assert shrunk[i + 2..] == chain[i + 1..] && shrunk[..i] == chain[..i];
    } else {
      assert shrunk == chain;
      assert Cut(chain[i], chain[i].size, chain[i].size) == [chain[i]];
    }
  }

  /** A refused resize reports the threshold: that size and any below is granted, any above is not. */
  lemma RefusedResizeReportsThreshold(chain: Chain, i: nat, requested: nat, retry: nat)
    requires i < |chain| && Resize(chain, i, requested).TooLarge?
    ensures Resize(chain, i, retry).Resized? <==> retry <= Resize(chain, i, requested).largest
  {
  }

  /**
   * AH=4Ah takes one free neighbour, AH=48h a whole run: the two agree on what lies behind a block
   * exactly when the free run there is a single block.
   */
  lemma ResizeReachesRunIff(chain: Chain, i: nat, j: nat, first: nat, top: nat)
    requires Tiles(chain, first, top) && i < |chain| && FreeRun(chain, i + 1, j)
    ensures Reach(chain, i) == chain[i].size + 1 + RunSize(chain, i + 1, j) <==> j == i + 2
  {
    TilesOrdered(chain, first, top);
  }

  /** Two free blocks of 32 paragraphs behind a block: together they are 65, but it can only grow by 33. */
  lemma ResizeMissesSecondNeighbour()
    ensures var chain := [Block(0x100, PSP_SEGMENT, 0x10), Block(0x111, OWNER_FREE, 0x20),
                          Block(0x132, OWNER_FREE, 0x20), Block(0x153, PSP_SEGMENT, 0x10)];
            && Tiles(chain, 0x100, 0x164)
            && FreeRun(chain, 1, 3) && RunSize(chain, 1, 3) == 0x41
            && Resize(chain, 0, 0x10 + 1 + 0x41) == TooLarge(0x31)
  {
    var chain := [Block(0x100, PSP_SEGMENT, 0x10), Block(0x111, OWNER_FREE, 0x20),
                  Block(0x132, OWNER_FREE, 0x20), Block(0x153, PSP_SEGMENT, 0x10)];
    assert Tiles(chain[1..][1..][1..], 0x153, 0x164);
  }

  // ---- reservations ----

  /** A reservation leaves DOS's own blocks whole exactly when the block it carves is not DOS's. */
  lemma ReservationSparesDosIff(chain: Chain, paragraphs: nat, first: nat, top: nat)
    requires Tiles(chain, first, top) && chain != [] && ReserveTop(chain, paragraphs).Reserved?
    ensures (forall block ::
             block in chain && block.owner == OWNER_DOS ==> block in ReserveTop(chain, paragraphs).chain)
       <==> chain[Victim(chain)].owner != OWNER_DOS
  {
    var v := Victim(chain);
    var after := ReserveTop(chain, paragraphs).chain;
    if chain[v].owner != OWNER_DOS {
      forall block | block in chain && block.owner == OWNER_DOS
        ensures block in after
      {
        var n :| 0 <= n < |chain| && chain[n] == block;
        SpliceSpares(chain, v, v + 1, Halves(chain[v], paragraphs), n);
      }
    } else {
      ReserveTiles(chain, v, paragraphs, first, top);
      TilesOrdered(after, first, top);
      assert after[v] == Halves(chain[v], paragraphs)[0];
      assert chain[v] !in after;
    }
  }

  /** A chain of more than 1001h blocks is walked no further: nothing is reserved. */
  lemma LongChainReservesNothing(chain: Chain, paragraphs: nat)
    requires chain != []
    ensures |chain| > 0x1001 ==> ReserveTop(chain, paragraphs) == Full
    ensures |chain| <= 0x1001 && paragraphs + 2 <= chain[Victim(chain)].size ==> ReserveTop(chain, paragraphs).Reserved?
  {
  }

  /**
   * Two reservations over a last block that is not DOS's both stand, one under the other, exactly when the program's
   * block, which pays for both and their headers, keeps a paragraph; a third would be carved out of the second.
   */
  lemma TwoReservationsStand(chain: Chain, first: nat, second: nat)
    requires chain != [] && chain[|chain| - 1].owner != 8 && |chain| <= 0x1000
    ensures var program := chain[|chain| - 1];
            var one := ReserveTop(chain, first);
            && (one.Reserved? <==> first + 2 <= program.size)
            && (one.Reserved? ==>
                  var two := ReserveTop(one.chain, second);
                  && (two.Reserved? <==> first + second + 3 <= program.size)
                  && (two.Reserved? ==>
                        && two.chain == chain[..|chain| - 1]
                                      + [program.(size := program.size - first - second - 2),
                                         Block(two.segment - 1, 8, second),
                                         Block(one.segment - 1, 8, first)]
                        && one.segment + first == program.End()
                        && two.segment + second == one.segment - 1
                        && two.chain[Victim(two.chain)] == Block(two.segment - 1, 8, second)))
  {
    var n := |chain| - 1;
    var program := chain[n];
    if first + 2 <= program.size {
      var one := ReserveTop(chain, first).chain;
      assert one == chain[..n] + Halves(program, first);
      var kept := Halves(program, first)[0];
      assert one[..n] == chain[..n] && one[n] == kept && one[n + 1..] == [Halves(program, first)[1]];
      if second + 2 <= kept.size {
        var two := ReserveTop(one, second).chain;
        assert two == chain[..n] + Halves(kept, second) + [Halves(program, first)[1]];
      }
    }
  }
}
