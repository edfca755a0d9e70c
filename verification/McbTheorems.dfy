/** What the chain operations guarantee: first fit over free runs, conservation, and safety over whole runs. */
module McbTheorems {
  import opened Machine
  import opened McbChain

  // ---- first fit ----

  /** The blocks i..j are free, and no free block touches them on either side. */
  ghost predicate FreeRun(chain: Chain, i: int, j: int) {
    && 0 <= i < j <= |chain|
    && (forall k :: i <= k < j ==> chain[k].IsFree())
    && (i > 0 ==> !chain[i - 1].IsFree())
    && (j < |chain| ==> !chain[j].IsFree())
  }

  /** The paragraphs a run offers once its inner headers are given up. */
  function RunSize(chain: Chain, i: int, j: int): int
    requires 0 <= i < j <= |chain|
  {
    chain[j - 1].End() - chain[i].segment - 1
  }

  /** The chain with every free run merged into one block. */
  function Coalesce(chain: Chain): Chain
    decreases |chain|
  {
    if chain == [] then []
    else if !chain[0].IsFree() then [chain[0]] + Coalesce(chain[1..])
    else
      var (block, rest) := Absorb(chain[0], chain[1..]);
      [block] + Coalesce(rest)
  }

  /** Absorbing from the first block takes exactly the run it begins. */
  lemma {:induction false} AbsorbTakesRun(chain: Chain, first: nat, top: nat) returns (j: nat)
    requires chain != [] && chain[0].IsFree() && Tiles(chain, first, top)
    ensures FreeRun(chain, 0, j)
    ensures RunSize(chain, 0, j) >= 0
    ensures Absorb(chain[0], chain[1..]) == (Block(chain[0].segment, OWNER_FREE, RunSize(chain, 0, j)), chain[j..])
    ensures j < |chain| ==> Tiles(chain[j..], chain[j].segment, top)
    decreases |chain|
  {
    if |chain| == 1 || !chain[1].IsFree() {
      j := 1;
    } else {
      TilesNext(chain, 0, first, top);
      var shorter := [Merged(chain[0], chain[1])] + chain[2..];
      assert chain[1..][1..] == chain[2..] && shorter[1..] == chain[2..];
      var n := AbsorbTakesRun(shorter, first, top);
      j := n + 1;
      assert shorter[n..] == chain[j..];
      forall k | 0 <= k < j
        ensures chain[k].IsFree()
      {
        if k >= 2 {
          assert chain[k] == shorter[k - 1];
        }
      }
      assert j < |chain| ==> chain[j] == shorter[n];
      assert chain[j - 1].End() == shorter[n - 1].End();
    }
  }

  /** Dropping a front part that ends at the edge of a run moves the runs behind it and nothing else. */
  lemma RunsBehind(chain: Chain, m: nat)
    requires 0 < m <= |chain| && (!chain[m - 1].IsFree() || m == |chain| || !chain[m].IsFree())
    ensures forall a, b :: m <= a && FreeRun(chain, a, b) ==>
              FreeRun(chain[m..], a - m, b - m) && RunSize(chain[m..], a - m, b - m) == RunSize(chain, a, b)
    ensures forall a, b :: FreeRun(chain[m..], a, b) ==>
              FreeRun(chain, a + m, b + m) && RunSize(chain[m..], a, b) == RunSize(chain, a + m, b + m)
  {
    var back := chain[m..];
    forall a, b | m <= a && FreeRun(chain, a, b)
      ensures FreeRun(back, a - m, b - m) && RunSize(back, a - m, b - m) == RunSize(chain, a, b)
    {
      assert b - m < |back| ==> back[b - m] == chain[b];
      assert a > m ==> back[a - m - 1] == chain[a - 1];
    }
    forall a, b | FreeRun(back, a, b)
      ensures FreeRun(chain, a + m, b + m) && RunSize(back, a, b) == RunSize(chain, a + m, b + m)
    {
      forall k | a + m <= k < b + m
        ensures chain[k].IsFree()
      {
        assert back[k - m].IsFree();
      }
      assert b + m < |chain| ==> chain[b + m] == back[b];
      assert back[a] == chain[a + m];
      assert a > 0 ==> chain[a + m - 1] == back[a - 1];
    }
  }

  /**
   * The outcome first fit gives: granted, the run i..j is the lowest large enough; refused, no run is
   * and i..j is the largest. Everything below a granted run has been merged on the way.
   */
  ghost predicate IsFirstFit(chain: Chain, requested: nat, outcome: Allocation, i: int, j: int) {
    match outcome
    case Granted(after, segment) =>
      && FreeRun(chain, i, j) && RunSize(chain, i, j) >= requested
      && segment == chain[i].segment + 1
      && (forall a, b :: a < i && FreeRun(chain, a, b) ==> RunSize(chain, a, b) < requested)
      && after == Coalesce(chain[..i])
                + Carve(Block(chain[i].segment, OWNER_FREE, RunSize(chain, i, j)), requested)
                + chain[j..]
    case Refused(after, largest) =>
      && (forall a, b :: FreeRun(chain, a, b) ==> RunSize(chain, a, b) <= largest && RunSize(chain, a, b) < requested)
      && (largest > 0 ==> FreeRun(chain, i, j) && RunSize(chain, i, j) == largest)
      && after == Coalesce(chain)
  }

  /** DosMcbAllocate is first fit over maximal free runs. */
  lemma {:induction false} AllocateIsFirstFit(chain: Chain, requested: nat, first: nat, top: nat)
    returns (i: int, j: int)
    requires Tiles(chain, first, top)
    ensures IsFirstFit(chain, requested, Allocate(chain, requested), i, j)
    decreases |chain|
  {
    i, j := 0, 0;
    if chain == [] {
    } else if !chain[0].IsFree() {
      i, j := AllocateIsFirstFit(chain[1..], requested, chain[0].End(), top);
      FirstFitPastOwned(chain, requested, i, j);
      i, j := i + 1, j + 1;
    } else {
      var m := AbsorbTakesRun(chain, first, top);
      if requested <= RunSize(chain, 0, m) {
        i, j := 0, m;
        var block := Block(chain[0].segment, OWNER_FREE, RunSize(chain, 0, m));
        assert chain[..0] == [] && [] + Carve(block, requested) == Carve(block, requested);
      } else {
        if m < |chain| {
          i, j := AllocateIsFirstFit(chain[m..], requested, chain[m].segment, top);
        }
        i, j := FirstFitPastRun(chain, m, requested, i, j, first, top);
      }
    }
  }

  lemma FirstFitPastOwned(chain: Chain, requested: nat, i: int, j: int)
    requires chain != [] && !chain[0].IsFree()
    requires IsFirstFit(chain[1..], requested, Allocate(chain[1..], requested), i, j)
    ensures IsFirstFit(chain, requested, Allocate(chain, requested), i + 1, j + 1)
  {
    RunsBehind(chain, 1);
    if Allocate(chain, requested).Granted? {
      assert chain[..i + 1][1..] == chain[1..][..i];
      assert chain[1..][j..] == chain[j + 1..];
    }
  }

  lemma FirstFitPastRun(chain: Chain, m: nat, requested: nat, i: int, j: int, first: nat, top: nat)
    returns (i': int, j': int)
    requires FreeRun(chain, 0, m) && Tiles(chain, first, top) && 0 <= RunSize(chain, 0, m) < requested
    requires Absorb(chain[0], chain[1..]) == (Block(chain[0].segment, OWNER_FREE, RunSize(chain, 0, m)), chain[m..])
    requires IsFirstFit(chain[m..], requested, Allocate(chain[m..], requested), i, j)
    ensures IsFirstFit(chain, requested, Allocate(chain, requested), i', j')
  {
    var rest := Allocate(chain[m..], requested);
    if rest.Granted? {
      GrantedPastRun(chain, m, requested, i, j, first, top);
      return i + m, j + m;
    }
    OnlyRunAt(chain, m);
    RunsBehind(chain, m);
    if rest.largest > RunSize(chain, 0, m) {
      return i + m, j + m;
    } else {
      return 0, m;
    }
  }

  lemma GrantedPastRun(chain: Chain, m: nat, requested: nat, i: int, j: int, first: nat, top: nat)
    requires FreeRun(chain, 0, m) && Tiles(chain, first, top) && 0 <= RunSize(chain, 0, m) < requested
    requires Absorb(chain[0], chain[1..]) == (Block(chain[0].segment, OWNER_FREE, RunSize(chain, 0, m)), chain[m..])
    requires Allocate(chain[m..], requested).Granted?
    requires IsFirstFit(chain[m..], requested, Allocate(chain[m..], requested), i, j)
    ensures IsFirstFit(chain, requested, Allocate(chain, requested), i + m, j + m)
  {
    OnlyRunAt(chain, m);
    RunsBehind(chain, m);
    CoalesceFront(chain, m, i + m, first, top);
    var behind := chain[m..];
    assert chain[m..i + m] == behind[..i] && behind[j..] == chain[j + m..];
    assert behind[i] == chain[i + m];
    PushFront(Block(chain[0].segment, OWNER_FREE, RunSize(chain, 0, m)), Coalesce(behind[..i]),
              Carve(Block(behind[i].segment, OWNER_FREE, RunSize(behind, i, j)), requested), behind[j..]);
  }

  lemma PushFront(block: Block, a: Chain, b: Chain, c: Chain)
    ensures [block] + (a + b + c) == [block] + a + b + c
  {
  }

  lemma OnlyRunAt(chain: Chain, m: nat)
    requires FreeRun(chain, 0, m)
    ensures forall a, b :: FreeRun(chain, a, b) ==> (a == 0 && b == m) || m <= a
  {
    assert forall k :: 0 <= k < m ==> chain[k].IsFree();
  }

  lemma CoalesceFront(chain: Chain, m: nat, i: nat, first: nat, top: nat)
    requires FreeRun(chain, 0, m) && m <= i <= |chain| && Tiles(chain, first, top)
    requires RunSize(chain, 0, m) >= 0
    ensures Coalesce(chain[..i])
         == [Block(chain[0].segment, OWNER_FREE, RunSize(chain, 0, m))] + Coalesce(chain[m..i])
  {
    assert chain == chain[..i] + chain[i..];
    var end := TilesSplit(chain[..i], chain[i..], first, top);
    var n := AbsorbTakesRun(chain[..i], first, end);
    OnlyRunAt(chain[..i], n);
    assert FreeRun(chain[..i], 0, m);
    assert chain[..i][m..] == chain[m..i];
  }

  /** A request is granted exactly when some free run is large enough. */
  lemma AllocateSucceedsIff(chain: Chain, requested: nat, first: nat, top: nat)
    requires Tiles(chain, first, top)
    ensures Allocate(chain, requested).Granted?
       <==> exists i, j :: FreeRun(chain, i, j) && RunSize(chain, i, j) >= requested
  {
    var i, j := AllocateIsFirstFit(chain, requested, first, top);
  }

  /**
   * The figure a refusal reports is worth retrying: in the chain the refusal leaves, every request up
   * to it is granted and every larger one is refused with the same figure and no further change.
   */
  lemma {:induction false} RetryAtLargest(chain: Chain, requested: nat, retry: nat)
    requires Allocate(chain, requested).Refused?
    ensures var refusal := Allocate(chain, requested);
            && (0 < refusal.largest && retry <= refusal.largest ==> Allocate(refusal.chain, retry).Granted?)
            && (retry > refusal.largest ==> Allocate(refusal.chain, retry) == refusal)
    ensures var after := Allocate(chain, requested).chain;
            after != [] && chain != [] && !chain[0].IsFree() ==> !after[0].IsFree()
    decreases |chain|
  {
    if chain != [] {
      var refusal := Allocate(chain, requested);
      if !chain[0].IsFree() {
        RetryAtLargest(chain[1..], requested, retry);
        assert refusal.chain[1..] == Allocate(chain[1..], requested).chain;
      } else {
        var (block, rest) := Absorb(chain[0], chain[1..]);
        RetryAtLargest(rest, requested, retry);
        assert refusal.chain[1..] == Allocate(rest, requested).chain;
      }
    }
  }

  // ---- every call keeps the tiling ----

  lemma {:induction false} AbsorbTiles(block: Block, rest: Chain, top: nat)
    requires Tiles(rest, block.End(), top)
    ensures var (merged, left) := Absorb(block, rest); Tiles(left, merged.End(), top)
    decreases |rest|
  {
    if rest != [] && rest[0].IsFree() {
      AbsorbTiles(Merged(block, rest[0]), rest[1..], top);
    }
  }

  lemma {:induction false} AllocateTiles(chain: Chain, requested: nat, first: nat, top: nat)
    requires Tiles(chain, first, top)
    ensures Tiles(Allocate(chain, requested).chain, first, top)
    decreases |chain|
  {
    if chain == [] {
    } else if !chain[0].IsFree() {
      AllocateTiles(chain[1..], requested, chain[0].End(), top);
    } else {
      var (block, rest) := Absorb(chain[0], chain[1..]);
      AbsorbTiles(chain[0], chain[1..], top);
      if requested <= block.size {
        CutTiles(block, block.size, requested);
        var carved, cut := Carve(block, requested), Cut(block, block.size, requested);
        assert |carved| == 2 ==> carved[1..] == cut[1..];
        TilesJoin(carved, rest, first, block.End(), top);
      } else {
        AllocateTiles(rest, requested, block.End(), top);
      }
    }
  }

  lemma FreeTiles(chain: Chain, i: nat, first: nat, top: nat)
    requires i < |chain| && Tiles(chain, first, top)
    ensures Tiles(Free(chain, i), first, top)
  {
    hide Absorb;
    var freed := chain[i].(owner := OWNER_FREE);
    var (block, rest) := Absorb(freed, chain[i + 1..]);
    assert chain == chain[..i] + chain[i..];
    var middle := TilesSplit(chain[..i], chain[i..], first, top);
    assert chain[i..][1..] == chain[i + 1..];
    AbsorbTiles(freed, chain[i + 1..], top);
    TilesJoin(chain[..i], [block] + rest, first, middle, top);
    assert chain[..i] + ([block] + rest) == chain[..i] + [block] + rest;
  }

  lemma ResizeTiles(chain: Chain, i: nat, requested: nat, first: nat, top: nat)
    requires i < |chain| && Tiles(chain, first, top) && Resize(chain, i, requested).Resized?
    ensures Tiles(Resize(chain, i, requested).chain, first, top)
  {
    TilesNext(chain, i, first, top);
    if requested <= chain[i].size {
      CutTiles(chain[i], chain[i].size, requested);
      SpliceTiles(chain, i, i + 1, Cut(chain[i], chain[i].size, requested), first, top);
    } else {
      CutTiles(chain[i], Reach(chain, i), requested);
      SpliceTiles(chain, i, i + 2, Cut(chain[i], Reach(chain, i), requested), first, top);
    }
  }

  lemma ReserveTiles(chain: Chain, v: nat, paragraphs: nat, first: nat, top: nat)
    requires v < |chain| && paragraphs < chain[v].size && Tiles(chain, first, top)
    ensures Tiles(ReserveAt(chain, v, paragraphs), first, top)
  {
    var halves := Halves(chain[v], paragraphs);
    assert Tiles(halves[1..], halves[1].segment, chain[v].End());
    SpliceTiles(chain, v, v + 1, halves, first, top);
  }

  // ---- freeing ----

  /** Every free block the walk absorbs is no larger than the block it becomes; the others are still there. */
  lemma {:induction false} AbsorbKeepsSize(head: Block, rest: Chain, block: Block)
    requires block in rest && block.IsFree()
    ensures var (merged, left) := Absorb(head, rest);
            merged.size >= head.size && (block.size <= merged.size || block in left)
    decreases |rest|
  {
    if rest[0].IsFree() {
      if block in rest[1..] {
        AbsorbKeepsSize(Merged(head, rest[0]), rest[1..], block);
      } else {
        assert block == rest[0];
        AbsorbGrows(Merged(head, rest[0]), rest[1..]);
      }
    }
  }

  lemma {:induction false} AbsorbGrows(head: Block, rest: Chain)
    ensures Absorb(head, rest).0.size >= head.size
    decreases |rest|
  {
    if rest != [] && rest[0].IsFree() {
      AbsorbGrows(Merged(head, rest[0]), rest[1..]);
    }
  }

  /** A free block that is large enough is enough for a grant, wherever it lies. */
  lemma {:induction false} FreeBlockSuffices(chain: Chain, requested: nat, block: Block)
    requires block in chain && block.IsFree() && requested <= block.size
    ensures Allocate(chain, requested).Granted?
    decreases |chain|
  {
    if !chain[0].IsFree() {
      FreeBlockSuffices(chain[1..], requested, block);
    } else {
      var (merged, rest) := Absorb(chain[0], chain[1..]);
      if block == chain[0] {
        AbsorbGrows(chain[0], chain[1..]);
      } else {
        AbsorbKeepsSize(chain[0], chain[1..], block);
      }
      if requested > merged.size {
        FreeBlockSuffices(rest, requested, block);
      }
    }
  }

  /** A freed block takes over the whole free run behind it, and everything else stays where it is. */
  lemma FreeTakesRun(chain: Chain, i: nat, first: nat, top: nat) returns (j: nat)
    requires i < |chain| && Tiles(chain, first, top)
    ensures i < j <= |chain| && (forall k :: i < k < j ==> chain[k].IsFree()) && (j < |chain| ==> !chain[j].IsFree())
    ensures RunSize(chain, i, j) >= chain[i].size
    ensures Free(chain, i) == chain[..i] + [Block(chain[i].segment, 0, RunSize(chain, i, j))] + chain[j..]
  {
    hide Absorb, Tiles, FreeRun, RunSize, Free;
    var start, freed := FreedTiles(chain, i, first, top);
    var n := AbsorbTakesRun(freed, start, top);
    j := i + n;
    FreeIsRun(chain, i, n, freed);
  }

  lemma FreeIsRun(chain: Chain, i: nat, n: nat, freed: Chain)
    requires i < |chain| && freed == [chain[i].(owner := OWNER_FREE)] + chain[i + 1..] && FreeRun(freed, 0, n)
    requires RunSize(freed, 0, n) >= 0
    requires Absorb(freed[0], freed[1..]) == (Block(freed[0].segment, OWNER_FREE, RunSize(freed, 0, n)), freed[n..])
    ensures 0 < n <= |chain| - i && RunSize(chain, i, i + n) >= chain[i].size
    ensures (forall k :: i < k < i + n ==> chain[k].IsFree()) && (i + n < |chain| ==> !chain[i + n].IsFree())
    ensures Free(chain, i) == chain[..i] + [Block(chain[i].segment, OWNER_FREE, RunSize(chain, i, i + n))]
              + chain[i + n..]
  {
    hide Absorb, Free, RunSize;
    RunOfFreed(chain, i, n);
    AbsorbGrows(freed[0], freed[1..]);
    FreeIs(chain, i);
  }

  lemma FreeIs(chain: Chain, i: nat)
    requires i < |chain|
    ensures var (merged, left) := Absorb(chain[i].(owner := OWNER_FREE), chain[i + 1..]);
            Free(chain, i) == chain[..i] + [merged] + left
  {
  }

  lemma RunOfFreed(chain: Chain, i: nat, n: nat)
    requires i < |chain| && FreeRun([chain[i].(owner := OWNER_FREE)] + chain[i + 1..], 0, n)
    ensures var freed := [chain[i].(owner := OWNER_FREE)] + chain[i + 1..];
            && 0 < n <= |chain| - i && freed[1..] == chain[i + 1..] && freed[n..] == chain[i + n..]
            && RunSize(freed, 0, n) == RunSize(chain, i, i + n)
    ensures (forall k :: i < k < i + n ==> chain[k].IsFree()) && (i + n < |chain| ==> !chain[i + n].IsFree())
  {
    FreedFrom(chain, i, n);
  }

  lemma FreedTiles(chain: Chain, i: nat, first: nat, top: nat) returns (start: nat, freed: Chain)
    requires i < |chain| && Tiles(chain, first, top)
    ensures freed == [chain[i].(owner := OWNER_FREE)] + chain[i + 1..] && Tiles(freed, start, top)
  {
    assert chain == chain[..i] + chain[i..];
    start := TilesSplit(chain[..i], chain[i..], first, top);
    freed := [chain[i].(owner := OWNER_FREE)] + chain[i + 1..];
    assert chain[i..][1..] == chain[i + 1..] == freed[1..];
  }

  /** The chain from a freed block on differs from the chain in that block's owner only. */
  lemma FreedFrom(chain: Chain, i: nat, n: nat)
    requires i < |chain| && 0 < n <= |chain| - i
    ensures var freed := [chain[i].(owner := OWNER_FREE)] + chain[i + 1..];
            && freed[1..] == chain[i + 1..] && freed[n..] == chain[i + n..]
            && (forall k :: i < k < |chain| ==> freed[k - i] == chain[k])
            && RunSize(freed, 0, n) == RunSize(chain, i, i + n)
  {
  }

  /** What is freed can be had again: any request up to the block's size is granted afterwards. */
  lemma FreedCanBeAllocated(chain: Chain, i: nat, requested: nat, first: nat, top: nat)
    requires i < |chain| && Tiles(chain, first, top) && requested <= chain[i].size
    ensures Allocate(Free(chain, i), requested).Granted?
  {
    var j := FreeTakesRun(chain, i, first, top);
    var block := Block(chain[i].segment, OWNER_FREE, RunSize(chain, i, j));
    assert Free(chain, i)[i] == block;
    FreeBlockSuffices(Free(chain, i), requested, block);
  }
}
