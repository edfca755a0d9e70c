/** The MCB chain as a list of blocks: what each AH=48h/49h/4Ah call does to it, with no bytes in sight. */
module McbChain {
  import opened Machine

  const OWNER_FREE := 0
  const OWNER_DOS := 8
  const PSP_SEGMENT := 0x100
  const WALK_LIMIT := 0x1000

  /** One memory block: `segment` is the paragraph of its header, the data starts one above it. */
  datatype Block = Block(segment: nat, owner: nat, size: nat) {
    function End(): nat {
      segment + 1 + size
    }

    predicate IsFree() {
      owner == OWNER_FREE
    }
  }

  type Chain = seq<Block>

  /** The blocks lie end to end and fill the paragraphs first..top exactly. */
  ghost predicate Tiles(chain: Chain, first: nat, top: nat) {
    if chain == [] then first == top
    else chain[0].segment == first && Tiles(chain[1..], chain[0].End(), top)
  }

  /** Every paragraph the chain accounts for, headers included. */
  function Total(chain: Chain): nat {
    if chain == [] then 0 else chain[0].size + 1 + Total(chain[1..])
  }

  lemma {:induction false} TilesTotal(chain: Chain, first: nat, top: nat)
    requires Tiles(chain, first, top)
    ensures first + Total(chain) == top
  {
    if chain != [] {
      TilesTotal(chain[1..], chain[0].End(), top);
    }
  }

  lemma {:induction false} TilesJoin(a: Chain, b: Chain, first: nat, middle: nat, top: nat)
    requires Tiles(a, first, middle) && Tiles(b, middle, top)
    ensures Tiles(a + b, first, top)
  {
    if a == [] {
      assert a + b == b;
    } else {
      TilesJoin(a[1..], b, a[0].End(), middle, top);
      assert (a + b)[1..] == a[1..] + b;
    }
  }

  lemma {:induction false} TilesSplit(a: Chain, b: Chain, first: nat, top: nat) returns (middle: nat)
    requires Tiles(a + b, first, top)
    ensures Tiles(a, first, middle) && Tiles(b, middle, top)
    ensures b != [] ==> middle == b[0].segment
    ensures a != [] ==> middle == a[|a| - 1].End()
  {
    if a == [] {
      assert a + b == b;
      middle := first;
    } else {
      assert (a + b)[1..] == a[1..] + b;
      middle := TilesSplit(a[1..], b, a[0].End(), top);
    }
  }

  /** A tiling is ordered: every block ends before a later one starts, and lies within first..top. */
  lemma {:induction false} TilesOrdered(chain: Chain, first: nat, top: nat)
    requires Tiles(chain, first, top)
    ensures first <= top
    ensures forall i :: 0 <= i < |chain| ==> first <= chain[i].segment && chain[i].End() <= top
    ensures forall i, j :: 0 <= i < j < |chain| ==> chain[i].End() <= chain[j].segment
  {
    if chain != [] {
      TilesOrdered(chain[1..], chain[0].End(), top);
    }
  }

  /** The next header is where the block before it ends. */
  lemma TilesNext(chain: Chain, i: nat, first: nat, top: nat)
    requires i < |chain| && Tiles(chain, first, top)
    ensures chain[i].End() == if i + 1 < |chain| then chain[i + 1].segment else top
  {
    assert chain == chain[..i + 1] + chain[i + 1..];
    var middle := TilesSplit(chain[..i + 1], chain[i + 1..], first, top);
  }

  /** The blocks i..j replaced by others covering the same paragraphs. */
  function Splice(chain: Chain, i: nat, j: nat, middle: Chain): Chain
    requires i <= j <= |chain|
  {
    chain[..i] + middle + chain[j..]
  }

  lemma SpliceParts(chain: Chain, i: nat, j: nat, middle: Chain)
    requires i <= j <= |chain|
    ensures Splice(chain, i, j, middle)[..i] == chain[..i]
    ensures Splice(chain, i, j, middle)[i..i + |middle|] == middle
    ensures Splice(chain, i, j, middle)[i + |middle|..] == chain[j..]
  {
  }

  lemma SpliceTiles(chain: Chain, i: nat, j: nat, middle: Chain, first: nat, top: nat)
    requires i < j <= |chain| && Tiles(chain, first, top)
    requires Tiles(middle, chain[i].segment, chain[j - 1].End())
    ensures Tiles(Splice(chain, i, j, middle), first, top)
  {
    assert chain == chain[..j] + chain[j..];
    var end := TilesSplit(chain[..j], chain[j..], first, top);
    assert chain[..j] == chain[..i] + chain[i..j];
    var start := TilesSplit(chain[..i], chain[i..j], first, end);
    TilesJoin(chain[..i], middle, first, start, end);
    TilesJoin(chain[..i] + middle, chain[j..], first, end, top);
  }

  lemma SplitAround(chain: Chain, i: nat)
    requires i < |chain|
    ensures chain == chain[..i] + [chain[i]] + chain[i + 1..]
  {
  }

  /** `block` and the block after it, as one. */
  function Merged(block: Block, next: Block): Block {
    block.(size := block.size + 1 + next.size)
  }

  /** Merge-on-walk: `block` swallows the free blocks that follow it. */
  function Absorb(block: Block, rest: Chain): (r: (Block, Chain))
    ensures |r.1| <= |rest|
    ensures r.1 != [] ==> !r.1[0].IsFree()
    ensures r.0.segment == block.segment && r.0.owner == block.owner
    ensures block.End() <= r.0.End()
    decreases |rest|
  {
    if rest == [] || !rest[0].IsFree() then (block, rest)
    else Absorb(Merged(block, rest[0]), rest[1..])
  }

  /** The chain after `block`, standing at index i, has absorbed what follows it. */
  function Coalesced(chain: Chain, i: nat, block: Block): Chain
    requires i < |chain|
  {
    var (merged, rest) := Absorb(block, chain[i + 1..]);
    chain[..i] + [merged] + rest
  }

  lemma CoalesceStep(chain: Chain, i: nat)
    requires i + 1 < |chain| && chain[i + 1].IsFree()
    ensures var next := Splice(chain, i, i + 2, [Merged(chain[i], chain[i + 1])]);
            Coalesced(next, i, next[i]) == Coalesced(chain, i, chain[i])
  {
    SpliceParts(chain, i, i + 2, [Merged(chain[i], chain[i + 1])]);
    assert chain[i + 1..][1..] == chain[i + 2..];
  }

  lemma CoalesceDone(chain: Chain, i: nat)
    requires i < |chain| && (i + 1 < |chain| ==> !chain[i + 1].IsFree())
    ensures Coalesced(chain, i, chain[i]) == chain
  {
    SplitAround(chain, i);
  }

  /** AH=48h's result: the data segment granted, or the largest run seen; the walk merges either way. */
  datatype Allocation =
    | Granted(chain: Chain, segment: nat)
    | Refused(chain: Chain, largest: nat)
  {
    function After(prefix: Chain, seen: nat): Allocation {
      match this
      case Granted(chain, segment) => Granted(prefix + chain, segment)
      case Refused(chain, largest) => Refused(prefix + chain, Max(seen, largest))
    }
  }

  /** The block that satisfies a request, and the free tail split off it when there is one. */
  function Carve(block: Block, requested: nat): Chain
    requires requested <= block.size
  {
    if requested < block.size then
      [Block(block.segment, PSP_SEGMENT, requested),
       Block(block.segment + 1 + requested, OWNER_FREE, block.size - requested - 1)]
    else [block.(owner := PSP_SEGMENT)]
  }

  function Allocate(chain: Chain, requested: nat): Allocation
    decreases |chain|
  {
    if chain == [] then Refused([], 0)
    else if !chain[0].IsFree() then Allocate(chain[1..], requested).After([chain[0]], 0)
    else
      var (block, rest) := Absorb(chain[0], chain[1..]);
      if requested <= block.size then Granted(Carve(block, requested) + rest, block.segment + 1)
      else Allocate(rest, requested).After([block], block.size)
  }

  /** Carving is cutting, and giving the kept part to the program. */
  lemma CarveIsCut(chain: Chain, i: nat, requested: nat)
    requires i < |chain| && chain[i].IsFree() && requested <= chain[i].size
    ensures var cut := Splice(chain, i, i + 1, Cut(chain[i], chain[i].size, requested));
            Splice(cut, i, i + 1, [cut[i].(owner := PSP_SEGMENT)]) ==
            Splice(chain, i, i + 1, Carve(chain[i], requested))
  {
  }

  // The allocation walk, standing at block i with everything before it already passed over.

  lemma AllocateStart(chain: Chain, requested: nat)
    ensures Allocate(chain, requested) == Allocate(chain[0..], requested).After(chain[..0], 0)
  {
    assert chain[0..] == chain;
    match Allocate(chain, requested) {
      case Granted(result, _) => assert [] + result == result;
      case Refused(result, _) => assert [] + result == result;
    }
  }

  lemma AllocatePastOwned(chain: Chain, i: nat, requested: nat, seen: nat)
    requires i < |chain| && !chain[i].IsFree()
    ensures Allocate(chain[i..], requested).After(chain[..i], seen)
         == Allocate(chain[i + 1..], requested).After(chain[..i + 1], seen)
  {
    assert chain[i..][1..] == chain[i + 1..];
    AfterTwice(Allocate(chain[i + 1..], requested), chain[..i], chain[i], seen, 0);
  }

  /** Coalescing at block i is what the walk does there first. */
  lemma AllocateMerged(chain: Chain, i: nat, requested: nat)
    requires i < |chain| && chain[i].IsFree()
    ensures Coalesced(chain, i, chain[i])[..i] == chain[..i]
    ensures Allocate(Coalesced(chain, i, chain[i])[i..], requested) == Allocate(chain[i..], requested)
  {
    var (block, rest) := Absorb(chain[i], chain[i + 1..]);
    assert chain[i..][1..] == chain[i + 1..];
    assert Coalesced(chain, i, chain[i])[i..] == [block] + rest;
    assert Absorb(block, rest) == (block, rest);
  }

  lemma AllocatePastFree(chain: Chain, i: nat, requested: nat, seen: nat)
    requires i < |chain| && chain[i].IsFree() && chain[i].size < requested
    requires i + 1 < |chain| ==> !chain[i + 1].IsFree()
    ensures Allocate(chain[i..], requested).After(chain[..i], seen)
         == Allocate(chain[i + 1..], requested).After(chain[..i + 1], Max(seen, chain[i].size))
  {
    assert chain[i..][1..] == chain[i + 1..];
    AfterTwice(Allocate(chain[i + 1..], requested), chain[..i], chain[i], seen, chain[i].size);
  }

  lemma AllocateHere(chain: Chain, i: nat, requested: nat, seen: nat)
    requires i < |chain| && chain[i].IsFree() && requested <= chain[i].size
    requires i + 1 < |chain| ==> !chain[i + 1].IsFree()
    ensures Allocate(chain[i..], requested).After(chain[..i], seen)
         == Granted(Splice(chain, i, i + 1, Carve(chain[i], requested)), chain[i].segment + 1)
  {
    assert chain[i..][1..] == chain[i + 1..];
    var carved := Carve(chain[i], requested);
    assert chain[..i] + (carved + chain[i + 1..]) == chain[..i] + carved + chain[i + 1..];
  }

  lemma AllocateEnd(chain: Chain, requested: nat, seen: nat)
    ensures Allocate(chain[|chain|..], requested).After(chain[..|chain|], seen) == Refused(chain, seen)
  {
    assert chain[..|chain|] + [] == chain;
  }

  lemma AfterTwice(a: Allocation, prefix: Chain, block: Block, seen: nat, size: nat)
    ensures a.After([block], size).After(prefix, seen) == a.After(prefix + [block], Max(seen, size))
  {
    assert prefix + ([block] + a.chain) == prefix + [block] + a.chain;
  }

  /** AH=49h on the block at index i. */
  function Free(chain: Chain, i: nat): Chain
    requires i < |chain|
  {
    Coalesced(chain, i, chain[i].(owner := OWNER_FREE))
  }

  datatype Resizing = Resized(chain: Chain) | TooLarge(largest: nat)

  /** The size AH=4Ah can give the block at index i: its own, and one free neighbour's. */
  function Reach(chain: Chain, i: nat): nat
    requires i < |chain|
  {
    if i + 1 < |chain| && chain[i + 1].IsFree() then chain[i].size + 1 + chain[i + 1].size
    else chain[i].size
  }

  /** The block cut to `requested` paragraphs out of `available`, with a free tail for the rest. */
  function Cut(block: Block, available: nat, requested: nat): Chain
    requires requested <= available
  {
    if requested < available then
      [block.(size := requested),
       Block(block.segment + 1 + requested, OWNER_FREE, available - requested - 1)]
    else [block.(size := available)]
  }

  lemma CutTiles(block: Block, available: nat, requested: nat)
    requires requested <= available
    ensures Tiles(Cut(block, available, requested), block.segment, block.segment + 1 + available)
  {
    var cut := Cut(block, available, requested);
    if |cut| == 2 {
      assert Tiles(cut[1..][1..], cut[1].End(), block.segment + 1 + available);
    }
  }

  /** AH=4Ah on the block at index i. */
  function Resize(chain: Chain, i: nat, requested: nat): Resizing
    requires i < |chain|
  {
    if requested <= chain[i].size then
      Resized(Splice(chain, i, i + 1, Cut(chain[i], chain[i].size, requested)))
    else if requested <= Reach(chain, i) then
      Resized(Splice(chain, i, i + 2, Cut(chain[i], Reach(chain, i), requested)))
    else TooLarge(Reach(chain, i))
  }

  const FIRST_MCB := 0x7E
  const ENVIRONMENT_PARAGRAPHS := 0x10
  const RESIDENT_MCB := 0x8F
  const RESIDENT_PARAGRAPHS := 0x6F

  /** What DosMcbInitializeWithTop lays down: the environment, DOS's own block, and the program's. */
  function InitialChain(top: nat): Chain
    requires top >= PSP_SEGMENT
  {
    [Block(FIRST_MCB, PSP_SEGMENT, ENVIRONMENT_PARAGRAPHS),
     Block(RESIDENT_MCB, OWNER_DOS, RESIDENT_PARAGRAPHS),
     Block(PSP_SEGMENT - 1, PSP_SEGMENT, top - PSP_SEGMENT)]
  }

  lemma InitialTiles(top: nat)
    requires top >= PSP_SEGMENT
    ensures Tiles(InitialChain(top), FIRST_MCB, top)
  {
    var chain := InitialChain(top);
    assert Tiles(chain[2..], PSP_SEGMENT - 1, top);
    assert chain[1..][1..] == chain[2..];
  }

  /** DosMcbReserveTop's result: a new chain and data segment, or nothing reserved. */
  datatype Reservation = Reserved(chain: Chain, segment: nat) | Full

  /** The block DosMcbReserveTop carves: the last one, or the one before it when the last is DOS's. */
  function Victim(chain: Chain): nat
    requires chain != []
  {
    if chain[|chain| - 1].owner == OWNER_DOS && |chain| > 1 then |chain| - 2 else |chain| - 1
  }

  /** Block v keeps its bottom; a DOS block of `paragraphs` takes its top. */
  function ReserveAt(chain: Chain, v: nat, paragraphs: nat): Chain
    requires v < |chain| && paragraphs < chain[v].size
  {
    Splice(chain, v, v + 1, Halves(chain[v], paragraphs))
  }

  function Halves(block: Block, paragraphs: nat): Chain
    requires paragraphs < block.size
  {
    [block.(size := block.size - paragraphs - 1), Block(block.End() - paragraphs - 1, OWNER_DOS, paragraphs)]
  }

  function ReserveTop(chain: Chain, paragraphs: nat): Reservation
    requires chain != []
  {
    var v := Victim(chain);
    if |chain| - 1 > WALK_LIMIT || chain[v].size < paragraphs + 2 then Full
    else Reserved(ReserveAt(chain, v, paragraphs), chain[v].End() - paragraphs)
  }
}
