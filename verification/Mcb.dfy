/** DosMcb*: the chain as it lies in the memory it manages, and the calls that rewrite its headers in place. */
module Mcb {
  import opened Machine
  import opened McbChain
  import opened McbHeader

  /** Every block's header is in place and only the last is signed 'Z'. */
  ghost predicate Stored(memory: seq<Byte>, chain: Chain) {
    chain != [] && forall i :: 0 <= i < |chain| ==> HeaderIn(memory, chain[i], i == |chain| - 1)
  }

  /** The memory holds `chain` as an MCB chain over the paragraphs first..top. */
  ghost predicate Holds(memory: seq<Byte>, chain: Chain, first: nat, top: nat) {
    Stored(memory, chain) && Tiles(chain, first, top)
  }

  /** What a walk reads at the header of block i. */
  lemma HeaderOf(memory: seq<Byte>, chain: Chain, i: nat, first: nat, top: nat)
    requires Holds(memory, chain, first, top) && i < |chain|
    ensures HeaderIn(memory, chain[i], i == |chain| - 1)
    ensures first <= chain[i].segment < chain[i].End() <= top
    ensures chain[i].End() == if i + 1 < |chain| then chain[i + 1].segment else top
  {
    TilesNext(chain, i, first, top);
    TilesOrdered(chain, first, top);
  }

  /** A walk steps from block i to the header of block i + 1, and the WORD addition does not wrap. */
  lemma NextHeader(memory: seq<Byte>, chain: Chain, i: nat, first: nat, top: Word)
    requires Holds(memory, chain, first, top) && i + 1 < |chain|
    ensures HeaderIn(memory, chain[i], false) && HeaderIn(memory, chain[i + 1], i + 2 == |chain|)
    ensures chain[i].segment + 1 + WordIn(memory, Linear(chain[i].segment) + 3) == chain[i + 1].segment
    ensures first <= chain[i].segment < chain[i].End() == chain[i + 1].segment < chain[i + 1].End() <= top
  {
    HeaderOf(memory, chain, i, first, top);
    HeaderOf(memory, chain, i + 1, first, top);
  }

  /** A walk from `first` has passed over `seen`, all members, and stands at `at`. */
  ghost predicate Walked(memory: seq<Byte>, seen: Chain, first: nat, at: nat) {
    (forall i :: 0 <= i < |seen| ==> HeaderIn(memory, seen[i], false)) && Tiles(seen, first, at)
  }

  /** Reading is deterministic: any chain the memory holds begins with what a walk has passed over. */
  lemma {:induction false} WalkedIsPrefix(memory: seq<Byte>, seen: Chain, chain: Chain, first: nat, at: nat, top: nat)
    requires Walked(memory, seen, first, at) && Holds(memory, chain, first, top)
    ensures |seen| < |chain| && chain[..|seen|] == seen && chain[|seen|].segment == at
    decreases |seen|
  {
    if seen != [] {
      assert HeaderIn(memory, seen[0], false) && HeaderIn(memory, chain[0], |chain| == 1);
      assert seen[0] == chain[0];
      assert Tiles(chain[1..], chain[0].End(), top) && chain[1..] != [];
      forall i | 0 <= i < |chain[1..]|
        ensures HeaderIn(memory, chain[1..][i], i == |chain[1..]| - 1)
      {
        assert HeaderIn(memory, chain[i + 1], i + 1 == |chain| - 1);
      }
      forall i | 0 <= i < |seen[1..]|
        ensures HeaderIn(memory, seen[1..][i], false)
      {
        assert HeaderIn(memory, seen[i + 1], false);
      }
      WalkedIsPrefix(memory, seen[1..], chain[1..], seen[0].End(), at, top);
      assert chain[1..][..|seen| - 1] == chain[1..|seen|];
    }
  }

  /** The memory holds at most one chain: the in-band list reads back one way only. */
  lemma ChainUnique(memory: seq<Byte>, a: Chain, b: Chain, first: nat, top: nat, otherTop: nat)
    requires Holds(memory, a, first, top) && Holds(memory, b, first, otherTop)
    ensures a == b && top == otherTop
  {
    var n := |a| - 1;
    assert a == a[..n] + a[n..];
    var at := TilesSplit(a[..n], a[n..], first, top);
    WalkedIsPrefix(memory, a[..n], b, first, at, otherTop);
    assert HeaderIn(memory, a[n], true) && HeaderIn(memory, b[n], n == |b| - 1);
    HeaderOf(memory, a, n, first, top);
    HeaderOf(memory, b, n, first, otherTop);
    assert b == b[..n] + [b[n]];
  }

  /**
   * DosMcbCheckChain. The walk that justifies the answer comes back with it: `seen` are the blocks
   * passed over and `at` the paragraph it stopped at.
   */
  method DosMcbCheckChain(bytes: array<Byte>, firstMcb: Word, topParagraph: Word)
    returns (code: nat, ghost seen: Chain, ghost at: nat)
    requires bytes.Length >= REAL_MODE_BYTES
    ensures code <= 4
    ensures Walked(bytes[..], seen, firstMcb, at) && at <= 0xFFFF
    ensures code == 0 <==> exists chain :: Holds(bytes[..], chain, firstMcb, topParagraph) && |chain| <= 0x1000
    ensures code == 4 ==> exists chain, end: nat :: Holds(bytes[..], chain, firstMcb, end) && end < topParagraph
    ensures code == 1 ==> |seen| == WALK_LIMIT
    ensures code == 2 ==> bytes[Linear(at)] != MEMBER && bytes[Linear(at)] != LAST
    ensures code == 3 ==> at + 1 + WordIn(bytes[..], Linear(at) + 3) > topParagraph
  {
    hide Holds, Walked;
    var mcbSegment: Word := firstMcb;
    var walkCount := 0;
    seen, at := [], firstMcb;
    ghost var memory := bytes[..];
    WalkedNothing(memory, firstMcb);
    while true
      invariant at == mcbSegment && walkCount == |seen| <= WALK_LIMIT
      invariant Walked(memory, seen, firstMcb, at)
      decreases WALK_LIMIT - walkCount
    {
      var mcb := Linear(mcbSegment);
      var signature := bytes[mcb];
      var blockSize := ReadWord(bytes, mcb + 3);
      var nextSegment: Dword := mcbSegment + 1 + blockSize;
      ghost var block := Block(at, WordIn(memory, mcb + 1), blockSize);
      AnyChainFrom(memory, seen, firstMcb, at, topParagraph);
      walkCount := walkCount + 1;
      if walkCount > WALK_LIMIT {
        code := 1;
        return;
      }
      if signature != MEMBER && signature != LAST {
        code := 2;
        return;
      }
      if nextSegment > topParagraph {
        code := 3;
        return;
      }
      WalkedStep(memory, seen, firstMcb, at, block, signature == LAST);
      if signature == LAST {
        code := if nextSegment == topParagraph then 0 else 4;
        return;
      }
      seen, at := seen + [block], nextSegment;
      mcbSegment := nextSegment;
    }
  }

  lemma WalkedNothing(memory: seq<Byte>, first: nat)
    ensures Walked(memory, [], first, first)
  {
  }

  /** What every chain the memory holds has where a walk stands. */
  lemma AnyChainFrom(memory: seq<Byte>, seen: Chain, first: nat, at: nat, top: nat)
    requires Walked(memory, seen, first, at)
    ensures forall chain: Chain :: Holds(memory, chain, first, top) ==>
              && |seen| < |chain| && chain[|seen|].segment == at
              && HeaderIn(memory, chain[|seen|], |chain| == |seen| + 1)
              && chain[|seen|].End() <= top && (|chain| == |seen| + 1 ==> chain[|seen|].End() == top)
  {
    forall chain: Chain | Holds(memory, chain, first, top)
      ensures && |seen| < |chain| && chain[|seen|].segment == at
              && HeaderIn(memory, chain[|seen|], |chain| == |seen| + 1)
              && chain[|seen|].End() <= top && (|chain| == |seen| + 1 ==> chain[|seen|].End() == top)
    {
      WalkedIsPrefix(memory, seen, chain, first, at, top);
      HeaderOf(memory, chain, |seen|, first, top);
    }
  }

  lemma WalkedStep(memory: seq<Byte>, seen: Chain, first: nat, at: nat, block: Block, isLast: bool)
    requires Walked(memory, seen, first, at) && block.segment == at && HeaderIn(memory, block, isLast)
    ensures isLast ==> Holds(memory, seen + [block], first, block.End())
    ensures !isLast ==> Walked(memory, seen + [block], first, block.End())
  {
    assert Tiles([block], at, block.End());
    TilesJoin(seen, [block], first, at, block.End());
  }

  /** Where a walk stands at a block too large for what is left, no chain reads back. */
  lemma NoChainFrom(memory: seq<Byte>, seen: Chain, first: nat, at: nat, size: nat, top: nat)
    requires Walked(memory, seen, first, at) && at + 1 + size > top
    requires at < top ==> Linear(at) + 5 <= |memory| && WordIn(memory, Linear(at) + 3) == size
    ensures forall other: Chain :: !Holds(memory, other, first, top)
  {
    hide Holds, Walked;
    AnyChainFrom(memory, seen, first, at, top);
  }

  /** A member grown past its block, in front of a block too large for what is left: no chain reads back. */
  lemma OverlongHoldsNothing(now: seq<Byte>, chain: Chain, v: nat, kept: nat, size: nat, first: nat, top: nat)
    requires v < |chain| && Tiles(chain, first, top)
    requires forall i :: 0 <= i < v ==> HeaderIn(now, chain[i], false)
    requires HeaderIn(now, chain[v].(size := kept), false)
    requires var at := chain[v].segment + 1 + kept;
             && at + 1 + size > top
             && (at < top ==> Linear(at) + 5 <= |now| && WordIn(now, Linear(at) + 3) == size)
    ensures forall other: Chain :: !Holds(now, other, first, top)
  {
    hide HeaderIn, Holds;
    var at := chain[v].segment + 1 + kept;
    assert chain == chain[..v] + chain[v..];
    var middle := TilesSplit(chain[..v], chain[v..], first, top);
    var seen := chain[..v] + [chain[v].(size := kept)];
    assert Tiles([chain[v].(size := kept)], middle, at);
    TilesJoin(chain[..v], [chain[v].(size := kept)], first, middle, at);
    NoChainFrom(now, seen, first, at, size, top);
  }

  lemma HeaderKept(was: seq<Byte>, now: seq<Byte>, block: Block, isLast: bool, lo: nat, hi: nat)
    requires HeaderIn(was, block, isLast)
    requires SameOutside(was, now, Linear(lo), Linear(hi))
    requires block.End() <= lo || hi <= block.segment
    ensures HeaderIn(now, block, isLast)
  {
    var at := Linear(block.segment);
    assert now[at] == was[at] && now[at + 1] == was[at + 1] && now[at + 2] == was[at + 2];
    assert now[at + 3] == was[at + 3] && now[at + 4] == was[at + 4];
  }

  /** Rewriting only the paragraphs of the blocks i..j, into other blocks, leaves a valid chain. */
  lemma HoldsSplice(was: seq<Byte>, now: seq<Byte>, chain: Chain, i: nat, j: nat, middle: Chain, first: nat, top: nat)
    requires Holds(was, chain, first, top)
    requires i < j <= |chain| && middle != [] && Tiles(middle, chain[i].segment, chain[j - 1].End())
    requires forall m :: 0 <= m < |middle| ==> HeaderIn(now, middle[m], j == |chain| && m == |middle| - 1)
    requires SameOutside(was, now, Linear(chain[i].segment), Linear(chain[j - 1].End()))
    ensures Holds(now, Splice(chain, i, j, middle), first, top)
  {
    SpliceTiles(chain, i, j, middle, first, top);
    TilesOrdered(chain, first, top);
    var after := Splice(chain, i, j, middle);
    forall n | 0 <= n < |after|
      ensures HeaderIn(now, after[n], n == |after| - 1)
    {
      if n < i {
        assert after[n] == chain[n];
        HeaderKept(was, now, chain[n], false, chain[i].segment, chain[j - 1].End());
      } else if n < i + |middle| {
        assert after[n] == middle[n - i];
      } else {
        var o := n - i - |middle| + j;
        assert after[n] == chain[o];
        HeaderKept(was, now, chain[o], o == |chain| - 1, chain[i].segment, chain[j - 1].End());
      }
    }
  }

  lemma StartIs(memory: seq<Byte>, top: Word)
    requires HeaderIn(memory, Block(FIRST_MCB, PSP_SEGMENT, ENVIRONMENT_PARAGRAPHS), false)
    requires HeaderIn(memory, Block(RESIDENT_MCB, OWNER_DOS, RESIDENT_PARAGRAPHS), false)
    requires HeaderIn(memory, Block(PSP_SEGMENT - 1, PSP_SEGMENT, ToWord(top - PSP_SEGMENT)), true)
    ensures StartBytes(memory, top)
  {
    HeaderBytesAre(memory, Block(FIRST_MCB, PSP_SEGMENT, ENVIRONMENT_PARAGRAPHS), false);
    HeaderBytesAre(memory, Block(RESIDENT_MCB, OWNER_DOS, RESIDENT_PARAGRAPHS), false);
    HeaderBytesAre(memory, Block(PSP_SEGMENT - 1, PSP_SEGMENT, ToWord(top - PSP_SEGMENT)), true);
  }

  /** A header as its five bytes. */
  lemma HeaderBytesAre(memory: seq<Byte>, block: Block, isLast: bool)
    requires HeaderIn(memory, block, isLast)
    ensures block.owner <= 0xFFFF && block.size <= 0xFFFF
    ensures HeaderBytes(memory, block.segment,
                        [if isLast then 0x5A else 0x4D, block.owner % 0x100, block.owner / 0x100,
                         block.size % 0x100, block.size / 0x100])
  {
    WordBytes(memory, Linear(block.segment) + 1);
    WordBytes(memory, Linear(block.segment) + 3);
  }

  /** Three blocks up to `top`; a chain of this machine exactly when the program block has room. */
  method DosMcbInitializeWithTop(bytes: array<Byte>, top: Word) returns (firstMcb: Word)
    requires bytes.Length >= REAL_MODE_BYTES
    modifies bytes
    ensures firstMcb == FIRST_MCB && StartBytes(bytes[..], top)
    ensures top >= PSP_SEGMENT ==> Holds(bytes[..], InitialChain(top), FIRST_MCB, top)
    ensures top < PSP_SEGMENT ==> forall chain: Chain :: !Holds(bytes[..], chain, FIRST_MCB, top)
  {
    DosMcbWriteHeader(bytes, FIRST_MCB, MEMBER, PSP_SEGMENT, ENVIRONMENT_PARAGRAPHS);
    ghost var m1 := bytes[..];
    ghost var environment := Block(FIRST_MCB, PSP_SEGMENT, ENVIRONMENT_PARAGRAPHS);
    ghost var resident := Block(RESIDENT_MCB, OWNER_DOS, RESIDENT_PARAGRAPHS);
    DosMcbWriteHeader(bytes, RESIDENT_MCB, MEMBER, OWNER_DOS, RESIDENT_PARAGRAPHS);
    ghost var m2 := bytes[..];
    HeaderKept(m1, m2, environment, false, RESIDENT_MCB, RESIDENT_MCB + 1);
    DosMcbWriteHeader(bytes, PSP_SEGMENT - 1, LAST, PSP_SEGMENT, ToWord(top - PSP_SEGMENT));
    HeaderKept(m2, bytes[..], environment, false, PSP_SEGMENT - 1, PSP_SEGMENT);
    HeaderKept(m2, bytes[..], resident, false, PSP_SEGMENT - 1, PSP_SEGMENT);
    ghost var seen := [environment, resident];
    assert Tiles(seen[1..][1..], PSP_SEGMENT - 1, PSP_SEGMENT - 1);
    AnyChainFrom(bytes[..], seen, FIRST_MCB, PSP_SEGMENT - 1, top);
    if top >= PSP_SEGMENT {
      InitialTiles(top);
    }
    StartIs(bytes[..], top);
    firstMcb := FIRST_MCB;
  }

  /** Byte k lies in a free block, header or data. */
  ghost predicate InFree(chain: Chain, k: nat) {
    exists i :: 0 <= i < |chain| && chain[i].IsFree() && Linear(chain[i].segment) <= k < Linear(chain[i].End())
  }

  /** From `was` to `now`, only bytes of `chain`'s free blocks may differ. */
  ghost predicate OnlyFreeBytes(was: seq<Byte>, now: seq<Byte>, chain: Chain) {
    |was| == |now| && forall k: nat {:trigger InFree(chain, k)} ::
      k < |was| && !InFree(chain, k) ==> now[k] == was[k]
  }

  ghost predicate FreesNothing(before: Chain, after: Chain) {
    forall k: nat {:trigger InFree(before, k)} {:trigger InFree(after, k)} :: InFree(after, k) ==> InFree(before, k)
  }

  lemma OnlyFreeNone(memory: seq<Byte>, chain: Chain)
    ensures OnlyFreeBytes(memory, memory, chain) && FreesNothing(chain, chain)
  {
  }

  lemma FirstBlock(memory: seq<Byte>, chain: Chain, first: nat, top: nat)
    requires Holds(memory, chain, first, top)
    ensures |chain| > 0 && chain[0].segment == first
  {
  }

  lemma OnlyFreeTwice(m0: seq<Byte>, m1: seq<Byte>, m2: seq<Byte>, c0: Chain, c1: Chain, c2: Chain)
    requires OnlyFreeBytes(m0, m1, c0) && FreesNothing(c0, c1)
    requires OnlyFreeBytes(m1, m2, c1) && FreesNothing(c1, c2)
    ensures OnlyFreeBytes(m0, m2, c0) && FreesNothing(c0, c2)
  {
  }

  /** A reservation whose size fits: block v shortened, then a DOS block written where it now ends. */
  lemma ReservationHolds(was: seq<Byte>, mid: seq<Byte>, now: seq<Byte>,
                         chain: Chain, v: nat, paragraphs: nat, first: nat, top: nat)
    requires Holds(was, chain, first, top) && v < |chain| && paragraphs < chain[v].size
    requires var halves := Halves(chain[v], paragraphs);
             && HeaderIn(mid, halves[0], false)
             && HeaderIn(now, halves[1], v + 1 == |chain|)
             && SameOutside(was, mid, Linear(chain[v].segment), Linear(chain[v].segment) + 5)
             && SameOutside(mid, now, Linear(halves[1].segment), Linear(halves[1].segment + 1))
    ensures Holds(now, ReserveAt(chain, v, paragraphs), first, top)
  {
    var halves := Halves(chain[v], paragraphs);
    HeaderKept(mid, now, halves[0], false, halves[1].segment, halves[1].segment + 1);
    assert Tiles(halves[1..], halves[1].segment, chain[v].End());
    HoldsSplice(was, now, chain, v, v + 1, halves, first, top);
  }

  /** A reservation whose size wrapped: whatever is read back, it is not a chain up to `top`. */
  lemma ReservationHoldsNothing(was: seq<Byte>, mid: seq<Byte>, now: seq<Byte>, chain: Chain, v: nat,
                                paragraphs: nat, kept: nat, at: nat, first: nat, top: nat)
    requires Holds(was, chain, first, top) && v < |chain| && 0 < first && top <= 0xFFFF
    requires 0xFFFE <= paragraphs && chain[v].size <= kept
    requires at == chain[v].segment + 1 + kept || (at == 0 && chain[v].segment + 1 + kept > top)
    requires HeaderIn(mid, chain[v].(size := kept), false)
    requires exists owner, isLast :: HeaderIn(now, Block(at, owner, paragraphs), isLast)
    requires SameOutside(was, mid, Linear(chain[v].segment), Linear(chain[v].segment) + 5)
    requires SameOutside(mid, now, Linear(at), Linear(at + 1))
    ensures forall other: Chain :: !Holds(now, other, first, top)
  {
    TilesOrdered(chain, first, top);
    HeaderKept(mid, now, chain[v].(size := kept), false, at, at + 1);
    forall i | 0 <= i < v
      ensures HeaderIn(now, chain[i], false)
    {
      assert HeaderIn(was, chain[i], false);
      HeaderKept(was, mid, chain[i], false, chain[v].segment, chain[v].segment + 1);
      HeaderKept(mid, now, chain[i], false, at, at + 1);
    }
    OverlongHoldsNothing(now, chain, v, kept, paragraphs, first, top);
  }

  /** Merging the free blocks after a free block leaves the same bytes free. */
  lemma CoalescedFree(chain: Chain, i: nat, first: nat, top: nat)
    requires i < |chain| && chain[i].IsFree() && Tiles(chain, first, top)
    ensures forall k: nat :: InFree(Coalesced(chain, i, chain[i]), k) ==> InFree(chain, k)
    decreases |chain|
  {
    if i + 1 < |chain| && chain[i + 1].IsFree() {
      TilesNext(chain, i, first, top);
      TilesNext(chain, i + 1, first, top);
      var merged := Merged(chain[i], chain[i + 1]);
      var next := Splice(chain, i, i + 2, [merged]);
      assert Tiles([merged], chain[i].segment, chain[i + 1].End());
      SpliceTiles(chain, i, i + 2, [merged], first, top);
      CoalesceStep(chain, i);
      CoalescedFree(next, i, first, top);
      forall k: nat | InFree(next, k)
        ensures InFree(chain, k)
      {
        var n :| 0 <= n < |next| && next[n].IsFree() && Linear(next[n].segment) <= k < Linear(next[n].End());
        if n == i {
          assert k < Linear(chain[i].End()) || Linear(chain[i + 1].segment) <= k;
        } else {
          assert next[n] == chain[if n < i then n else n + 1];
        }
      }
    } else {
      CoalesceDone(chain, i);
    }
  }

  /** The sum `paragraphs + 2` wraps in a WORD and the size test lets the request through. */
  predicate SizeTestWraps(chain: Chain, paragraphs: Word)
    requires chain != []
  {
    paragraphs >= 0xFFFE && |chain| - 1 <= WALK_LIMIT && chain[Victim(chain)].size >= ToWord(paragraphs as int + 2)
  }

  /**
   * On the chain DOS starts with the test wraps for the two largest requests and for no other: 0xFFFE
   * paragraphs out of the 0x9EC0 the program has, say, which leaves no chain behind.
   */
  lemma ReservationWrapsIff(top: Word, paragraphs: Word)
    requires top > PSP_SEGMENT
    ensures SizeTestWraps(InitialChain(top), paragraphs) <==> paragraphs >= 0xFFFE
    ensures SizeTestWraps(InitialChain(0x9FC0), 0xFFFE)
  {
    assert Victim(InitialChain(top)) == 2;
  }

  /** Every byte of the block, header paragraph and data, is what it was. */
  ghost predicate BlockKept(was: seq<Byte>, now: seq<Byte>, block: Block) {
    |was| == |now| && forall k ::
        0 <= k < |was| && Linear(block.segment) <= k < Linear(block.End()) ==> now[k] == was[k]
  }

  /** An allocation's changes are confined to free blocks, so no owned block loses a byte. */
  lemma AllocateKeepsOwnedBytes(was: seq<Byte>, now: seq<Byte>, chain: Chain, j: nat, first: nat, top: nat)
    requires Tiles(chain, first, top) && OnlyFreeBytes(was, now, chain)
    requires j < |chain| && !chain[j].IsFree()
    ensures BlockKept(was, now, chain[j])
  {
    TilesOrdered(chain, first, top);
    forall k: nat | k < |was| && Linear(chain[j].segment) <= k < Linear(chain[j].End())
      ensures now[k] == was[k]
    {
      assert !InFree(chain, k);
    }
  }

  /**
   * A resize's changes are two headers inside the block and its free neighbour: every other owned
   * block keeps all its bytes, and the block itself the data that both sizes cover.
   */
  lemma ResizeKeepsData(was: seq<Byte>, now: seq<Byte>, chain: Chain, i: nat, requested: nat, first: nat, top: nat)
    requires Tiles(chain, first, top) && i < |chain| && requested <= Reach(chain, i)
    requires OnlyHeaders(was, now, chain[i].segment, chain[i].segment + 1 + requested)
    requires requested == Reach(chain, i) ==>
               SameOutside(was, now, Linear(chain[i].segment), Linear(chain[i].segment) + 5)
    ensures forall j :: 0 <= j < |chain| && j != i && !chain[j].IsFree() ==> BlockKept(was, now, chain[j])
    ensures forall k :: 0 <= k < |was|
              && Linear(chain[i].segment + 1) <= k < Linear(chain[i].segment + 1 + Min(requested, chain[i].size))
              ==> now[k] == was[k]
  {
    TilesOrdered(chain, first, top);
    TilesNext(chain, i, first, top);
    forall j | 0 <= j < |chain| && j != i && !chain[j].IsFree()
      ensures BlockKept(was, now, chain[j])
    {
      assert j < i ==> chain[j].End() <= chain[i].segment;
      assert j > i ==> chain[i].segment + 1 + Reach(chain, i) <= chain[j].segment;
    }
  }

  /**
   * A free rewrites the first header bytes of the block it names: that
   * block's data and every other block stay whole.
   */
  lemma FreeKeepsOwnedBytes(was: seq<Byte>, now: seq<Byte>, chain: Chain, i: nat, first: nat, top: nat)
    requires Tiles(chain, first, top) && i < |chain|
    requires SameOutside(was, now, Linear(chain[i].segment), Linear(chain[i].segment) + 5)
    ensures forall j :: 0 <= j < |chain| && j != i ==> BlockKept(was, now, chain[j])
    ensures forall k :: 0 <= k < |was| && Linear(chain[i].segment + 1) <= k < Linear(chain[i].End()) ==>
              now[k] == was[k]
  {
    TilesOrdered(chain, first, top);
    forall j | 0 <= j < |chain| && j != i
      ensures BlockKept(was, now, chain[j])
    {
      assert if j < i then chain[j].End() <= chain[i].segment else chain[i].End() <= chain[j].segment;
    }
  }

  /**
   * A reservation writes two headers, both inside the block it carves: every other block stays whole,
   * and so does the data the carved block keeps.
   */
  lemma ReserveKeepsOwnedBytes(was: seq<Byte>, now: seq<Byte>, chain: Chain, paragraphs: nat, first: nat, top: nat)
    requires Tiles(chain, first, top) && chain != [] && ReserveTop(chain, paragraphs).Reserved?
    requires ReserveTop(chain, paragraphs).segment > 0
    requires OnlyHeaders(was, now, chain[Victim(chain)].segment, ReserveTop(chain, paragraphs).segment - 1)
    ensures forall j :: 0 <= j < |chain| && j != Victim(chain) ==> BlockKept(was, now, chain[j])
    ensures var carved := ReserveTop(chain, paragraphs).chain[Victim(chain)];
            forall k :: 0 <= k < |was| && Linear(carved.segment + 1) <= k < Linear(carved.End()) ==> now[k] == was[k]
  {
    var v := Victim(chain);
    TilesOrdered(chain, first, top);
    SpliceParts(chain, v, v + 1, Halves(chain[v], paragraphs));
    forall j | 0 <= j < |chain| && j != v
      ensures BlockKept(was, now, chain[j])
    {
      assert if j < v then chain[j].End() <= chain[v].segment else chain[v].End() <= chain[j].segment;
    }
  }

  /** Block i takes over the free block after it. */
  lemma JoinHolds(memory: seq<Byte>, chain: Chain, i: nat, first: nat, top: Word)
    requires |memory| >= REAL_MODE_BYTES && Holds(memory, chain, first, top) && i + 1 < |chain|
    ensures chain[i].segment <= 0xFFFF
    ensures Holds(MergedOnce(memory, chain[i].segment), Splice(chain, i, i + 2, [Merged(chain[i], chain[i + 1])]),
                  first, top)
  {
    NextHeader(memory, chain, i, first, top);
    MergedIn(memory, chain[i], chain[i + 1], i + 2 == |chain|);
    hide Holds, Splice, HeaderIn, MergedOnce;
    var segment: Word, merged := chain[i].segment, Merged(chain[i], chain[i + 1]);
    assert Tiles([merged], chain[i].segment, chain[i + 1].End());
    HoldsSplice(memory, MergedOnce(memory, segment), chain, i, i + 2, [merged], first, top);
  }

  /** The header of two blocks made one. */
  lemma MergedIn(memory: seq<Byte>, block: Block, next: Block, isLast: bool)
    requires |memory| >= REAL_MODE_BYTES && HeaderIn(memory, block, false) && HeaderIn(memory, next, isLast)
    requires block.End() == next.segment && next.End() <= 0xFFFF
    ensures HeaderIn(MergedOnce(memory, block.segment), Merged(block, next), isLast)
  {
    hide MergedOnce, HeaderIn, HeaderAt, SignatureAt, OwnerAt, SizeAt;
    FieldsOf(memory, block, false);
    FieldsOf(memory, next, isLast);
    var segment: Word := block.segment;
    assert NextAt(memory, segment) == next.segment;
    MergedHeader(memory, segment);
    HeaderAtIsIn(MergedOnce(memory, segment), segment, if isLast then LAST else MEMBER, block.owner,
                 block.size + 1 + next.size);
  }

  lemma FieldsOf(memory: seq<Byte>, block: Block, isLast: bool)
    requires |memory| >= REAL_MODE_BYTES && HeaderIn(memory, block, isLast) && block.segment <= 0xFFFF
    ensures SignatureAt(memory, block.segment) == if isLast then LAST else MEMBER
    ensures OwnerAt(memory, block.segment) == block.owner && SizeAt(memory, block.segment) == block.size
  {
  }

  lemma MergedHeader(memory: seq<Byte>, segment: Word)
    requires |memory| >= REAL_MODE_BYTES
    ensures var next := NextAt(memory, segment);
            HeaderAt(MergedOnce(memory, segment), segment, SignatureAt(memory, next), OwnerAt(memory, segment),
                     ToWord(SizeAt(memory, segment) as int + 1 + SizeAt(memory, next)))
  {
    var size := ToWord(SizeAt(memory, segment) as int + 1 + SizeAt(memory, NextAt(memory, segment)));
    assert size % 0x100 + 0x100 * (size / 0x100) == size;
  }

  /** At a block of the chain the loop ends, and leaves the coalesced chain. */
  lemma {:induction false} MergeEnds(memory: seq<Byte>, chain: Chain, i: nat, first: nat, top: Word)
    requires |memory| >= REAL_MODE_BYTES && Holds(memory, chain, first, top) && i < |chain|
    ensures chain[i].segment <= 0xFFFF && EndsWithin(memory, chain[i].segment, |chain| - i)
    ensures Holds(MergedAll(memory, chain[i].segment, |chain| - i), Coalesced(chain, i, chain[i]), first, top)
    decreases |chain|
  {
    hide Holds, Coalesced, Splice, MergedOnce, Merges, HeaderIn;
    HeaderOf(memory, chain, i, first, top);
    MergesWhen(memory, chain, i, first, top);
    if i + 1 < |chain| && chain[i + 1].IsFree() {
      JoinHolds(memory, chain, i, first, top);
      var next := Splice(chain, i, i + 2, [Merged(chain[i], chain[i + 1])]);
      JoinedAt(chain, i);
      MergeEnds(MergedOnce(memory, chain[i].segment), next, i, first, top);
      CoalesceStep(chain, i);
    } else {
      CoalesceDone(chain, i);
    }
  }

  /** The loop goes on at a block of the chain exactly when the block behind it is free. */
  lemma MergesWhen(memory: seq<Byte>, chain: Chain, i: nat, first: nat, top: Word)
    requires |memory| >= REAL_MODE_BYTES && Holds(memory, chain, first, top) && i < |chain|
    ensures chain[i].segment <= 0xFFFF
    ensures Merges(memory, chain[i].segment) <==> i + 1 < |chain| && chain[i + 1].IsFree()
  {
    hide Holds;
    HeaderOf(memory, chain, i, first, top);
    if i + 1 < |chain| {
      NextHeader(memory, chain, i, first, top);
      assert NextAt(memory, chain[i].segment) == chain[i + 1].segment;
    }
  }

  lemma JoinedAt(chain: Chain, i: nat)
    requires i + 1 < |chain|
    ensures var next := Splice(chain, i, i + 2, [Merged(chain[i], chain[i + 1])]);
            |next| == |chain| - 1 && next[i] == Merged(chain[i], chain[i + 1])
  {
  }

  /** No block of the chain has its header at the paragraph. */
  ghost predicate Unlisted(chain: Chain, segment: nat) {
    forall j :: 0 <= j < |chain| ==> chain[j].segment != segment
  }

  /** Bytes changed in an unlisted paragraph only are no header's: the memory holds the chain it held. */
  lemma UnlistedHolds(was: seq<Byte>, now: seq<Byte>, chain: Chain, segment: nat, first: nat, top: nat)
    requires Holds(was, chain, first, top) && Unlisted(chain, segment)
    requires SameOutside(was, now, Linear(segment), Linear(segment + 1))
    ensures Holds(now, chain, first, top)
  {
    forall j | 0 <= j < |chain|
      ensures HeaderIn(now, chain[j], j == |chain| - 1)
    {
      HeaderElsewhere(was, now, chain[j], j == |chain| - 1, segment);
    }
  }

  lemma HeaderElsewhere(was: seq<Byte>, now: seq<Byte>, block: Block, isLast: bool, segment: nat)
    requires HeaderIn(was, block, isLast) && block.segment != segment
    requires |was| == |now| && forall k :: Linear(block.segment) <= k < Linear(block.segment) + 5 ==> now[k] == was[k]
    ensures HeaderIn(now, block, isLast)
  {
    var at := Linear(block.segment);
    assert now[at] == was[at] && now[at + 1] == was[at + 1] && now[at + 2] == was[at + 2];
    assert now[at + 3] == was[at + 3] && now[at + 4] == was[at + 4];
  }

  /**
   * The tail a resize writes where it was called on no block is, if it falls on a header of the chain, the header
   * that is there already.
   */
  ghost predicate TailFits(chain: Chain, segment: Word, requested: Word, found: Finding) {
    found.Fits? && requested < found.available ==>
      var tail := ToWord(segment + 1 + requested);
      forall j :: 0 <= j < |chain| && chain[j].segment == tail ==>
        && chain[j] == Block(tail, OWNER_FREE, found.available - requested - 1)
        && found.signature == if j == |chain| - 1 then LAST else MEMBER
  }

  /** Then, and in no other case, the memory holds the chain it held. */
  lemma UnlistedResizeHoldsIff(was: seq<Byte>, now: seq<Byte>, chain: Chain, segment: Word, requested: Word,
                               found: Finding, first: nat, top: nat)
    requires |was| >= REAL_MODE_BYTES && Holds(was, chain, first, top) && Unlisted(chain, segment)
    requires found.Fits? && IsResized(was, now, segment, requested, found)
    ensures Holds(now, chain, first, top) <==> TailFits(chain, segment, requested, found)
  {
    if requested < found.available {
      var tail := ToWord(segment + 1 + requested);
      hide HeaderIn, HeaderAt, Tiles, OnlyHeaders;
      forall j | 0 <= j < |chain|
        ensures HeaderIn(now, chain[j], j == |chain| - 1)
           <==> (chain[j].segment == tail ==>
                   && chain[j] == Block(tail, OWNER_FREE, found.available - requested - 1)
                   && found.signature == if j == |chain| - 1 then LAST else MEMBER)
      {
        if chain[j].segment != tail {
          ResizedElsewhere(was, now, chain[j], j == |chain| - 1, segment, requested, found);
        } else {
          ResizedTail(was, now, chain[j], j == |chain| - 1, segment, requested, found);
        }
      }
    } else {
      UnlistedHolds(was, now, chain, segment, first, top);
    }
  }

  lemma ResizedElsewhere(was: seq<Byte>, now: seq<Byte>, block: Block, isLast: bool, segment: Word, requested: Word,
                         found: Finding)
    requires |was| >= REAL_MODE_BYTES && HeaderIn(was, block, isLast) && found.Fits? && requested < found.available
    requires block.segment != segment && block.segment != ToWord(segment + 1 + requested)
    requires IsResized(was, now, segment, requested, found)
    ensures HeaderIn(now, block, isLast)
  {
    HeaderElsewhere(was, now, block, isLast, ToWord(segment + 1 + requested));
  }

  lemma ResizedTail(was: seq<Byte>, now: seq<Byte>, block: Block, isLast: bool, segment: Word, requested: Word,
                    found: Finding)
    requires |was| >= REAL_MODE_BYTES && found.Fits? && requested < found.available
    requires block.segment == ToWord(segment + 1 + requested) && IsResized(was, now, segment, requested, found)
    ensures HeaderIn(now, block, isLast)
       <==> && block == Block(block.segment, OWNER_FREE, found.available - requested - 1)
            && found.signature == if isLast then LAST else MEMBER
  {
  }

  /** The two headers of a cut block of the chain. */
  lemma CutHolds(was: seq<Byte>, now: seq<Byte>, chain: Chain, i: nat, j: nat, kept: Word, available: Word,
                 first: nat, top: Word)
    requires |was| >= REAL_MODE_BYTES && Holds(was, chain, first, top) && kept < available
    requires i < j <= |chain| && chain[i].segment + 1 + available == chain[j - 1].End()
    requires chain[i].segment <= 0xFFFF
    requires IsResized(was, now, chain[i].segment, kept, Fits(available, if j == |chain| then LAST else MEMBER))
    ensures Holds(now, Splice(chain, i, j, Cut(chain[i], available, kept)), first, top)
    ensures OnlyHeaders(was, now, chain[i].segment, chain[i].segment + 1 + kept)
  {
    hide Holds, Splice, Tiles, HeaderIn;
    HeaderOf(was, chain, i, first, top);
    HeaderOf(was, chain, j - 1, first, top);
    CutIn(was, now, chain[i], i == |chain| - 1, kept, available, if j == |chain| then LAST else MEMBER);
    CutTiles(chain[i], available, kept);
    HoldsSplice(was, now, chain, i, j, Cut(chain[i], available, kept), first, top);
  }

  lemma CutIn(was: seq<Byte>, now: seq<Byte>, block: Block, isLast: bool, kept: Word, available: Word, signature: Byte)
    requires |was| >= REAL_MODE_BYTES && HeaderIn(was, block, isLast) && kept < available
    requires block.segment + 1 + available <= 0xFFFF && (signature == MEMBER || signature == LAST)
    requires IsResized(was, now, block.segment, kept, Fits(available, signature))
    ensures HeaderIn(now, Cut(block, available, kept)[0], false)
    ensures HeaderIn(now, Cut(block, available, kept)[1], signature == LAST)
    ensures OnlyHeaders(was, now, block.segment, block.segment + 1 + kept)
    ensures SameOutside(was, now, Linear(block.segment), Linear(block.segment + 1 + available))
  {
    var segment: Word := block.segment;
    HeaderAtIsIn(now, segment, MEMBER, OwnerAt(was, segment), kept);
    HeaderAtIsIn(now, segment + 1 + kept, signature, OWNER_FREE, available - kept - 1);
  }

  /** At a block of the chain the fields AH=4Ah reads are the chain's. */
  lemma GrowsAs(memory: seq<Byte>, chain: Chain, i: nat, requested: Word, first: nat, top: Word)
    requires |memory| >= REAL_MODE_BYTES && Holds(memory, chain, first, top) && i < |chain|
    requires chain[i].segment <= 0xFFFF && SizeAt(memory, chain[i].segment) < requested
    ensures var segment: Word := chain[i].segment;
            && SignatureAt(memory, segment) == (if i + 1 == |chain| then LAST else MEMBER)
            && SizeAt(memory, segment) == chain[i].size
            && (i + 1 < |chain| ==>
                  && NextAt(memory, segment) == chain[i + 1].segment
                  && OwnerAt(memory, NextAt(memory, segment)) == chain[i + 1].owner
                  && SizeAt(memory, NextAt(memory, segment)) == chain[i + 1].size
                  && SignatureAt(memory, NextAt(memory, segment)) == (if i + 2 == |chain| then LAST else MEMBER)
                  && ToWord(chain[i].size + 1 + chain[i + 1].size) == chain[i].size + 1 + chain[i + 1].size
                  && segment + 1 + (chain[i].size + 1 + chain[i + 1].size) == chain[i + 1].End())
    ensures Resize(chain, i, requested) ==
            if i + 1 < |chain| && chain[i + 1].IsFree() then
              var available := chain[i].size + 1 + chain[i + 1].size;
              if requested > available then TooLarge(available)
              else if requested < available then Resized(Splice(chain, i, i + 2, Cut(chain[i], available, requested)))
              else Resized(Splice(chain, i, i + 2, [Merged(chain[i], chain[i + 1])]))
            else TooLarge(chain[i].size)
    ensures i + 1 < |chain| && chain[i + 1].IsFree() ==> Reach(chain, i) == chain[i].size + 1 + chain[i + 1].size
  {
    hide Holds;
    HeaderOf(memory, chain, i, first, top);
    if i + 1 < |chain| {
      NextHeader(memory, chain, i, first, top);
    }
  }

  lemma NothingChanged(memory: seq<Byte>, segment: nat, requested: nat)
    ensures OnlyHeaders(memory, memory, segment, segment + 1 + requested)
    ensures SameOutside(memory, memory, Linear(segment), Linear(segment) + 5)
  {
  }

  lemma ShrinksAs(chain: Chain, i: nat, requested: nat)
    requires i < |chain| && requested <= chain[i].size
    ensures Resize(chain, i, requested)
         == Resized(if requested < chain[i].size then Splice(chain, i, i + 1, Cut(chain[i], chain[i].size, requested))
                    else chain)
    ensures requested == Reach(chain, i) ==> requested == chain[i].size
  {
    SplitAround(chain, i);
  }

  lemma JoinedIsResized(memory: seq<Byte>, segment: Word, requested: Word)
    requires |memory| >= REAL_MODE_BYTES
    requires ResizeAt(memory, segment, requested).Fits? && SizeAt(memory, segment) < requested
    requires ResizeAt(memory, segment, requested).available == requested
    ensures IsResized(memory, MergedOnce(memory, segment), segment, requested, ResizeAt(memory, segment, requested))
    ensures SameOutside(memory, MergedOnce(memory, segment), Linear(segment), Linear(segment) + 5)
    ensures OnlyHeaders(memory, MergedOnce(memory, segment), segment, segment + 1 + requested)
  {
    hide MergedOnce;
    MergedHeader(memory, segment);
  }

  lemma IsMarkedFree(was: seq<Byte>, now: seq<Byte>, segment: Word)
    requires |was| >= REAL_MODE_BYTES && SameOutside(was, now, Linear(segment) + 1, Linear(segment) + 3)
    requires OwnerAt(now, segment) == OWNER_FREE
    ensures now == MarkedFree(was, segment)
  {
    WordBytes(now, Linear(segment) + 1);
  }

  lemma FreeIsCoalesced(chain: Chain, i: nat)
    requires i < |chain|
    ensures var freed := chain[i].(owner := OWNER_FREE);
            var marked := Splice(chain, i, i + 1, [freed]);
            |marked| == |chain| && marked[i] == freed && Coalesced(marked, i, freed) == Free(chain, i)
  {
    SpliceParts(chain, i, i + 1, [chain[i].(owner := OWNER_FREE)]);
  }

  lemma MarkedHolds(memory: seq<Byte>, chain: Chain, i: nat, first: nat, top: Word)
    requires |memory| >= REAL_MODE_BYTES && Holds(memory, chain, first, top) && i < |chain|
    ensures chain[i].segment <= 0xFFFF
    ensures Holds(MarkedFree(memory, chain[i].segment), Splice(chain, i, i + 1, [chain[i].(owner := OWNER_FREE)]),
                  first, top)
  {
    hide Holds, Splice, MarkedFree;
    HeaderOf(memory, chain, i, first, top);
    var segment: Word := chain[i].segment;
    var marked := MarkedFree(memory, segment);
    var freed := chain[i].(owner := OWNER_FREE);
    HeaderAtIsIn(marked, segment, SignatureAt(memory, segment), OWNER_FREE, SizeAt(memory, segment));
    assert Tiles([freed], chain[i].segment, chain[i].End());
    HoldsSplice(memory, marked, chain, i, i + 1, [freed], first, top);
  }

  lemma OwnerIn(memory: seq<Byte>, block: Block, isLast: bool)
    requires HeaderIn(memory, block, isLast)
    ensures Linear(block.segment) + 2 < |memory| && WordIn(memory, Linear(block.segment) + 1) == block.owner
  {
  }

  /** Where a reservation's two headers end up: inside the block, or, when its size wraps, where no chain goes on. */
  lemma CarvedAt(block: Block, paragraphs: Word, top: Word)
    requires block.End() <= top && block.size >= ToWord(paragraphs + 2)
    ensures var kept, at := ToWord(block.size - paragraphs - 1),
              ToWord(block.segment + 1 + (block.size - paragraphs - 1));
            && (paragraphs < 0xFFFE ==>
                  && paragraphs < block.size && kept == block.size - paragraphs - 1
                  && at == block.segment + 1 + kept && ToWord(at as int + 1) == at + 1)
            && (paragraphs >= 0xFFFE ==>
                  && block.size <= kept
                  && (at == block.segment + 1 + kept || (at == 0 && block.segment + 1 + kept > top)))
  {
  }

  class ConventionalMemory {
    const bytes: array<Byte>
    const firstMcb: Word
    ghost const top: Word
    ghost var chain: Chain

    ghost predicate Valid()
      reads this, bytes
    {
      firstMcb > 0 && bytes.Length >= REAL_MODE_BYTES && Holds(bytes[..], chain, firstMcb, top)
    }

    constructor (memory: array<Byte>, top: Word)
      requires memory.Length >= REAL_MODE_BYTES && top >= PSP_SEGMENT
      modifies memory
      ensures Valid() && bytes == memory && this.top == top && chain == InitialChain(top)
      ensures firstMcb == 0x7E && StartBytes(memory[..], top)
    {
      bytes := memory;
      firstMcb := FIRST_MCB;
      this.top := top;
      chain := InitialChain(top);
      new;
      var first := DosMcbInitializeWithTop(memory, top);
    }

    /** One step of coalescing: the block at `mcbSegment` takes over the block after it. */
    method JoinNext(mcbSegment: Word, ghost i: nat)
      requires Valid()
      requires i < |chain| ==> i + 1 < |chain| && chain[i].segment == mcbSegment
      modifies this`chain, bytes
      ensures bytes[..] == MergedOnce(old(bytes[..]), mcbSegment)
      ensures i < |old(chain)| ==>
                Valid() && chain == Splice(old(chain), i, i + 2, [Merged(old(chain[i]), old(chain[i + 1]))])
      ensures i >= |old(chain)| ==> chain == old(chain)
    {
      hide Holds, MergedOnce;
      if i < |chain| {
        JoinHolds(bytes[..], chain, i, firstMcb, top);
        chain := Splice(chain, i, i + 2, [Merged(chain[i], chain[i + 1])]);
      }
      MergeNext(bytes, mcbSegment);
    }

    /** The allocation walk's inner loop: the free blocks after `mcbSegment` join it. */
    method MergeFollowing(mcbSegment: Word, ghost i: nat)
      requires Valid()
      requires i < |chain| && chain[i].segment == mcbSegment
      modifies this`chain, bytes
      ensures Valid()
      ensures chain == Coalesced(old(chain), i, old(chain[i]))
      ensures SameOutside(old(bytes[..]), bytes[..], Linear(mcbSegment), Linear(mcbSegment) + 5)
    {
      hide Holds, Coalesced;
      MergeEnds(bytes[..], chain, i, firstMcb, top);
      MergeLoop(bytes, mcbSegment, |chain| - i);
      chain := Coalesced(chain, i, chain[i]);
    }

    /**
     * AH=49h. `i` is the block `blockSegment` names; past the chain, it names none. Then a signed paragraph is
     * treated as a header all the same: the call, if it returns, changes five bytes of it and no header of the chain.
     */
    method DosMcbFree(blockSegment: Word, ghost i: nat) returns (code: nat)
      requires Valid()
      requires Names(blockSegment, i)
      requires i >= |chain| && IsSigned(bytes[..], HeaderSegment(blockSegment)) ==>
                 FreeReturns(bytes[..], HeaderSegment(blockSegment))
      modifies this`chain, bytes
      ensures Valid()
      ensures i < |old(chain)| ==> code == 0 && chain == Free(old(chain), i)
      ensures i >= |old(chain)| ==> chain == old(chain)
      ensures code == if IsSigned(old(bytes[..]), HeaderSegment(blockSegment)) then 0 else 9
      ensures code == 9 ==> bytes[..] == old(bytes[..])
      ensures code == 0 ==> exists n: nat ::
                var segment, marked := HeaderSegment(blockSegment),
                    MarkedFree(old(bytes[..]), HeaderSegment(blockSegment));
                EndsWithin(marked, segment, n) && bytes[..] == MergedAll(marked, segment, n)
      ensures SameOutside(old(bytes[..]), bytes[..], Linear(HeaderSegment(blockSegment)),
                          Linear(HeaderSegment(blockSegment)) + 5)
    {
      hide Holds, Coalesced, MarkedFree;
      ghost var was := bytes[..];
      var mcbSegment := HeaderSegment(blockSegment);
      var mcb := Linear(mcbSegment);
      if i < |chain| {
        HeaderOf(was, chain, i, firstMcb, top);
      }
      if bytes[mcb] != MEMBER && bytes[mcb] != LAST {
        return 9;
      }
      WriteWord(bytes, mcb + 1, OWNER_FREE);
      IsMarkedFree(was, bytes[..], mcbSegment);
      ghost var n: nat := |chain|;
      if i < |chain| {
        MarkedHolds(was, chain, i, firstMcb, top);
        FreeIsCoalesced(chain, i);
        chain := Splice(chain, i, i + 1, [chain[i].(owner := OWNER_FREE)]);
        MergeEnds(bytes[..], chain, i, firstMcb, top);
        n := |chain| - i;
      } else {
        n :| EndsWithin(bytes[..], mcbSegment, n);
      }
      MergeLoop(bytes, mcbSegment, n);
      if i < |chain| {
        chain := Coalesced(chain, i, chain[i]);
      } else {
        UnlistedHolds(was, bytes[..], chain, mcbSegment, firstMcb, top);
      }
      code := 0;
    }

    /** The header paragraph in front of a data segment. */
    function HeaderSegment(blockSegment: Word): Word {
      ToWord(blockSegment - 1)
    }

    /** `blockSegment` is the data segment of block i, or, for i past the chain, of no block. */
    ghost predicate Names(blockSegment: Word, i: nat)
      reads this
    {
      if i < |chain| then chain[i].segment == HeaderSegment(blockSegment)
          else Unlisted(chain, HeaderSegment(blockSegment))
    }

    /**
     * AH=4Ah: shrink and free the tail, or grow into the free block that follows. Called on no block of the chain
     * it rewrites what it takes for headers, and the chain is held afterwards exactly when the tail fits.
     */
    method DosMcbResize(blockSegment: Word, requested: Word, ghost i: nat) returns (code: nat, largestAvailable: Word)
      requires Valid()
      requires Names(blockSegment, i)
      modifies this`chain, bytes
      ensures i < |old(chain)| ==>
                && Valid()
                && OnlyHeaders(old(bytes[..]), bytes[..],
                               HeaderSegment(blockSegment), HeaderSegment(blockSegment) + 1 + requested)
                && (requested == Reach(old(chain), i) ==>
                      SameOutside(old(bytes[..]), bytes[..],
                                  Linear(HeaderSegment(blockSegment)), Linear(HeaderSegment(blockSegment)) + 5))
                && match Resize(old(chain), i, requested)
                   case Resized(after) => code == 0 && chain == after
                   case TooLarge(largest) => code == 8 && largestAvailable == largest
      ensures i >= |old(chain)| ==>
                var segment, found := HeaderSegment(blockSegment),
                    ResizeAt(old(bytes[..]), HeaderSegment(blockSegment), requested);
                && chain == old(chain)
                && if !IsSigned(old(bytes[..]), segment) then code == 9
                   else if found.TooFew? then code == 8 && largestAvailable == found.largest
                   else && code == 0 && IsResized(old(bytes[..]), bytes[..], segment, requested, found)
                        && (Valid() <==> TailFits(chain, segment, requested, found))
      ensures code != 0 ==> Valid() && chain == old(chain) && bytes[..] == old(bytes[..])
    {
      hide Holds, Splice, Tiles, IsResized, Resize, Reach, OnlyHeaders, SameOutside, TailFits;
      largestAvailable := 0;
      ghost var was := bytes[..];
      ghost var isListed := i < |chain|;
      var mcbSegment := HeaderSegment(blockSegment);
      var mcb := Linear(mcbSegment);
      if isListed {
        HeaderOf(was, chain, i, firstMcb, top);
      }
      if bytes[mcb] != MEMBER && bytes[mcb] != LAST {
        return 9, 0;
      }
      var currentSize := ReadWord(bytes, mcb + 3);
      var signature := bytes[mcb];
      if requested <= currentSize {
        code := Shrink(mcbSegment, requested, currentSize, signature, i);
      } else {
        code, largestAvailable := Grow(mcbSegment, requested, currentSize, signature, i);
      }
      ghost var found := ResizeAt(was, mcbSegment, requested);
      if !isListed && found.Fits? {
        UnlistedResizeHoldsIff(was, bytes[..], old(chain), mcbSegment, requested, found, firstMcb, top);
      }
    }

    /** The shrinking half of AH=4Ah: it cuts the block, or finds it of the size asked for. */
    method Shrink(mcbSegment: Word, requested: Word, currentSize: Word, signature: Byte, ghost i: nat)
      returns (code: nat)
      requires Valid()
      requires i < |chain| ==> chain[i].segment == mcbSegment
      requires SignatureAt(bytes[..], mcbSegment) == signature
                 && SizeAt(bytes[..], mcbSegment) == currentSize >= requested
      modifies this`chain, bytes
      ensures code == 0
      ensures i < |old(chain)| ==>
                && Valid()
                && OnlyHeaders(old(bytes[..]), bytes[..], mcbSegment, mcbSegment + 1 + requested)
                && (requested == Reach(old(chain), i) ==>
                      SameOutside(old(bytes[..]), bytes[..], Linear(mcbSegment), Linear(mcbSegment) + 5))
                && Resize(old(chain), i, requested) == Resized(chain)
      ensures i >= |old(chain)| ==> chain == old(chain)
      ensures IsResized(old(bytes[..]), bytes[..], mcbSegment, requested, Fits(currentSize, signature))
    {
      hide Holds, Splice, Tiles;
      if i < |chain| {
        HeaderOf(bytes[..], chain, i, firstMcb, top);
        ShrinksAs(chain, i, requested);
      }
      if currentSize - requested >= 1 {
        CutHere(mcbSegment, requested, currentSize, signature, i, i + 1);
      }
      code := 0;
    }

    /** The growing half of AH=4Ah: it takes one free neighbour or refuses. */
    method Grow(mcbSegment: Word, requested: Word, currentSize: Word, signature: Byte, ghost i: nat)
      returns (code: nat, largestAvailable: Word)
      requires Valid()
      requires i < |chain| ==> chain[i].segment == mcbSegment
      requires SignatureAt(bytes[..], mcbSegment) == signature
                 && SizeAt(bytes[..], mcbSegment) == currentSize < requested
      modifies this`chain, bytes
      ensures i < |old(chain)| ==>
                && Valid()
                && OnlyHeaders(old(bytes[..]), bytes[..], mcbSegment, mcbSegment + 1 + requested)
                && (requested == Reach(old(chain), i) ==>
                      SameOutside(old(bytes[..]), bytes[..], Linear(mcbSegment), Linear(mcbSegment) + 5))
                && match Resize(old(chain), i, requested)
                   case Resized(after) => code == 0 && chain == after
                   case TooLarge(largest) => code == 8 && largestAvailable == largest
      ensures i >= |old(chain)| ==> chain == old(chain)
      ensures match ResizeAt(old(bytes[..]), mcbSegment, requested)
              case Fits(_, _) =>
                code == 0
                && IsResized(old(bytes[..]), bytes[..], mcbSegment, requested,
                             ResizeAt(old(bytes[..]), mcbSegment, requested))
              case TooFew(largest) => code == 8 && largestAvailable == largest
      ensures code != 0 ==> chain == old(chain) && bytes[..] == old(bytes[..])
    {
      hide Holds, Splice, IsResized, MergedOnce, Resize, Reach, OnlyHeaders, SameOutside, WordIn, HeaderIn;
      ghost var was := bytes[..];
      NothingChanged(was, mcbSegment, requested);
      if i < |chain| {
        GrowsAs(was, chain, i, requested, firstMcb, top);
      }
      if signature == MEMBER {
        var next := Linear(ToWord(mcbSegment + 1 + currentSize));
        var nextOwner := ReadWord(bytes, next + 1);
        var nextSize := ReadWord(bytes, next + 3);
        if nextOwner == OWNER_FREE {
          var available := ToWord(currentSize as int + 1 + nextSize);
          if available >= requested {
            TakeNext(mcbSegment, requested, available, bytes[next], i);
            return 0, 0;
          }
          return 8, available;
        }
      }
      return 8, currentSize;
    }

    /** The free block behind is taken, and what is left of it given back. */
    method TakeNext(mcbSegment: Word, requested: Word, available: Word, signature: Byte, ghost i: nat)
      requires Valid()
      requires ResizeAt(bytes[..], mcbSegment, requested) == Fits(available, signature)
      requires SizeAt(bytes[..], mcbSegment) < requested
      requires i < |chain| ==> i + 1 < |chain| && chain[i].segment == mcbSegment && chain[i + 1].IsFree()
      modifies this`chain, bytes
      ensures i < |old(chain)| ==>
                && Valid()
                && OnlyHeaders(old(bytes[..]), bytes[..], mcbSegment, mcbSegment + 1 + requested)
                && (requested == Reach(old(chain), i) ==>
                      SameOutside(old(bytes[..]), bytes[..], Linear(mcbSegment), Linear(mcbSegment) + 5))
                && Resize(old(chain), i, requested) == Resized(chain)
      ensures i >= |old(chain)| ==> chain == old(chain)
      ensures IsResized(old(bytes[..]), bytes[..], mcbSegment, requested, Fits(available, signature))
    {
      hide Holds, Splice, IsResized, MergedOnce, Resize, Reach, OnlyHeaders, SameOutside;
      ghost var was := bytes[..];
      if i < |chain| {
        GrowsAs(was, chain, i, requested, firstMcb, top);
      }
      if available - requested >= 1 {
        CutHere(mcbSegment, requested, available, signature, i, i + 2);
      } else {
        JoinNext(mcbSegment, i);
        JoinedIsResized(was, mcbSegment, requested);
      }
    }

    /** The blocks i..j, `available` paragraphs in all, become block i cut to `kept` and a free tail. */
    method CutHere(mcbSegment: Word, kept: Word, available: Word, signature: Byte, ghost i: nat, ghost j: nat)
      requires Valid() && kept < available
      requires i < |chain| ==>
                 && i < j <= |chain| && chain[i].segment == mcbSegment
                 && mcbSegment + 1 + available == chain[j - 1].End()
                 && signature == if j == |chain| then LAST else MEMBER
      modifies this`chain, bytes
      ensures i < |old(chain)| ==>
                && Valid()
                && chain == Splice(old(chain), i, j, Cut(old(chain[i]), available, kept))
                && OnlyHeaders(old(bytes[..]), bytes[..], mcbSegment, mcbSegment + 1 + kept)
      ensures i >= |old(chain)| ==> chain == old(chain)
      ensures IsResized(old(bytes[..]), bytes[..], mcbSegment, kept, Fits(available, signature))
    {
      hide Holds, Splice, Tiles, OnlyHeaders;
      ghost var was := bytes[..];
      SplitOff(bytes, mcbSegment, kept, signature, ToWord(available - kept - 1), OwnerAt(was, mcbSegment));
      if i < |chain| {
        CutHolds(was, bytes[..], chain, i, j, kept, available, firstMcb, top);
        chain := Splice(chain, i, j, Cut(chain[i], available, kept));
      }
    }

    /** AH=48h: the walk merges each free run it meets and carves the first that is large enough. */
    method DosMcbAllocate(requested: Word) returns (code: nat, allocatedSegment: Word, largestFree: Word)
      requires Valid()
      modifies this`chain, bytes
      ensures Valid()
      ensures match Allocate(old(chain), requested)
              case Granted(after, segment) => code == 0 && chain == after && allocatedSegment == segment
              case Refused(after, largest) => code == 8 && chain == after && largestFree == largest
      ensures OnlyFreeBytes(old(bytes[..]), bytes[..], old(chain))
    {
      hide Holds, OnlyFreeBytes, FreesNothing, Allocate;
      allocatedSegment := 0;
      var mcbSegment := firstMcb;
      var biggest: Word := 0;
      ghost var i := 0;
      AllocateStart(chain, requested);
      FirstBlock(bytes[..], chain, firstMcb, top);
      OnlyFreeNone(bytes[..], chain);
      while true
        invariant Valid()
        invariant i < |chain| && chain[i].segment == mcbSegment
        invariant Allocate(chain[i..], requested).After(chain[..i], biggest) == Allocate(old(chain), requested)
        invariant OnlyFreeBytes(old(bytes[..]), bytes[..], old(chain)) && FreesNothing(old(chain), chain)
        decreases |chain| - i
      {
        var mcb := Linear(mcbSegment);
        HeaderOf(bytes[..], chain, i, firstMcb, top);
        var signature := bytes[mcb];
        var owner := ReadWord(bytes, mcb + 1);
        var blockSize := ReadWord(bytes, mcb + 3);
        if owner == OWNER_FREE {
          ghost var m1, c1 := bytes[..], chain;
          var isDone;
          isDone, blockSize, signature := VisitFree(mcbSegment, requested, i, biggest);
          OnlyFreeTwice(old(bytes[..]), m1, bytes[..], old(chain), c1, c1);
          if isDone {
            return 0, ToWord(mcbSegment + 1), 0;
          }
          OnlyFreeTwice(old(bytes[..]), m1, bytes[..], old(chain), c1, chain);
          if blockSize > biggest {
            biggest := blockSize;
          }
        } else {
          AllocatePastOwned(chain, i, requested, biggest);
        }
        if signature == LAST {
          AllocateEnd(chain, requested, biggest);
          return 8, 0, biggest;
        }
        NextHeader(bytes[..], chain, i, firstMcb, top);
        mcbSegment := ToWord(mcbSegment + 1 + blockSize);
        i := i + 1;
      }
    }

    /** What the walk does at a free block: merge its run, and take it when it is large enough. */
    method VisitFree(mcbSegment: Word, requested: Word, ghost i: nat, ghost seen: nat)
      returns (isDone: bool, blockSize: Word, signature: Byte)
      requires Valid()
      requires i < |chain| && chain[i].segment == mcbSegment && chain[i].IsFree()
      modifies this`chain, bytes
      ensures Valid()
      ensures isDone ==>
                && mcbSegment < 0xFFFF
                && Allocate(old(chain[i..]), requested).After(old(chain[..i]), seen) == Granted(chain, mcbSegment + 1)
      ensures !isDone ==>
                && i < |chain| <= |old(chain)| && chain[i] == Block(mcbSegment, OWNER_FREE, blockSize)
                && signature == (if i + 1 == |chain| then LAST else MEMBER)
                && FreesNothing(old(chain), chain)
                && Allocate(old(chain[i..]), requested).After(old(chain[..i]), seen)
                   == Allocate(chain[i + 1..], requested).After(chain[..i + 1], Max(seen, blockSize))
      ensures OnlyFreeBytes(old(bytes[..]), bytes[..], old(chain))
    {
      var mcb := Linear(mcbSegment);
      MergeRun(mcbSegment, requested, i);
      HeaderOf(bytes[..], chain, i, firstMcb, top);
      signature := bytes[mcb];
      blockSize := ReadWord(bytes, mcb + 3);
      assert chain[i] == Block(mcbSegment, OWNER_FREE, blockSize);
      isDone := blockSize >= requested;
      if isDone {
        AllocateHere(chain, i, requested, seen);
        ghost var m1, c1 := bytes[..], chain;
        Take(mcbSegment, requested, blockSize, signature, i);
        OnlyFreeTwice(old(bytes[..]), m1, bytes[..], old(chain), c1, c1);
      } else {
        AllocatePastFree(chain, i, requested, seen);
      }
    }

    /** The walk's merging at a free block: the run becomes one block, and no other byte changes. */
    method MergeRun(mcbSegment: Word, ghost requested: Word, ghost i: nat)
      requires Valid()
      requires i < |chain| && chain[i].segment == mcbSegment && chain[i].IsFree()
      modifies this`chain, bytes
      ensures Valid()
      ensures i < |chain| <= |old(chain)| && chain[i].segment == mcbSegment && chain[i].IsFree()
      ensures i + 1 < |chain| ==> !chain[i + 1].IsFree()
      ensures chain[..i] == old(chain[..i])
      ensures Allocate(chain[i..], requested) == Allocate(old(chain[i..]), requested)
      ensures OnlyFreeBytes(old(bytes[..]), bytes[..], old(chain)) && FreesNothing(old(chain), chain)
    {
      AllocateMerged(chain, i, requested);
      CoalescedFree(chain, i, firstMcb, top);
      MergeFollowing(mcbSegment, i);
    }

    /** The free block i is granted: cut to size when it is larger, and given to the program. */
    method Take(mcbSegment: Word, requested: Word, blockSize: Word, signature: Byte, ghost i: nat)
      requires Valid()
      requires i < |chain| && chain[i] == Block(mcbSegment, OWNER_FREE, blockSize) && requested <= blockSize
      requires signature == if i + 1 == |chain| then LAST else MEMBER
      modifies this`chain, bytes
      ensures Valid()
      ensures chain == Splice(old(chain), i, i + 1, Carve(old(chain[i]), requested))
      ensures OnlyFreeBytes(old(bytes[..]), bytes[..], old(chain))
    {
      hide Holds, Carve;
      ghost var was := bytes[..];
      ghost var before := chain;
      HeaderOf(was, chain, i, firstMcb, top);
      var mcb := Linear(mcbSegment);
      if blockSize >= ToWord(requested + 1) {
        CutHere(mcbSegment, requested, blockSize, signature, i, i + 1);
      } else {
        SplitAround(chain, i);
      }
      SetOwner(mcbSegment, PSP_SEGMENT, i);
      CarveIsCut(before, i, requested);
    }

    /** The owner word of block i. */
    method SetOwner(mcbSegment: Word, owner: Word, ghost i: nat)
      requires Valid()
      requires i < |chain| && chain[i].segment == mcbSegment
      modifies this`chain, bytes
      ensures Valid()
      ensures chain == Splice(old(chain), i, i + 1, [old(chain[i]).(owner := owner)])
      ensures SameOutside(old(bytes[..]), bytes[..], Linear(mcbSegment) + 1, Linear(mcbSegment) + 3)
    {
      ghost var was := bytes[..];
      var mcb := Linear(mcbSegment);
      HeaderOf(was, chain, i, firstMcb, top);
      WriteWord(bytes, mcb + 1, owner);
      assert bytes[..][mcb] == was[mcb] && bytes[..][mcb + 3] == was[mcb + 3] && bytes[..][mcb + 4] == was[mcb + 4];
      HoldsSplice(was, bytes[..], chain, i, i + 1, [chain[i].(owner := owner)], firstMcb, top);
      chain := Splice(chain, i, i + 1, [chain[i].(owner := owner)]);
    }

    /**
     * A reservation at the top of the chain. Either the chain becomes ReserveTop's, or, exactly when
     * the size test wraps, the memory holds no chain at all afterwards.
     */
    method DosMcbReserveTop(paragraphs: Word) returns (segment: Word)
      requires Valid()
      modifies this`chain, bytes
      ensures !SizeTestWraps(old(chain), paragraphs) ==>
                && Valid()
                && match ReserveTop(old(chain), paragraphs)
                   case Reserved(after, data) =>
                     && segment == data && chain == after
                     && OnlyHeaders(old(bytes[..]), bytes[..], old(chain)[Victim(old(chain))].segment, segment - 1)
                   case Full => segment == 0 && chain == old(chain) && bytes[..] == old(bytes[..])
      ensures SizeTestWraps(old(chain), paragraphs) ==> forall other: Chain :: !Holds(bytes[..], other, firstMcb, top)
    {
      hide Holds, ReserveAt, OnlyHeaders;
      FirstBlock(bytes[..], chain, firstMcb, top);
      var mcbSegment: Word := firstMcb;
      var previousSegment: Word := 0;
      var walkCount := 0;
      var hasPrevious := false;
      while true
        invariant Valid() && chain == old(chain) && bytes[..] == old(bytes[..])
        invariant walkCount < |chain| && chain[walkCount].segment == mcbSegment && walkCount <= WALK_LIMIT
        invariant hasPrevious == (walkCount > 0)
        invariant hasPrevious ==> chain[walkCount - 1].segment == previousSegment
        decreases |chain| - walkCount
      {
        var mcb := Linear(mcbSegment);
        HeaderOf(bytes[..], chain, walkCount, firstMcb, top);
        var blockSize := ReadWord(bytes, mcb + 3);
        var owner := ReadWord(bytes, mcb + 1);
        if bytes[mcb] == LAST && owner == OWNER_DOS && hasPrevious {
          HeaderOf(bytes[..], chain, walkCount - 1, firstMcb, top);
          var previousSize := ReadWord(bytes, Linear(previousSegment) + 3);
          segment := ReserveFrom(previousSegment, previousSize, paragraphs, MEMBER, walkCount - 1);
          return;
        }
        if bytes[mcb] == LAST {
          segment := ReserveFrom(mcbSegment, blockSize, paragraphs, LAST, walkCount);
          return;
        }
        if walkCount + 1 > WALK_LIMIT {
          return 0;
        }
        NextHeader(bytes[..], chain, walkCount, firstMcb, top);
        previousSegment := mcbSegment;
        hasPrevious := true;
        mcbSegment := ToWord(mcbSegment + 1 + blockSize);
        walkCount := walkCount + 1;
      }
    }

    /** The size test, and the carving when it passes. */
    method ReserveFrom(mcbSegment: Word, blockSize: Word, paragraphs: Word, signature: Byte, ghost v: nat)
      returns (segment: Word)
      requires Valid()
      requires v == Victim(chain) && |chain| - 1 <= WALK_LIMIT
      requires chain[v].segment == mcbSegment && chain[v].size == blockSize
      requires signature == if v + 1 == |chain| then LAST else MEMBER
      modifies this`chain, bytes
      ensures !SizeTestWraps(old(chain), paragraphs) ==>
                && Valid()
                && match ReserveTop(old(chain), paragraphs)
                   case Reserved(after, data) =>
                     && segment == data && chain == after
                     && OnlyHeaders(old(bytes[..]), bytes[..], mcbSegment, segment - 1)
                   case Full => segment == 0 && chain == old(chain) && bytes[..] == old(bytes[..])
      ensures SizeTestWraps(old(chain), paragraphs) ==> forall other: Chain :: !Holds(bytes[..], other, firstMcb, top)
    {
      if blockSize < ToWord(paragraphs + 2) {
        return 0;
      }
      segment := CarveTop(mcbSegment, blockSize, paragraphs, signature, v);
    }

    /** The top `paragraphs` of block v become a DOS block of their own, signed `signature`. */
    method CarveTop(mcbSegment: Word, blockSize: Word, paragraphs: Word, signature: Byte, ghost v: nat)
      returns (segment: Word)
      requires Valid()
      requires v < |chain| && chain[v].segment == mcbSegment && chain[v].size == blockSize
      requires blockSize >= ToWord(paragraphs + 2)
      requires signature == if v + 1 == |chain| then LAST else MEMBER
      modifies this`chain, bytes
      ensures paragraphs < 0xFFFE ==>
                Valid() && chain == ReserveAt(old(chain), v, paragraphs)
                && segment == old(chain)[v].End() - paragraphs
                && OnlyHeaders(old(bytes[..]), bytes[..], mcbSegment, segment - 1)
      ensures paragraphs >= 0xFFFE ==> forall other: Chain :: !Holds(bytes[..], other, firstMcb, top)
    {
      hide Holds, ReserveAt, OnlyHeaders, SameOutside, HeaderIn, ToWord;
      ghost var was := bytes[..];
      HeaderOf(was, chain, v, firstMcb, top);
      CarvedAt(chain[v], paragraphs, top);
      var kept := ToWord(blockSize - paragraphs - 1);
      var newSegment := ToWord(mcbSegment + 1 + (blockSize - paragraphs - 1));
      OwnerIn(was, chain[v], v == |chain| - 1);
      WriteSize(bytes, mcbSegment, MEMBER, kept, chain[v].owner);
      ghost var withSize := bytes[..];
      DosMcbWriteHeader(bytes, newSegment, signature, OWNER_DOS, paragraphs);
      segment := ToWord(newSegment as int + 1);
      if paragraphs < 0xFFFE {
        ReservationHolds(was, withSize, bytes[..], chain, v, paragraphs, firstMcb, top);
        TwoHeaders(was, withSize, bytes[..], mcbSegment, newSegment);
        chain := ReserveAt(chain, v, paragraphs);
      } else {
        ReservationHoldsNothing(was, withSize, bytes[..], chain, v, paragraphs, kept, newSegment, firstMcb, top);
      }
    }
  }
}
