/** Runs of calls over the bytes: which bytes of the memory a run can reach, whatever it asks for. */
module McbBytes {
  import opened Machine
  import opened McbChain
  import opened McbHeader
  import opened Mcb
  import opened McbRuns

  /** The paragraph in front of a data segment, where AH=49h and AH=4Ah look for its header. */
  function InFront(segment: nat): nat {
    if segment == 0 then 0xFFFF else segment - 1
  }

  /** The paragraph a resize writes its second header to. */
  function TailOf(segment: nat, paragraphs: nat): nat {
    (segment + paragraphs) % 0x1_0000
  }

  /** The bytes one call may change, given the chain it meets. */
  ghost predicate Touches(was: seq<Byte>, now: seq<Byte>, chain: Chain, call: Call) {
    match call
    case Request(_) => OnlyFreeBytes(was, now, chain)
    case Release(segment) => SameOutside(was, now, Linear(InFront(segment)), Linear(InFront(segment)) + 5)
    case Change(segment, paragraphs) =>
      var i := Find(chain, segment);
      if i == |chain| then OnlyHeaders(was, now, InFront(segment), TailOf(segment, paragraphs))
      else if paragraphs <= Reach(chain, i) then
        && OnlyHeaders(was, now, chain[i].segment, chain[i].segment + 1 + paragraphs)
        && (paragraphs == Reach(chain, i) ==>
              SameOutside(was, now, Linear(chain[i].segment), Linear(chain[i].segment) + 5))
      else now == was
    case ReserveHigh(paragraphs) =>
      if chain != [] && ReserveTop(chain, paragraphs).Reserved? then
        && ReserveTop(chain, paragraphs).segment > 0
        && OnlyHeaders(was, now, chain[Victim(chain)].segment, ReserveTop(chain, paragraphs).segment - 1)
      else now == was
  }

  /** The paragraph is the block's header or one of its data. */
  predicate Inside(block: Block, paragraph: nat) {
    block.segment <= paragraph < block.End()
  }

  /**
   * The call is not about `block`, and where it names no block of the
   * chain the paragraphs it is about are not in it.
   */
  predicate SparesBytes(chain: Chain, call: Call, block: Block) {
    && Spares(chain, call, block)
    && match call
       case Release(segment) => Find(chain, segment) == |chain| ==> !Inside(block, InFront(segment))
       case Change(segment, paragraphs) =>
         Find(chain, segment) == |chain| ==>
           !Inside(block, InFront(segment)) && !Inside(block, TailOf(segment, paragraphs))
       case _ => true
  }

  predicate RunSparesBytes(chain: Chain, calls: seq<Call>, block: Block)
    decreases |calls|
  {
    calls != [] ==>
      SparesBytes(chain, calls[0], block) && RunSparesBytes(Step(chain, calls[0]), calls[1..], block)
  }

  /** One call takes the memory `was` to `now`: the chain steps, and only the bytes the call may change do. */
  ghost predicate Follows(was: seq<Byte>, now: seq<Byte>, chain: Chain, call: Call, first: nat, top: nat) {
    Touches(was, now, chain, call) && Holds(now, Step(chain, call), first, top)
  }

  /** An owned block the call is not about keeps every byte, header and data. */
  lemma StepKeepsBytes(was: seq<Byte>, now: seq<Byte>, chain: Chain, call: Call, block: Block, first: nat, top: nat)
    requires Tiles(chain, first, top) && Touches(was, now, chain, call)
    requires block in chain && !block.IsFree() && SparesBytes(chain, call, block)
    ensures BlockKept(was, now, block)
  {
    hide OnlyFreeBytes, SameOutside, OnlyHeaders, Tiles, Reach, ReserveTop, BlockKept;
    var n :| 0 <= n < |chain| && chain[n] == block;
    if now == was {
      NothingLost(was, block);
      return;
    }
    match call {
      case Request(_) => AllocateKeepsOwnedBytes(was, now, chain, n, first, top);
      case Release(segment) =>
        if Find(chain, segment) < |chain| {
          FreeKeepsOwnedBytes(was, now, chain, Find(chain, segment), first, top);
        } else {
          OutsideKept(was, now, block, InFront(segment), InFront(segment));
        }
      case Change(segment, paragraphs) =>
        if Find(chain, segment) < |chain| {
          ResizeKeepsData(was, now, chain, Find(chain, segment), paragraphs, first, top);
        } else {
          OutsideKept(was, now, block, InFront(segment), TailOf(segment, paragraphs));
        }
      case ReserveHigh(paragraphs) => ReserveKeepsOwnedBytes(was, now, chain, paragraphs, first, top);
    }
  }

  lemma NothingLost(memory: seq<Byte>, block: Block)
    ensures BlockKept(memory, memory, block)
  {
  }

  lemma OutsideKept(was: seq<Byte>, now: seq<Byte>, block: Block, head: nat, tail: nat)
    requires OnlyHeaders(was, now, head, tail) || SameOutside(was, now, Linear(head), Linear(head) + 5)
    requires !Inside(block, head) && !Inside(block, tail)
    ensures BlockKept(was, now, block)
  {
  }

  /** The memories a run goes through, from the one it starts in to the one it ends in. */
  ghost predicate Trace(memories: seq<seq<Byte>>, chain: Chain, calls: seq<Call>, first: nat, top: nat)
    decreases |calls|
  {
    && |memories| == |calls| + 1
    && (calls != [] ==>
          && Follows(memories[0], memories[1], chain, calls[0], first, top)
          && Trace(memories[1..], Step(chain, calls[0]), calls[1..], first, top))
  }

  /**
   * Through any run of calls about other blocks, an owned block stays in the chain and not one of its
   * bytes, header or data, changes; and the chain still reads back.
   */
  lemma {:induction false} RunKeepsBytes(memories: seq<seq<Byte>>, chain: Chain, calls: seq<Call>, block: Block,
                                         first: nat, top: nat)
    requires Trace(memories, chain, calls, first, top) && Holds(memories[0], chain, first, top)
    requires block in chain && !block.IsFree() && RunSparesBytes(chain, calls, block)
    ensures Holds(memories[|calls|], Run(chain, calls), first, top)
    ensures block in Run(chain, calls)
    ensures BlockKept(memories[0], memories[|calls|], block)
    decreases |calls|
  {
    hide Touches, Spares, Step;
    if calls != [] {
      StepKeepsBytes(memories[0], memories[1], chain, calls[0], block, first, top);
      StepSpares(chain, calls[0], block, first, top);
      RunKeepsBytes(memories[1..], Step(chain, calls[0]), calls[1..], block, first, top);
      KeptTwice(memories[0], memories[1], memories[|calls|], block);
    }
  }

  lemma KeptTwice(m0: seq<Byte>, m1: seq<Byte>, m2: seq<Byte>, block: Block)
    requires BlockKept(m0, m1, block) && BlockKept(m1, m2, block)
    ensures BlockKept(m0, m2, block)
  {
  }

  /**
   * The call returns and leaves a chain: a free on a signed paragraph that is no header has an end, the tail a resize
   * writes from one fits, and a reservation's size test does not wrap.
   */
  ghost predicate InScope(memory: seq<Byte>, chain: Chain, call: Call)
    requires |memory| >= REAL_MODE_BYTES
  {
    match call
    case Request(paragraphs) => paragraphs <= 0xFFFF
    case Release(segment) =>
      && segment <= 0xFFFF
      && (Find(chain, segment) == |chain| && IsSigned(memory, InFront(segment)) ==>
          FreeReturns(memory, InFront(segment)))
    case Change(segment, paragraphs) =>
      && segment <= 0xFFFF && paragraphs <= 0xFFFF
      && (Find(chain, segment) == |chain| && IsSigned(memory, InFront(segment)) ==>
            TailFits(chain, InFront(segment), paragraphs, ResizeAt(memory, InFront(segment), paragraphs)))
    case ReserveHigh(paragraphs) => paragraphs <= 0xFFFF && chain != [] && !SizeTestWraps(chain, paragraphs)
  }

  lemma {:induction false} FindIsFirst(chain: Chain, segment: nat)
    ensures Find(chain, segment) == |chain| ==> forall j :: 0 <= j < |chain| ==> chain[j].segment + 1 != segment
  {
    if chain != [] {
      FindIsFirst(chain[1..], segment);
      assert forall j :: 1 <= j < |chain| ==> chain[j] == chain[1..][j - 1];
    }
  }

  /** What `Find` finds is what the call's segment names. */
  lemma FindNames(chain: Chain, segment: nat, first: nat, top: Word)
    requires Tiles(chain, first, top)
    ensures Find(chain, segment) == |chain| ==> Unlisted(chain, InFront(segment))
    ensures Find(chain, segment) < |chain| ==> chain[Find(chain, segment)].segment == InFront(segment)
  {
    FindIsFirst(chain, segment);
    TilesOrdered(chain, first, top);
  }

  /** One call, made of the memory itself. */
  method Perform(memory: ConventionalMemory, call: Call)
    requires memory.Valid() && InScope(memory.bytes[..], memory.chain, call)
    modifies memory`chain, memory.bytes
    ensures memory.Valid() && memory.chain == Step(old(memory.chain), call)
    ensures Follows(old(memory.bytes[..]), memory.bytes[..], old(memory.chain), call, memory.firstMcb, memory.top)
  {
    match call {
      case Request(paragraphs) => PerformRequest(memory, paragraphs);
      case Release(segment) => PerformRelease(memory, segment);
      case Change(segment, paragraphs) => PerformChange(memory, segment, paragraphs);
      case ReserveHigh(paragraphs) => PerformReserve(memory, paragraphs);
    }
  }

  method PerformRequest(memory: ConventionalMemory, paragraphs: nat)
    requires memory.Valid() && InScope(memory.bytes[..], memory.chain, Request(paragraphs))
    modifies memory`chain, memory.bytes
    ensures memory.Valid() && memory.chain == Step(old(memory.chain), Request(paragraphs))
    ensures Touches(old(memory.bytes[..]), memory.bytes[..], old(memory.chain), Request(paragraphs))
  {
    hide Holds, OnlyFreeBytes, Allocate;
    var code, segment, largest := memory.DosMcbAllocate(paragraphs);
  }

  method PerformRelease(memory: ConventionalMemory, segment: nat)
    requires memory.Valid() && InScope(memory.bytes[..], memory.chain, Release(segment))
    modifies memory`chain, memory.bytes
    ensures memory.Valid() && memory.chain == Step(old(memory.chain), Release(segment))
    ensures Touches(old(memory.bytes[..]), memory.bytes[..], old(memory.chain), Release(segment))
  {
    hide Holds, Tiles, SameOutside, Free, FreeReturns, IsSigned;
    assert Tiles(memory.chain, memory.firstMcb, memory.top) by { ChainTiles(memory); }
    FindNames(memory.chain, segment, memory.firstMcb, memory.top);
    var code := memory.DosMcbFree(segment, Find(memory.chain, segment));
  }

  lemma ChainTiles(memory: ConventionalMemory)
    requires memory.Valid()
    ensures Tiles(memory.chain, memory.firstMcb, memory.top)
  {
  }

  method PerformChange(memory: ConventionalMemory, segment: nat, paragraphs: nat)
    requires memory.Valid() && InScope(memory.bytes[..], memory.chain, Change(segment, paragraphs))
    modifies memory`chain, memory.bytes
    ensures memory.Valid() && memory.chain == Step(old(memory.chain), Change(segment, paragraphs))
    ensures Touches(old(memory.bytes[..]), memory.bytes[..], old(memory.chain), Change(segment, paragraphs))
  {
    hide Holds, Tiles, OnlyHeaders, SameOutside, TailFits, IsSigned, ResizeAt, IsResized;
    ghost var was := memory.bytes[..];
    assert Tiles(memory.chain, memory.firstMcb, memory.top) by { ChainTiles(memory); }
    FindNames(memory.chain, segment, memory.firstMcb, memory.top);
    var code, largest := memory.DosMcbResize(segment, paragraphs, Find(memory.chain, segment));
    UnlistedTouches(was, memory.bytes[..], segment, paragraphs);
  }

  /** A resize called on no block changes no more than its two headers, and nothing when it is refused. */
  lemma UnlistedTouches(was: seq<Byte>, now: seq<Byte>, segment: Word, paragraphs: Word)
    requires |was| >= REAL_MODE_BYTES
    ensures now == was ==> OnlyHeaders(was, now, InFront(segment), TailOf(segment, paragraphs))
    ensures var found := ResizeAt(was, InFront(segment), paragraphs);
            found.Fits? && IsResized(was, now, InFront(segment), paragraphs, found) ==>
              OnlyHeaders(was, now, InFront(segment), TailOf(segment, paragraphs))
  {
    hide ResizeAt, HeaderAt;
    assert ToWord(InFront(segment) + 1 + paragraphs) == TailOf(segment, paragraphs);
  }

  method PerformReserve(memory: ConventionalMemory, paragraphs: nat)
    requires memory.Valid() && InScope(memory.bytes[..], memory.chain, ReserveHigh(paragraphs))
    modifies memory`chain, memory.bytes
    ensures memory.Valid() && memory.chain == Step(old(memory.chain), ReserveHigh(paragraphs))
    ensures Touches(old(memory.bytes[..]), memory.bytes[..], old(memory.chain), ReserveHigh(paragraphs))
  {
    hide Holds, OnlyHeaders, ReserveAt;
    var segment := memory.DosMcbReserveTop(paragraphs);
  }

  /** Every call of the run is in scope of every memory the calls before it can leave. */
  ghost predicate RunInScope(memory: seq<Byte>, chain: Chain, calls: seq<Call>, first: nat, top: nat)
    decreases |calls|
  {
    calls != [] ==>
      && |memory| >= REAL_MODE_BYTES && InScope(memory, chain, calls[0])
      && forall now :: Follows(memory, now, chain, calls[0], first, top) ==>
           RunInScope(now, Step(chain, calls[0]), calls[1..], first, top)
  }

  /** A run of calls made of the memory, one after the other; `memories` are those it went through. */
  method PerformAll(memory: ConventionalMemory, calls: seq<Call>) returns (ghost memories: seq<seq<Byte>>)
    requires memory.Valid() && RunInScope(memory.bytes[..], memory.chain, calls, memory.firstMcb, memory.top)
    modifies memory`chain, memory.bytes
    ensures memory.Valid() && memory.chain == Run(old(memory.chain), calls)
    ensures Trace(memories, old(memory.chain), calls, memory.firstMcb, memory.top)
    ensures memories[0] == old(memory.bytes[..]) && memories[|calls|] == memory.bytes[..]
    ensures forall block ::
              block in old(memory.chain) && !block.IsFree() && RunSparesBytes(old(memory.chain), calls, block) ==>
                block in memory.chain && BlockKept(old(memory.bytes[..]), memory.bytes[..], block)
    decreases |calls|
  {
    hide Follows, Holds, Step, InScope, BlockKept;
    memories := [memory.bytes[..]];
    if calls != [] {
      Perform(memory, calls[0]);
      var later := PerformAll(memory, calls[1..]);
      memories := memories + later;
      assert memories[1..] == later;
    }
    ghost var chain := old(memory.chain);
    forall block | block in chain && !block.IsFree() && RunSparesBytes(chain, calls, block)
      ensures block in memory.chain && BlockKept(memories[0], memories[|calls|], block)
    {
      RunKeepsBytes(memories, chain, calls, block, memory.firstMcb, memory.top);
    }
  }
}
