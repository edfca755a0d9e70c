/** The memory a program finds: who owns the blocks DOS starts with, and what a first request is told. */
module McbStart {
  import opened Machine
  import opened McbChain
  import opened McbHeader
  import opened Mcb

  /**
   * Any chain that reads back after initialisation has three blocks and none of them is free: the environment and the
   * program's block belong to the program at 100h, and DOS's own data at 8Fh..FFh, between them, to owner 8.
   */
  lemma StartHasNothingFree(memory: seq<Byte>, chain: Chain, top: Word)
    requires StartBytes(memory, top) && Holds(memory, chain, 0x7E, top)
    ensures top >= 0x100
    ensures chain == [Block(0x7E, 0x100, 0x10), Block(0x8F, 8, 0x6F), Block(0xFF, 0x100, top - 0x100)]
    ensures forall i :: 0 <= i < |chain| ==> !chain[i].IsFree() && chain[i].owner != 0
  {
    hide HeaderBytes;
    StartRead(memory, chain, 0, 0x7E, top, 0x10, 0x100);
    StartRead(memory, chain, 1, 0x8F, top, 0x6F, 8);
    var left: Word := if top >= 0x100 then top - 0x100 else top + 0xFF00;
    StartRead(memory, chain, 2, 0xFF, top, left, 0x100);
  }

  /** Block i, when it starts at `segment`, is what the header there says, and the next one starts where it ends. */
  lemma StartRead(memory: seq<Byte>, chain: Chain, i: nat, segment: nat, top: Word, size: Word, owner: Word)
    requires Holds(memory, chain, 0x7E, top)
    requires i == 0 || (i < |chain| && chain[i].segment == segment)
    requires HeaderBytes(memory, segment, [if segment == 0xFF then 0x5A else 0x4D, owner % 0x100, owner / 0x100,
                                           size % 0x100, size / 0x100])
    requires i == 0 ==> segment == 0x7E
    ensures i < |chain| && chain[i] == Block(segment, owner, size)
    ensures segment == 0xFF <==> i + 1 == |chain|
    ensures segment + 1 + size == if segment == 0xFF then top else chain[i + 1].segment
  {
    assert chain[0].segment == 0x7E;
    HeaderOf(memory, chain, i, 0x7E, top);
    HeaderBytesAre(memory, chain[i], i == |chain| - 1);
    var bytes := memory[16 * segment..16 * segment + 5];
    assert bytes[0] == (if segment == 0xFF then 0x5A else 0x4D) && bytes[0] == (if i == |chain| - 1 then 0x5A else 0x4D);
    assert bytes[1] == owner % 0x100 && bytes[2] == owner / 0x100;
    assert bytes[3] == size % 0x100 && bytes[4] == size / 0x100;
    SplitWord(owner, chain[i].owner);
    SplitWord(size, chain[i].size);
  }

  lemma SplitWord(a: Word, b: nat)
    requires a % 0x100 == b % 0x100 && a / 0x100 == b / 0x100
    ensures a == b
  {
  }

  /** On such memory no request is granted, not even one for no paragraph, and the figure reported is 0. */
  lemma StartGrantsNothing(memory: seq<Byte>, chain: Chain, top: Word, requested: Word)
    requires StartBytes(memory, top) && Holds(memory, chain, 0x7E, top)
    ensures Allocate(chain, requested) == Refused(chain, 0)
  {
    StartHasNothingFree(memory, chain, top);
    NothingFree(chain, requested);
  }

  lemma {:induction false} NothingFree(chain: Chain, requested: nat)
    requires forall i :: 0 <= i < |chain| ==> !chain[i].IsFree()
    ensures Allocate(chain, requested) == Refused(chain, 0)
    decreases |chain|
  {
    if chain != [] {
      NothingFree(chain[1..], requested);
    }
  }
}
