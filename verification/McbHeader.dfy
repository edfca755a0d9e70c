/** One MCB header in memory, and the two loops that work on it whether or not a chain knows it. */
module McbHeader {
  import opened Machine
  import opened McbChain

  const MEMBER: Byte := 0x4D
  const LAST: Byte := 0x5A

  /** One past the last byte a header at a WORD segment can reach. */
  const REAL_MODE_BYTES := 0x10_0000

  /** The linear address of a segment's first byte. */
  function Linear(segment: nat): nat {
    16 * segment
  }

  /** A block's signature byte, owner word and size word, as they are in memory. */
  ghost predicate HeaderIn(memory: seq<Byte>, block: Block, isLast: bool) {
    && Linear(block.segment) + 5 <= |memory|
    && memory[Linear(block.segment)] == (if isLast then LAST else MEMBER)
    && WordIn(memory, Linear(block.segment) + 1) == block.owner
    && WordIn(memory, Linear(block.segment) + 3) == block.size
  }

  /** The first five bytes of a header paragraph, as a debugger shows them. */
  ghost predicate HeaderBytes(memory: seq<Byte>, segment: nat, header: seq<Byte>) {
    16 * segment + 5 <= |memory| && memory[16 * segment..16 * segment + 5] == header
  }

  /**
   * The three headers DOS starts with, byte by byte: 7Eh and FFh belong to the program at 100h, 8Fh to DOS, which is
   * owner 8, and the last one has what is left below `top`, modulo 65536.
   */
  ghost predicate StartBytes(memory: seq<Byte>, top: Word) {
    var left: Word := if top >= 0x100 then top - 0x100 else top + 0xFF00;
    && HeaderBytes(memory, 0x7E, [0x4D, 0x00, 0x01, 0x10, 0x00])
    && HeaderBytes(memory, 0x8F, [0x4D, 0x08, 0x00, 0x6F, 0x00])
    && HeaderBytes(memory, 0xFF, [0x5A, 0x00, 0x01, left % 0x100, left / 0x100])
  }

  // ---- a header's fields ----

  function SignatureAt(memory: seq<Byte>, segment: Word): Byte
    requires |memory| >= REAL_MODE_BYTES
  {
    memory[Linear(segment)]
  }

  function OwnerAt(memory: seq<Byte>, segment: Word): Word
    requires |memory| >= REAL_MODE_BYTES
  {
    WordIn(memory, Linear(segment) + 1)
  }

  function SizeAt(memory: seq<Byte>, segment: Word): Word
    requires |memory| >= REAL_MODE_BYTES
  {
    WordIn(memory, Linear(segment) + 3)
  }

  /** The paragraph a header's size leads to, modulo 65536. */
  function NextAt(memory: seq<Byte>, segment: Word): Word
    requires |memory| >= REAL_MODE_BYTES
  {
    ToWord(segment + 1 + SizeAt(memory, segment))
  }

  /** The paragraph carries a signature byte: that is all AH=49h and AH=4Ah ask. */
  predicate IsSigned(memory: seq<Byte>, segment: Word)
    requires |memory| >= REAL_MODE_BYTES
  {
    SignatureAt(memory, segment) == MEMBER || SignatureAt(memory, segment) == LAST
  }

  /** The header whatever its signature byte is. */
  ghost predicate HeaderAt(memory: seq<Byte>, segment: Word, signature: Byte, owner: Word, size: Word) {
    && |memory| >= REAL_MODE_BYTES
    && SignatureAt(memory, segment) == signature && OwnerAt(memory, segment) == owner && SizeAt(memory, segment) == size
  }

  lemma HeaderAtIsIn(memory: seq<Byte>, segment: Word, signature: Byte, owner: Word, size: Word)
    requires HeaderAt(memory, segment, signature, owner, size) && (signature == MEMBER || signature == LAST)
    ensures HeaderIn(memory, Block(segment, owner, size), signature == LAST)
  {
  }

  /** Bytes written outside the first five of a header leave it what it is. */
  lemma HeaderStays(was: seq<Byte>, now: seq<Byte>, segment: Word)
    requires |was| == |now| >= REAL_MODE_BYTES
    requires forall k :: Linear(segment) <= k < Linear(segment) + 5 ==> now[k] == was[k]
    ensures HeaderAt(now, segment, SignatureAt(was, segment), OwnerAt(was, segment), SizeAt(was, segment))
  {
  }

  // ---- writing ----

  /** A header's size and signature rewritten: the block that is there now. */
  method WriteSize(bytes: array<Byte>, segment: Word, signature: Byte, size: Word, ghost owner: Word)
    requires bytes.Length >= REAL_MODE_BYTES
    requires WordIn(bytes[..], Linear(segment) + 1) == owner
    modifies bytes
    ensures HeaderAt(bytes[..], segment, signature, owner, size)
    ensures signature == MEMBER || signature == LAST ==>
              HeaderIn(bytes[..], Block(segment, owner, size), signature == LAST)
    ensures SameOutside(old(bytes[..]), bytes[..], Linear(segment), Linear(segment) + 5)
  {
    var mcb := Linear(segment);
    WriteWord(bytes, mcb + 3, size);
    bytes[mcb] := signature;
    assert bytes[..][mcb + 1] == old(bytes[..])[mcb + 1] && bytes[..][mcb + 2] == old(bytes[..])[mcb + 2];
  }

  method DosMcbWriteHeader(bytes: array<Byte>, segment: Word, signature: Byte, owner: Word, paragraphs: Word)
    requires bytes.Length >= REAL_MODE_BYTES
    modifies bytes
    ensures HeaderAt(bytes[..], segment, signature, owner, paragraphs)
    ensures signature == MEMBER || signature == LAST ==>
              HeaderIn(bytes[..], Block(segment, owner, paragraphs), signature == LAST)
    ensures bytes[Linear(segment) + 8] == 0
    ensures SameOutside(old(bytes[..]), bytes[..], Linear(segment), Linear(segment + 1))
  {
    var mcb := Linear(segment);
    bytes[mcb] := signature;
    WriteWord(bytes, mcb + 1, owner);
    ghost var withOwner := bytes[..];
    WriteWord(bytes, mcb + 3, paragraphs);
    assert bytes[..][mcb + 1] == withOwner[mcb + 1] && bytes[..][mcb + 2] == withOwner[mcb + 2];
    bytes[mcb + 8] := 0;
  }

  /** The memories agree but for the header bytes at `head` and the paragraph `tail`. */
  ghost predicate OnlyHeaders(was: seq<Byte>, now: seq<Byte>, head: nat, tail: nat) {
    && |was| == |now|
    && forall k :: 0 <= k < |was| && !(Linear(head) <= k < Linear(head) + 5) && !(Linear(tail) <= k < Linear(tail + 1))
         ==> now[k] == was[k]
  }

  lemma TwoHeaders(was: seq<Byte>, mid: seq<Byte>, now: seq<Byte>, head: nat, tail: nat)
    requires SameOutside(was, mid, Linear(head), Linear(head) + 5)
    requires SameOutside(mid, now, Linear(tail), Linear(tail + 1))
    ensures OnlyHeaders(was, now, head, tail)
  {
  }

  /** A block cut to `kept` paragraphs, with a free block behind it for the rest. */
  method SplitOff(bytes: array<Byte>, segment: Word, kept: Word, signature: Byte, tailSize: Word, ghost owner: Word)
    requires bytes.Length >= REAL_MODE_BYTES
    requires kept < 0xFFFF
    requires WordIn(bytes[..], Linear(segment) + 1) == owner
    modifies bytes
    ensures HeaderAt(bytes[..], segment, MEMBER, owner, kept)
    ensures HeaderAt(bytes[..], ToWord(segment + 1 + kept), signature, OWNER_FREE, tailSize)
    ensures OnlyHeaders(old(bytes[..]), bytes[..], segment, ToWord(segment + 1 + kept))
  {
    ghost var was := bytes[..];
    var tail := ToWord(segment + 1 + kept);
    DosMcbWriteHeader(bytes, tail, signature, OWNER_FREE, tailSize);
    ghost var withTail := bytes[..];
    assert withTail[Linear(segment) + 1] == was[Linear(segment) + 1];
    assert withTail[Linear(segment) + 2] == was[Linear(segment) + 2];
    WriteSize(bytes, segment, MEMBER, kept, owner);
    HeaderStays(withTail, bytes[..], tail);
  }

  // ---- merging ----

  /** The header's loop goes on: it is a member, and what its size leads to is signed and free. */
  predicate Merges(memory: seq<Byte>, segment: Word)
    requires |memory| >= REAL_MODE_BYTES
  {
    && SignatureAt(memory, segment) == MEMBER
    && OwnerAt(memory, NextAt(memory, segment)) == OWNER_FREE && IsSigned(memory, NextAt(memory, segment))
  }

  /** One pass: the sizes added modulo 65536, and the next header's signature. */
  function MergedOnce(memory: seq<Byte>, segment: Word): (r: seq<Byte>)
    requires |memory| >= REAL_MODE_BYTES
    ensures SameOutside(memory, r, Linear(segment), Linear(segment) + 5)
  {
    var next := NextAt(memory, segment);
    var size: Word := ToWord(SizeAt(memory, segment) + 1 + SizeAt(memory, next));
    var sized := memory[Linear(segment) + 3 := size % 0x100][Linear(segment) + 4 := size / 0x100];
    sized[Linear(segment) := SignatureAt(memory, next)]
  }

  lemma IsMergedOnce(was: seq<Byte>, now: seq<Byte>, segment: Word)
    requires |was| >= REAL_MODE_BYTES && SameOutside(was, now, Linear(segment), Linear(segment) + 5)
    requires now[Linear(segment) + 1] == was[Linear(segment) + 1]
               && now[Linear(segment) + 2] == was[Linear(segment) + 2]
    requires SignatureAt(now, segment) == SignatureAt(was, NextAt(was, segment))
    requires SizeAt(now, segment) == ToWord(SizeAt(was, segment) as int + 1 + SizeAt(was, NextAt(was, segment)))
    ensures now == MergedOnce(was, segment)
  {
    hide WordIn, ToWord;
    WordBytes(now, Linear(segment) + 3);
  }

  lemma WordBytes(memory: seq<Byte>, at: nat)
    requires at + 1 < |memory|
    ensures memory[at] == WordIn(memory, at) % 0x100 && memory[at + 1] == WordIn(memory, at) / 0x100
  {
  }

  /** The loop has ended after n passes at most. */
  predicate EndsWithin(memory: seq<Byte>, segment: Word, n: nat)
    requires |memory| >= REAL_MODE_BYTES
    decreases n
  {
    !Merges(memory, segment) || (n > 0 && EndsWithin(MergedOnce(memory, segment), segment, n - 1))
  }

  function MergedAll(memory: seq<Byte>, segment: Word, n: nat): (r: seq<Byte>)
    requires |memory| >= REAL_MODE_BYTES
    ensures SameOutside(memory, r, Linear(segment), Linear(segment) + 5)
    decreases n
  {
    if n == 0 || !Merges(memory, segment) then memory else MergedAll(MergedOnce(memory, segment), segment, n - 1)
  }

  lemma MergeStep(memory: seq<Byte>, segment: Word, n: nat)
    requires |memory| >= REAL_MODE_BYTES && EndsWithin(memory, segment, n)
    ensures Merges(memory, segment) ==>
              && n > 0 && EndsWithin(MergedOnce(memory, segment), segment, n - 1)
              && MergedAll(memory, segment, n) == MergedAll(MergedOnce(memory, segment), segment, n - 1)
    ensures !Merges(memory, segment) ==> MergedAll(memory, segment, n) == memory
  {
  }

  /** One pass: the header takes over the one its size leads to. */
  method MergeNext(bytes: array<Byte>, mcbSegment: Word)
    requires bytes.Length >= REAL_MODE_BYTES
    modifies bytes
    ensures bytes[..] == MergedOnce(old(bytes[..]), mcbSegment)
  {
    hide MergedOnce, ToWord;
    ghost var was := bytes[..];
    var mcb := Linear(mcbSegment);
    var blockSize := ReadWord(bytes, mcb + 3);
    var next := Linear(ToWord(mcbSegment + 1 + blockSize));
    var nextSize := ReadWord(bytes, next + 3);
    WriteWord(bytes, mcb + 3, ToWord(blockSize as int + 1 + nextSize));
    bytes[mcb] := bytes[next];
    IsMergedOnce(was, bytes[..], mcbSegment);
  }

  /** The loop, for a header of any chain or of none: it comes to its end when it has one. */
  method MergeLoop(bytes: array<Byte>, mcbSegment: Word, ghost n: nat)
    requires bytes.Length >= REAL_MODE_BYTES && EndsWithin(bytes[..], mcbSegment, n)
    modifies bytes
    ensures bytes[..] == MergedAll(old(bytes[..]), mcbSegment, n)
  {
    hide MergedOnce, MergedAll, EndsWithin, ToWord, WordIn;
    var mcb := Linear(mcbSegment);
    ghost var k := n;
    MergeStep(bytes[..], mcbSegment, k);
    while bytes[mcb] == MEMBER
      invariant EndsWithin(bytes[..], mcbSegment, k)
      invariant MergedAll(bytes[..], mcbSegment, k) == MergedAll(old(bytes[..]), mcbSegment, n)
      invariant Merges(bytes[..], mcbSegment) ==> k > 0
      invariant Merges(bytes[..], mcbSegment) ==> EndsWithin(MergedOnce(bytes[..], mcbSegment), mcbSegment, k - 1)
      invariant MergedAll(bytes[..], mcbSegment, k)
             == if Merges(bytes[..], mcbSegment) then MergedAll(MergedOnce(bytes[..], mcbSegment), mcbSegment, k - 1)
                else bytes[..]
      decreases k
    {
      var blockSize := ReadWord(bytes, mcb + 3);
      var next := Linear(ToWord(mcbSegment + 1 + blockSize));
      var nextOwner := ReadWord(bytes, next + 1);
      if nextOwner != OWNER_FREE {
        break;
      }
      if bytes[next] != MEMBER && bytes[next] != LAST {
        break;
      }
      assert Merges(bytes[..], mcbSegment);
      MergeNext(bytes, mcbSegment);
      k := k - 1;
      MergeStep(bytes[..], mcbSegment, k);
    }
  }

  /** A free header whose size leads back to itself: the loop has no end. */
  lemma {:induction false} NeverEnds(memory: seq<Byte>, segment: Word, n: nat)
    requires HeaderAt(memory, segment, MEMBER, OWNER_FREE, 0xFFFF)
    ensures !EndsWithin(memory, segment, n)
  {
    assert NextAt(memory, segment) == segment;
    assert MergedOnce(memory, segment) == memory;
    if n > 0 {
      NeverEnds(memory, segment, n - 1);
    }
  }

  /** Its owner marked free. */
  function MarkedFree(memory: seq<Byte>, segment: Word): (r: seq<Byte>)
    requires |memory| >= REAL_MODE_BYTES
    ensures SameOutside(memory, r, Linear(segment) + 1, Linear(segment) + 3)
    ensures HeaderAt(r, segment, SignatureAt(memory, segment), OWNER_FREE, SizeAt(memory, segment))
  {
    memory[Linear(segment) + 1 := 0][Linear(segment) + 2 := 0]
  }

  /** AH=49h on a signed paragraph returns: its loop has an end. */
  ghost predicate FreeReturns(memory: seq<Byte>, segment: Word)
    requires |memory| >= REAL_MODE_BYTES
  {
    exists n: nat :: EndsWithin(MarkedFree(memory, segment), segment, n)
  }

  /** It does not on a member whose size is 0xFFFF, whoever owns it. */
  lemma FreeOfLoopNeverReturns(memory: seq<Byte>, segment: Word, owner: Word)
    requires HeaderAt(memory, segment, MEMBER, owner, 0xFFFF)
    ensures !FreeReturns(memory, segment)
  {
    forall n: nat
      ensures !EndsWithin(MarkedFree(memory, segment), segment, n)
    {
      NeverEnds(MarkedFree(memory, segment), segment, n);
    }
  }

  // ---- resizing ----

  /** What AH=4Ah finds at a signed paragraph: the paragraphs it takes as available and a signature, or too few. */
  datatype Finding = Fits(available: Word, signature: Byte) | TooFew(largest: Word)

  function ResizeAt(memory: seq<Byte>, segment: Word, requested: Word): Finding
    requires |memory| >= REAL_MODE_BYTES
  {
    var size, next := SizeAt(memory, segment), NextAt(memory, segment);
    if requested <= size then Fits(size, SignatureAt(memory, segment))
    else if SignatureAt(memory, segment) == MEMBER && OwnerAt(memory, next) == OWNER_FREE then
      var available := ToWord(size + 1 + SizeAt(memory, next));
      if requested <= available then Fits(available, SignatureAt(memory, next)) else TooFew(available)
    else TooFew(size)
  }

  /** What it writes then: two headers, or the one it was called on. */
  ghost predicate IsResized(was: seq<Byte>, now: seq<Byte>, segment: Word, requested: Word, found: Finding)
    requires |was| >= REAL_MODE_BYTES && found.Fits?
  {
    if requested < found.available then
      var tail := ToWord(segment + 1 + requested);
      && OnlyHeaders(was, now, segment, tail)
      && HeaderAt(now, segment, MEMBER, OwnerAt(was, segment), requested)
      && HeaderAt(now, tail, found.signature, OWNER_FREE, found.available - requested - 1)
    else
      && SameOutside(was, now, Linear(segment), Linear(segment) + 5)
      && HeaderAt(now, segment, found.signature, OwnerAt(was, segment), found.available)
  }
}
