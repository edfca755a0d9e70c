/** Programs into memory: the MZ load module copied and its fixups applied, and how much memory EXEC reserves for it. */
module Loader {
  import opened Machine

  const PSP_PARAGRAPHS := 0x10
  const HEADER_MIN := 0x1C
  const PAGE_BYTES := 512
  const COM_MAX_BYTES := 0xFE00
  const COM_ENTRY := 0x100
  const COM_INITIAL_SP := 0xFFFE
  const INSUFFICIENT_MEMORY := 8

  /** Every address a segment, a fixup's segment and its offset can add up to is below this. */
  const ADDRESS_SPACE: nat := 0x21_0000

  datatype Image = Image(codeSegment: Word, instructionPointer: Word, stackSegment: Word, stackPointer: Word,
                         isExe: bool, imageSize: nat)

  predicate IsMz(file: seq<Byte>) {
    |file| >= HEADER_MIN && file[0] == 0x4D && file[1] == 0x5A
  }

  // ---- the header ----

  function HeaderSize(file: seq<Byte>): nat
    requires IsMz(file)
  {
    WordIn(file, 8) * 16
  }

  /** The bytes of the file that the header says belong to the program, no more than were read. */
  function TotalUsed(file: seq<Byte>): nat
    requires IsMz(file)
  {
    var pages, last := WordIn(file, 4), WordIn(file, 2);
    var total := if pages == 0 then |file| else (pages - 1) * PAGE_BYTES + if last == 0 then PAGE_BYTES else last;
    if total > |file| then |file| else total
  }

  function ImageSize(file: seq<Byte>): (size: nat)
    requires IsMz(file)
    ensures size > 0 ==> HeaderSize(file) + size <= |file|
  {
    if TotalUsed(file) > HeaderSize(file) then TotalUsed(file) - HeaderSize(file) else 0
  }

  /** The load module: what of the file goes to memory. */
  function LoadModule(file: seq<Byte>): (image: seq<Byte>)
    requires IsMz(file)
    ensures |image| == ImageSize(file)
  {
    if ImageSize(file) == 0 then [] else file[HeaderSize(file)..HeaderSize(file) + ImageSize(file)]
  }

  /** The relocation table is in what was read. */
  predicate TableRead(file: seq<Byte>)
    requires IsMz(file)
  {
    WordIn(file, 24) + 4 * WordIn(file, 6) <= |file|
  }

  /** n fixups from byte `at` of the file on, counted in bytes from the start of the image. */
  function FixupsAt(file: seq<Byte>, at: nat, n: nat): (r: seq<nat>)
    requires at + 4 * n <= |file|
    ensures |r| == n && forall i :: 0 <= i < n ==> r[i] <= 0x10_FFEF
    decreases n
  {
    if n == 0 then [] else [16 * WordIn(file, at + 2) + WordIn(file, at)] + FixupsAt(file, at + 4, n - 1)
  }

  function Fixups(file: seq<Byte>): seq<nat>
    requires IsMz(file) && TableRead(file)
  {
    FixupsAt(file, WordIn(file, 24), WordIn(file, 6))
  }

  // ---- what the fixups do ----

  predicate InMemory(memory: seq<Byte>, base: nat, fixups: seq<nat>) {
    forall i :: 0 <= i < |fixups| ==> base + fixups[i] + 1 < |memory|
  }

  function AddWord(memory: seq<Byte>, at: nat, factor: Word): (r: seq<Byte>)
    requires at + 1 < |memory|
    ensures |r| == |memory| && WordIn(r, at) == (WordIn(memory, at) + factor) % 0x1_0000
    ensures forall k :: 0 <= k < |r| && k != at && k != at + 1 ==> r[k] == memory[k]
  {
    var word := (WordIn(memory, at) + factor) % 0x1_0000;
    memory[at := word % 0x100][at + 1 := word / 0x100]
  }

  function Relocated(memory: seq<Byte>, base: nat, fixups: seq<nat>, factor: Word): (r: seq<Byte>)
    requires InMemory(memory, base, fixups)
    ensures |r| == |memory|
    decreases |fixups|
  {
    if fixups == [] then memory
    else Relocated(AddWord(memory, base + fixups[0], factor), base, fixups[1..], factor)
  }

  function Count(fixups: seq<nat>, at: nat): nat {
    if fixups == [] then 0 else (if fixups[0] == at then 1 else 0) + Count(fixups[1..], at)
  }

  /** No fixup shares just one byte with the word at `at`. */
  predicate Apart(fixups: seq<nat>, at: nat) {
    forall i :: 0 <= i < |fixups| ==> fixups[i] == at || fixups[i] + 2 <= at || at + 2 <= fixups[i]
  }

  /** A word with the factor added `count` times, modulo 65536. */
  function Added(word: Word, count: nat, factor: Word): Word {
    (word + count * factor) % 0x1_0000
  }

  lemma AddedStep(word: Word, count: nat, factor: Word)
    ensures Added(word, 0, factor) == word
    ensures Added((word + factor) % 0x1_0000, count, factor) == Added(word, 1 + count, factor)
  {
    var rest := count * factor;
    assert (1 + count) * factor == factor + rest;
    AddTwice(word, factor, rest);
  }

  /** The word has the factor added once for each entry that names it, modulo 65536. */
  lemma {:induction false} WordRelocated(memory: seq<Byte>, base: nat, fixups: seq<nat>, factor: Word, at: nat)
    requires InMemory(memory, base, fixups) && base + at + 1 < |memory| && Apart(fixups, at)
    ensures WordIn(Relocated(memory, base, fixups, factor), base + at)
         == Added(WordIn(memory, base + at), Count(fixups, at), factor)
    decreases |fixups|
  {
    hide WordIn, Added;
    AddedStep(WordIn(memory, base + at), if fixups == [] then 0 else Count(fixups[1..], at), factor);
    if fixups != [] {
      WordRelocated(AddWord(memory, base + fixups[0], factor), base, fixups[1..], factor, at);
      if fixups[0] != at {
        WordElsewhere(memory, base + fixups[0], factor, base + at);
      }
    }
  }

  lemma WordElsewhere(memory: seq<Byte>, fixup: nat, factor: Word, at: nat)
    requires fixup + 1 < |memory| && at + 1 < |memory| && (fixup + 2 <= at || at + 2 <= fixup)
    ensures WordIn(AddWord(memory, fixup, factor), at) == WordIn(memory, at)
  {
  }

  lemma RelocatedStep(memory: seq<Byte>, base: nat, fixups: seq<nat>, factor: Word)
    requires InMemory(memory, base, fixups) && fixups != []
    ensures Relocated(memory, base, fixups, factor)
              == Relocated(AddWord(memory, base + fixups[0], factor), base, fixups[1..], factor)
  {
  }

  lemma AddTwice(word: nat, factor: nat, rest: nat)
    ensures ((word + factor) % 0x1_0000 + rest) % 0x1_0000 == (word + (factor + rest)) % 0x1_0000
  {
  }

  /** A byte no fixup covers stays. */
  lemma {:induction false} ByteKept(memory: seq<Byte>, base: nat, fixups: seq<nat>, factor: Word, k: nat)
    requires InMemory(memory, base, fixups) && k < |memory|
    requires forall i :: 0 <= i < |fixups| ==> k != base + fixups[i] && k != base + fixups[i] + 1
    ensures Relocated(memory, base, fixups, factor)[k] == memory[k]
    decreases |fixups|
  {
    if fixups != [] {
      ByteKept(AddWord(memory, base + fixups[0], factor), base, fixups[1..], factor, k);
    }
  }

  // ---- the loaders ----

  /** Memory with the bytes placed at `at`. */
  function Placed(memory: seq<Byte>, at: nat, bytes: seq<Byte>): (r: seq<Byte>)
    requires at + |bytes| <= |memory|
    ensures |r| == |memory|
  {
    memory[..at] + bytes + memory[at + |bytes|..]
  }

  method CopyTo(memory: array<Byte>, at: nat, bytes: seq<Byte>)
    requires at + |bytes| <= memory.Length
    modifies memory
    ensures memory[..] == Placed(old(memory[..]), at, bytes)
  {
    var index := 0;
    while index < |bytes|
      invariant 0 <= index <= |bytes|
      invariant memory[..] == Placed(old(memory[..]), at, bytes[..index])
    {
      memory[at + index] := bytes[index];
      index := index + 1;
    }
    assert bytes[..index] == bytes;
  }

  method Relocate(memory: array<Byte>, file: seq<Byte>, table: nat, count: nat, loadSegment: Word, factor: Word)
    requires table + 4 * count <= |file| && memory.Length >= ADDRESS_SPACE
    modifies memory
    ensures InMemory(old(memory[..]), 16 * loadSegment, FixupsAt(file, table, count))
    ensures memory[..] == Relocated(old(memory[..]), 16 * loadSegment, FixupsAt(file, table, count), factor)
  {
    hide FixupsAt, Relocated, WordIn, AddWord, SameOutside;
    ghost var was := memory[..];
    ghost var base := 16 * loadSegment;
    ghost var fixups := FixupsAt(file, table, count);
    var index := 0;
    while index < count
      invariant 0 <= index <= count
      invariant InMemory(memory[..], base, FixupsAt(file, table + 4 * index, count - index))
      invariant Relocated(memory[..], base, FixupsAt(file, table + 4 * index, count - index), factor)
             == Relocated(was, base, fixups, factor)
    {
      var entry := table + index * 4;
      var fixupOffset, fixupSegment := WordIn(file, entry), WordIn(file, entry + 2);
      var fixup := (loadSegment as int + fixupSegment) * 16 + fixupOffset;
      ghost var before := memory[..];
      var word := ReadWord(memory, fixup);
      WriteWord(memory, fixup, (word as int + factor) % 0x1_0000);
      FixupsStep(file, entry, count - index);
      WroteWord(before, memory[..], fixup, factor);
      RelocatedStep(before, base, FixupsAt(file, entry, count - index), factor);
      index := index + 1;
    }
    NoFixups(memory[..], file, base, table + 4 * count, factor);
  }

  lemma NoFixups(memory: seq<Byte>, file: seq<Byte>, base: nat, at: nat, factor: Word)
    requires at <= |file|
    ensures FixupsAt(file, at, 0) == [] && Relocated(memory, base, [], factor) == memory
  {
  }

  lemma FixupsStep(file: seq<Byte>, at: nat, n: nat)
    requires 0 < n && at + 4 * n <= |file|
    ensures FixupsAt(file, at, n)[0] == 16 * WordIn(file, at + 2) + WordIn(file, at)
    ensures FixupsAt(file, at, n)[1..] == FixupsAt(file, at + 4, n - 1)
  {
  }

  lemma WroteWord(before: seq<Byte>, after: seq<Byte>, at: nat, factor: Word)
    requires at + 1 < |before| && SameOutside(before, after, at, at + 2)
    requires WordIn(after, at) == (WordIn(before, at) + factor) % 0x1_0000
    ensures after == AddWord(before, at, factor)
  {
    var word := (WordIn(before, at) + factor) % 0x1_0000;
    SplitWord(after[at], after[at + 1]);
  }

  lemma SplitWord(low: Byte, high: Byte)
    ensures WordOf(low, high) % 0x100 == low && WordOf(low, high) / 0x100 == high
  {
  }

  function LoadSegment(pspSegment: Word, requestedSegment: Word): Word {
    if requestedSegment != 0 then requestedSegment else ToWord(pspSegment as int + PSP_PARAGRAPHS)
  }

  /** Memory after the load module of an MZ file went to `segment` and its fixups had `factor` added. */
  function MzLoaded(memory: seq<Byte>, file: seq<Byte>, segment: Word, factor: Word): seq<Byte>
    requires IsMz(file) && TableRead(file) && |memory| >= ADDRESS_SPACE && 16 * segment + ImageSize(file) <= |memory|
  {
    Relocated(Placed(memory, 16 * segment, LoadModule(file)), 16 * segment, Fixups(file), factor)
  }

  method DosLoadImageAt(memory: array<Byte>, file: seq<Byte>, pspSegment: Word, requestedSegment: Word)
    returns (image: Image)
    requires memory.Length >= ADDRESS_SPACE
    requires IsMz(file) ==>
               TableRead(file)
               && 16 * LoadSegment(pspSegment, requestedSegment) + ImageSize(file) <= memory.Length
    modifies memory
    ensures image.isExe == IsMz(file)
    ensures IsMz(file) ==>
              var load: Word := if requestedSegment != 0 then requestedSegment
                                else if pspSegment < 0xFFF0 then pspSegment + 0x10 else pspSegment - 0xFFF0;
              && load == LoadSegment(pspSegment, requestedSegment)
              && memory[..] == MzLoaded(old(memory[..]), file, load, load)
              && image == Image(ToWord(load as int + WordIn(file, 22)), WordIn(file, 20),
                                ToWord(load as int + WordIn(file, 14)), WordIn(file, 16), true, ImageSize(file))
    ensures !IsMz(file) ==>
              var size := Min(|file|, 0xFE00);
              && memory[..] == Placed(old(memory[..]), 16 * pspSegment + 0x100, file[..size])
              && image == Image(pspSegment, 0x100, pspSegment, 0xFFFE, false, size)
  {
    if IsMz(file) {
      var loadSegment := LoadSegment(pspSegment, requestedSegment);
      CopyTo(memory, 16 * (loadSegment as int), LoadModule(file));
      Relocate(memory, file, WordIn(file, 24), WordIn(file, 6), loadSegment, loadSegment);
      image := Image(ToWord(loadSegment as int + WordIn(file, 22)), WordIn(file, 20),
                     ToWord(loadSegment as int + WordIn(file, 14)), WordIn(file, 16), true, ImageSize(file));
    } else {
      var comSize: nat := if |file| > COM_MAX_BYTES then COM_MAX_BYTES else |file|;
      CopyTo(memory, 16 * pspSegment + COM_ENTRY, file[..comSize]);
      image := Image(pspSegment, COM_ENTRY, pspSegment, COM_INITIAL_SP, false, comSize);
    }
  }

  /** AH=4Bh AL=03: relocated by the caller's factor, which need not be the segment it is loaded at. */
  method DosLoadOverlay(memory: array<Byte>, file: seq<Byte>, loadSegment: Word, relocationFactor: Word)
    returns (size: nat)
    requires memory.Length >= ADDRESS_SPACE
    requires IsMz(file) ==> TableRead(file)
    requires 16 * loadSegment + (if IsMz(file) then ImageSize(file) else |file|) <= memory.Length
    modifies memory
    ensures IsMz(file) ==>
              size == ImageSize(file)
              && memory[..] == MzLoaded(old(memory[..]), file, loadSegment, relocationFactor)
    ensures !IsMz(file) ==> size == |file| && memory[..] == Placed(old(memory[..]), 16 * loadSegment, file)
  {
    if !IsMz(file) {
      CopyTo(memory, 16 * loadSegment, file);
      return |file|;
    }
    CopyTo(memory, 16 * loadSegment, LoadModule(file));
    Relocate(memory, file, WordIn(file, 24), WordIn(file, 6), loadSegment, relocationFactor);
    size := ImageSize(file);
  }

  // ---- what a loaded image is ----

  /** Every fixup names a word of the image, and no two share just one byte. */
  predicate SoundFixups(file: seq<Byte>)
    requires IsMz(file) && TableRead(file)
  {
    forall i :: 0 <= i < |Fixups(file)| ==>
        Fixups(file)[i] + 2 <= ImageSize(file) && Apart(Fixups(file), Fixups(file)[i])
  }

  /** Byte k of the image is none of a fixup's. */
  predicate Plain(file: seq<Byte>, k: nat)
    requires IsMz(file) && TableRead(file)
  {
    forall i :: 0 <= i < |Fixups(file)| ==> k != Fixups(file)[i] && k != Fixups(file)[i] + 1
  }

  /** The image as it lies in memory. */
  function ImageIn(memory: seq<Byte>, segment: Word, size: nat): (r: seq<Byte>)
    requires 16 * segment + size <= |memory|
    ensures |r| == size
  {
    memory[16 * segment..16 * segment + size]
  }

  lemma WordInImage(memory: seq<Byte>, segment: Word, size: nat, at: nat)
    requires 16 * segment + size <= |memory| && at + 2 <= size
    ensures WordIn(ImageIn(memory, segment, size), at) == WordIn(memory, 16 * segment + at)
  {
  }

  /**
   * Plain bytes are the file's, and a word a fixup names has the factor
   * added once for every entry naming it, modulo 65536.
   */
  ghost predicate IsRelocation(image: seq<Byte>, file: seq<Byte>, factor: Word)
    requires IsMz(file) && TableRead(file) && SoundFixups(file) && |image| == ImageSize(file)
  {
    && (forall k {:trigger Plain(file, k)} :: 0 <= k < |image| && Plain(file, k) ==> image[k] == LoadModule(file)[k])
    && (forall i :: 0 <= i < |Fixups(file)| ==>
          var at := Fixups(file)[i];
          WordIn(image, at) == Added(WordIn(LoadModule(file), at), Count(Fixups(file), at), factor))
  }

  /** A loaded image is the file's, relocated by the factor, and outside it nothing of memory changed. */
  lemma ImageIsRelocatedFile(memory: seq<Byte>, file: seq<Byte>, segment: Word, factor: Word)
    requires IsMz(file) && TableRead(file) && |memory| >= ADDRESS_SPACE && 16 * segment + ImageSize(file) <= |memory|
    requires SoundFixups(file)
    ensures var after, base, size := MzLoaded(memory, file, segment, factor), 16 * segment, ImageSize(file);
            && |after| == |memory|
            && (forall k :: 0 <= k < |memory| && !(base <= k < base + size) ==> after[k] == memory[k])
            && IsRelocation(ImageIn(after, segment, size), file, factor)
  {
    OutsideKept(memory, file, segment, factor);
    PlainKept(memory, file, segment, factor);
    FixupsAdded(memory, file, segment, factor);
    hide MzLoaded, Fixups, Count, ImageSize, LoadModule, TableRead, Plain, Added;
  }

  lemma OutsideKept(memory: seq<Byte>, file: seq<Byte>, segment: Word, factor: Word)
    requires IsMz(file) && TableRead(file) && |memory| >= ADDRESS_SPACE && 16 * segment + ImageSize(file) <= |memory|
    requires SoundFixups(file)
    ensures var after, base := MzLoaded(memory, file, segment, factor), 16 * segment;
            && |after| == |memory|
            && forall k :: 0 <= k < |memory| && !(base <= k < base + ImageSize(file)) ==> after[k] == memory[k]
  {
    hide Fixups, Relocated, ImageSize, LoadModule, TableRead, Apart;
    var base := 16 * segment;
    FixupsBounded(file);
    forall k | 0 <= k < |memory| && !(base <= k < base + ImageSize(file))
      ensures MzLoaded(memory, file, segment, factor)[k] == memory[k]
    {
      ByteKept(Placed(memory, base, LoadModule(file)), base, Fixups(file), factor, k);
    }
  }

  lemma PlainKept(memory: seq<Byte>, file: seq<Byte>, segment: Word, factor: Word)
    requires IsMz(file) && TableRead(file) && |memory| >= ADDRESS_SPACE && 16 * segment + ImageSize(file) <= |memory|
    ensures var after, base := MzLoaded(memory, file, segment, factor), 16 * segment;
            && |after| == |memory|
            && forall k {:trigger Plain(file, k)} :: 0 <= k < ImageSize(file) && Plain(file, k) ==>
                 ImageIn(after, segment, ImageSize(file))[k] == LoadModule(file)[k]
  {
    hide Fixups, Relocated, ImageSize, LoadModule, TableRead, WordIn, HeaderSize, TotalUsed;
    var base := 16 * segment;
    FixupsBounded(file);
    forall k | 0 <= k < ImageSize(file) && Plain(file, k)
      ensures MzLoaded(memory, file, segment, factor)[base + k] == LoadModule(file)[k]
    {
      ByteKept(Placed(memory, base, LoadModule(file)), base, Fixups(file), factor, base + k);
    }
  }

  lemma FixupsAdded(memory: seq<Byte>, file: seq<Byte>, segment: Word, factor: Word)
    requires IsMz(file) && TableRead(file) && |memory| >= ADDRESS_SPACE && 16 * segment + ImageSize(file) <= |memory|
    requires SoundFixups(file)
    ensures var after := MzLoaded(memory, file, segment, factor);
            && |after| == |memory|
            && forall i :: 0 <= i < |Fixups(file)| ==>
                 var at := Fixups(file)[i];
                 WordIn(ImageIn(after, segment, ImageSize(file)), at)
                     == Added(WordIn(LoadModule(file), at), Count(Fixups(file), at), factor)
  {
    hide Fixups, Relocated, Count, ImageSize, LoadModule, TableRead, Added, Apart;
    FixupsBounded(file);
    forall i | 0 <= i < |Fixups(file)|
      ensures var at := Fixups(file)[i];
              WordIn(ImageIn(MzLoaded(memory, file, segment, factor), segment, ImageSize(file)), at)
              == Added(WordIn(LoadModule(file), at), Count(Fixups(file), at), factor)
    {
      FixupAdded(memory, file, segment, factor, i);
    }
  }

  lemma FixupAdded(memory: seq<Byte>, file: seq<Byte>, segment: Word, factor: Word, i: nat)
    requires IsMz(file) && TableRead(file) && |memory| >= ADDRESS_SPACE && 16 * segment + ImageSize(file) <= |memory|
    requires SoundFixups(file) && i < |Fixups(file)|
    ensures var after, at := MzLoaded(memory, file, segment, factor), Fixups(file)[i];
            && |after| == |memory| && at + 2 <= ImageSize(file)
            && WordIn(ImageIn(after, segment, ImageSize(file)), at)
                 == Added(WordIn(LoadModule(file), at), Count(Fixups(file), at), factor)
  {
    hide Fixups, Relocated, Count, ImageSize, LoadModule, TableRead, Added, Apart;
    var base, at := 16 * segment, Fixups(file)[i];
    FixupsBounded(file);
    WordRelocated(Placed(memory, base, LoadModule(file)), base, Fixups(file), factor, at);
    WordInImage(MzLoaded(memory, file, segment, factor), segment, ImageSize(file), at);
  }

  lemma FixupsBounded(file: seq<Byte>)
    requires IsMz(file) && TableRead(file)
    ensures forall i :: 0 <= i < |Fixups(file)| ==> Fixups(file)[i] <= 0x10_FFEF
  {
  }

  /**
   * The same file loaded at two segments differs only in the words its
   * fixups name, and there by the segments' difference.
   */
  lemma LoadsDifferAtFixups(a: seq<Byte>, b: seq<Byte>, file: seq<Byte>, s: Word, t: Word)
    requires IsMz(file) && TableRead(file) && SoundFixups(file) && |a| == |b| == ImageSize(file)
    requires IsRelocation(a, file, s) && IsRelocation(b, file, t)
    ensures forall k {:trigger Plain(file, k)} :: 0 <= k < |a| && Plain(file, k) ==> a[k] == b[k]
    ensures forall i :: 0 <= i < |Fixups(file)| ==>
              var at := Fixups(file)[i];
              Added(WordIn(a, at), Count(Fixups(file), at), t) == Added(WordIn(b, at), Count(Fixups(file), at), s)
  {
    hide Fixups, Count, ImageSize, LoadModule, TableRead, WordIn, Added;
    forall i | 0 <= i < |Fixups(file)|
      ensures var at := Fixups(file)[i];
              Added(WordIn(a, at), Count(Fixups(file), at), t) == Added(WordIn(b, at), Count(Fixups(file), at), s)
    {
      var at := Fixups(file)[i];
      var c := Count(Fixups(file), at);
      CrossAdd(WordIn(LoadModule(file), at), c, s, t);
    }
  }

  lemma CrossAdd(word: Word, count: nat, s: Word, t: Word)
    ensures Added(Added(word, count, s), count, t) == Added(Added(word, count, t), count, s)
  {
    SumsAgree(word, count * s, count * t);
  }

  lemma SumsAgree(word: nat, a: nat, b: nat)
    ensures ((word + a) % 0x1_0000 + b) % 0x1_0000 == ((word + b) % 0x1_0000 + a) % 0x1_0000
  {
  }

  // ---- how much memory EXEC gives ----

  /** The image in paragraphs as DOS counts it: whole pages, in a WORD. */
  function DosImageParagraphs(file: seq<Byte>): Word {
    if !IsMz(file) then 0
    else
      var pages, header := WordIn(file, 4) * 32, WordIn(file, 8);
      if pages > header then (pages - header) % 0x1_0000 else 0
  }

  datatype Sized = Refused | Given(allocation: Word, loadHigh: bool)

  function DosExecSize(file: seq<Byte>, largest: Word): Sized {
    if !IsMz(file) then Given(largest, false)
    else
      var paragraphs, minimum, maximum := DosImageParagraphs(file), WordIn(file, 10), WordIn(file, 12);
      var needed := PSP_PARAGRAPHS + paragraphs + minimum;
      if needed > largest then Refused
      else if minimum == 0 && maximum == 0 then Given(largest, true)
      else
        var wanted := Max(needed, PSP_PARAGRAPHS + paragraphs + maximum);
        Given((if wanted < largest then wanted else largest) % 0x1_0000, false)
  }

  /**
   * A header whose page count is not zero, whose image is under 64K paragraphs, and whose last page is no longer
   * than a page, unless the bytes it counts end in the header.
   */
  predicate WellFormed(file: seq<Byte>)
    requires IsMz(file)
  {
    var pages, last, header := WordIn(file, 4), WordIn(file, 2), WordIn(file, 8);
    pages > 0 && pages * 32 - header < 0x1_0000
        && (last <= PAGE_BYTES || (pages - 1) * PAGE_BYTES + last <= 16 * header)
  }

  /** The paragraphs reserved cover the bytes loaded. */
  lemma ParagraphsCoverImage(file: seq<Byte>)
    requires IsMz(file) && WellFormed(file)
    ensures ImageSize(file) <= 16 * DosImageParagraphs(file)
  {
    hide WordIn;
    PagesCover(WordIn(file, 4), WordIn(file, 2), WordIn(file, 8));
  }

  lemma PagesCover(pages: Word, last: Word, header: Word)
    requires 0 < pages && pages * 32 - header < 0x1_0000
    ensures last <= 512 ==> (pages - 1) * 512 + (if last == 0 then 512 else last) <= 16 * (pages * 32)
    ensures pages * 32 > header ==> (pages * 32 - header) % 0x1_0000 == pages * 32 - header
  {
  }

  /** A file with the same header, however much follows it. */
  predicate SameHeader(file: seq<Byte>, other: seq<Byte>)
    requires IsMz(file)
  {
    |other| >= HEADER_MIN && other[..HEADER_MIN] == file[..HEADER_MIN]
  }

  lemma SameHeaderReads(file: seq<Byte>, other: seq<Byte>)
    requires IsMz(file) && SameHeader(file, other)
    ensures IsMz(other) && WordIn(other, 2) == WordIn(file, 2) && WordIn(other, 4) == WordIn(file, 4)
    ensures WordIn(other, 8) == WordIn(file, 8)
  {
    assert forall k :: 0 <= k < HEADER_MIN ==> other[k] == other[..HEADER_MIN][k] == file[k];
  }

  /**
   * A header promises room for every file it can stand in front of exactly when it is well formed: each of its
   * three conditions is needed.
   */
  lemma HeaderCoversIff(file: seq<Byte>)
    requires IsMz(file)
    ensures (forall other ::
             SameHeader(file, other) ==> IsMz(other) && ImageSize(other) <= 16 * DosImageParagraphs(other))
       <==> WellFormed(file)
  {
    hide WordIn, ImageSize, DosImageParagraphs;
    if WellFormed(file) {
      forall other | SameHeader(file, other)
        ensures IsMz(other) && ImageSize(other) <= 16 * DosImageParagraphs(other)
      {
        SameHeaderReads(file, other);
        ParagraphsCoverImage(other);
      }
    } else {
      var other := file[..HEADER_MIN] + seq(0x220_0000, _ => 0);
      assert other[..HEADER_MIN] == file[..HEADER_MIN];
      SameHeaderReads(file, other);
      LongFileOverflows(other);
    }
  }

  lemma LongFileOverflows(file: seq<Byte>)
    requires IsMz(file) && !WellFormed(file) && |file| >= 0x220_0000
    ensures ImageSize(file) > 16 * DosImageParagraphs(file)
  {
    hide WordIn;
    Overflows(WordIn(file, 4), WordIn(file, 2), WordIn(file, 8));
  }

  lemma Overflows(pages: Word, last: Word, header: Word)
    ensures var total := (pages - 1) * 512 + if last == 0 then 512 else last;
            && (pages > 0 && pages * 32 - header >= 0x1_0000 ==>
                  total - 16 * header > 16 * ((pages * 32 - header) % 0x1_0000))
            && (pages > 0 && pages * 32 - header < 0x1_0000 && last > 512 && total > 16 * header ==>
                  total - 16 * header > 16 * (if pages * 32 > header then (pages * 32 - header) % 0x1_0000 else 0))
            && total < 0x220_0000 - 16 * 0x1_0000
  {
  }

  /** The first of them: with a page count of 0 no paragraph is counted, and the whole of the file is loaded. */
  lemma NoPagesLoadsAll(file: seq<Byte>)
    requires IsMz(file) && WordIn(file, 4) == 0
    ensures DosImageParagraphs(file) == 0
    ensures ImageSize(file) == if |file| > HeaderSize(file) then |file| - HeaderSize(file) else 0
  {
  }

  /**
   * A block EXEC gets is no larger than the largest, and holds the PSP, the
   * image and the minimum; it gets one exactly when those fit.
   */
  lemma BlockHoldsProgram(file: seq<Byte>, largest: Word)
    requires IsMz(file) && WellFormed(file)
    ensures DosExecSize(file, largest).Given?
       <==> PSP_PARAGRAPHS + DosImageParagraphs(file) + WordIn(file, 10) <= largest
    ensures DosExecSize(file, largest).Given? ==>
              var given := DosExecSize(file, largest).allocation;
              && given <= largest
              && 256 + ImageSize(file) + 16 * WordIn(file, 10) <= 16 * given
              && (DosExecSize(file, largest).loadHigh ==> given == largest)
              && (!DosExecSize(file, largest).loadHigh && given < largest ==>
                    given == PSP_PARAGRAPHS + DosImageParagraphs(file) + Max(WordIn(file, 10), WordIn(file, 12)))
  {
    hide DosImageParagraphs, ImageSize, WordIn;
    ParagraphsCoverImage(file);
  }
}
