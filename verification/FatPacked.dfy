/**
 * An image written by the format's rules and read back: files whose clusters lie anywhere, and directories, root and
 * sub-, packed entry by entry. The layout is spelled out here in numbers, apart from the reader's own functions.
 */
module FatPacked {
  import opened Machine
  import opened FatLayout
  import opened FatTable
  import opened FatFile
  import opened FatPath
  import opened FatDirectory

  // ---- clusters anywhere ----

  /** The image's first FAT has these entries, packed two bytes or twelve bits each. */
  ghost predicate HasFat(image: Image, entries: seq<nat>) {
    && (forall i :: 0 <= i < |entries| ==> entries[i] < if image.isFat16 then 0x1_0000 else 0x1000)
    && var fat := if image.isFat16 then Pack16(entries) else Pack12(entries);
       image.fatOffset + |fat| <= |image.data| && image.data[image.fatOffset..image.fatOffset + |fat|] == fat
  }

  /** Each cluster of `cs` is a data cluster inside the image, and its entry is the next one's number. */
  ghost predicate Linked(image: Image, entries: seq<nat>, cs: seq<nat>) {
    && (forall i :: 0 <= i < |cs| ==>
          && 2 <= cs[i] < |entries| && cs[i] < image.clusterCount + 2
          && image.dataOffset + (cs[i] - 2) * image.clusterSize + image.clusterSize <= |image.data|)
    && (forall i :: 0 <= i < |cs| - 1 ==> entries[cs[i]] == cs[i + 1])
  }

  /** A file's clusters: linked, distinct, and the last one's entry is an end mark. */
  ghost predicate FileClusters(image: Image, entries: seq<nat>, cs: seq<nat>) {
    && HasFat(image, entries) && cs != [] && Linked(image, entries, cs)
    && (forall i, j :: 0 <= i < j < |cs| ==> cs[i] != cs[j])
    && entries[cs[|cs| - 1]] >= if image.isFat16 then 0xFFF8 else 0xFF8
  }

  /** The bytes of the clusters, one after the other. */
  function Joined(image: Image, cs: seq<nat>): seq<Byte>
    requires forall i :: 0 <= i < |cs| ==>
               && 2 <= cs[i]
               && 0 <= image.dataOffset + (cs[i] - 2) * image.clusterSize
                    <= image.dataOffset + (cs[i] - 2) * image.clusterSize + image.clusterSize <= |image.data|
  {
    if cs == [] then []
    else
      var at := image.dataOffset + (cs[0] - 2) * image.clusterSize;
      image.data[at..at + image.clusterSize] + Joined(image, cs[1..])
  }

  lemma AtLeastZero(c: nat, clusterSize: nat)
    requires c >= 2
    ensures (c - 2) * clusterSize >= 0
  {
  }

  lemma InPlace(image: Image, entries: seq<nat>, cs: seq<nat>)
    requires Linked(image, entries, cs)
    ensures forall i :: 0 <= i < |cs| ==>
              && 2 <= cs[i]
              && 0 <= image.dataOffset + (cs[i] - 2) * image.clusterSize
                   <= image.dataOffset + (cs[i] - 2) * image.clusterSize + image.clusterSize <= |image.data|
  {
    forall i | 0 <= i < |cs|
      ensures image.dataOffset + (cs[i] - 2) * image.clusterSize >= 0
    {
      AtLeastZero(cs[i], image.clusterSize);
    }
  }

  lemma ClusterHere(image: Image, entries: seq<nat>, cs: seq<nat>)
    requires WellLaid(image) && HasFat(image, entries) && cs != [] && Linked(image, entries, cs)
    ensures IsDataCluster(image, cs[0]) && ClusterInside(image, cs[0]) && Next(image, cs[0]) == entries[cs[0]]
    ensures ClusterOffset(image, cs[0]) == image.dataOffset + (cs[0] - 2) * image.clusterSize
  {
    hide Pack12, Pack16;
    SpanIsProduct(cs[0] - 2, image.clusterSize);
    NextClusterReadsPacked(image, entries, cs[0]);
  }

  /** Following the FAT from the first cluster passes through exactly these clusters, and ends at the end mark. */
  lemma {:induction false} ChainIsLinked(image: Image, entries: seq<nat>, cs: seq<nat>)
    requires WellLaid(image) && HasFat(image, entries) && cs != [] && Linked(image, entries, cs)
    ensures IsChain(image, cs[0], |cs|) && Clusters(image, cs[0], |cs|) == cs
    ensures (InPlace(image, entries, cs); Concat(image, cs[0], |cs|) == Joined(image, cs))
    ensures ChainEnd(image, cs[0], |cs|) == entries[cs[|cs| - 1]]
    decreases |cs|
  {
    hide WellLaid, HasFat, Next, ClusterOffset, ClusterInside, ClusterBytes, IsDataCluster, IsChain, Clusters, Concat,
        ChainEnd;
    ClusterHere(image, entries, cs);
    InPlace(image, entries, cs);
    var rest := cs[1..];
    assert cs == [cs[0]] + rest;
    BytesHere(image, cs[0]);
    NoChain(image, Next(image, cs[0]));
    if rest == [] {
      assert Joined(image, rest) == [];
    } else {
      assert Linked(image, entries, rest);
      ChainIsLinked(image, entries, rest);
    }
    ChainStep(image, cs[0], |rest|);
  }

  lemma BytesHere(image: Image, cluster: nat)
    requires WellLaid(image) && ClusterInside(image, cluster)
    requires ClusterOffset(image, cluster) == image.dataOffset + (cluster - 2) * image.clusterSize
    ensures var at := image.dataOffset + (cluster - 2) * image.clusterSize;
            && 0 <= at <= at + image.clusterSize <= |image.data|
            && ClusterBytes(image, cluster) == image.data[at..at + image.clusterSize]
  {
  }

  lemma NoChain(image: Image, cluster: nat)
    requires WellLaid(image)
    ensures IsChain(image, cluster, 0) && Clusters(image, cluster, 0) == [] && Concat(image, cluster, 0) == []
    ensures ChainEnd(image, cluster, 0) == cluster
  {
  }

  lemma ChainStep(image: Image, cluster: nat, n: nat)
    requires WellLaid(image) && ClusterInside(image, cluster) && IsChain(image, Next(image, cluster), n)
    ensures IsChain(image, cluster, n + 1)
    ensures Clusters(image, cluster, n + 1) == [cluster] + Clusters(image, Next(image, cluster), n)
    ensures Concat(image, cluster, n + 1) == ClusterBytes(image, cluster) + Concat(image, Next(image, cluster), n)
    ensures ChainEnd(image, cluster, n + 1) == ChainEnd(image, Next(image, cluster), n)
  {
  }

  /** Past its last cluster a chain has no byte. */
  lemma {:induction false} NoByteBeyond(image: Image, cluster: nat, steps: nat, n: nat, pos: nat)
    requires WellLaid(image) && IsChain(image, cluster, n) && !IsDataCluster(image, ChainEnd(image, cluster, n))
    requires pos >= |Concat(image, cluster, n)|
    ensures ByteAt(image, cluster, steps, pos) == None
    decreases n
  {
    if n > 0 && steps <= image.clusterCount {
      NoByteBeyond(image, Next(image, cluster), steps + 1, n - 1, pos - image.clusterSize);
    }
  }

  lemma EndMark(image: Image, entry: nat)
    requires WellLaid(image) && entry >= if image.isFat16 then 0xFFF8 else 0xFF8
    ensures !IsDataCluster(image, entry)
  {
  }

  /**
   * A read of a file whose clusters lie anywhere: the bytes offset .. offset + count of its clusters put together, as
   * far as the size in its entry and its clusters go.
   */
  lemma PackedFileReads(image: Image, entries: seq<nat>, cs: seq<nat>, size: nat, offset: nat, count: nat,
                        got: seq<Byte>)
    requires WellLaid(image) && FileClusters(image, entries, cs)
    requires IsRead(image, cs[0], size, offset, count, got)
    ensures (InPlace(image, entries, cs);
             var file := Joined(image, cs);
             var end := Min(offset + count, Min(size, |file|));
             got == if offset < end then file[offset..end] else [])
  {
    ChainIsLinked(image, entries, cs);
    InPlace(image, entries, cs);
    EndMark(image, entries[cs[|cs| - 1]]);
    ChainWithinCap(image, cs[0], |cs|);
    hide WellLaid, HasFat, Linked, IsChain, Clusters, ByteAt, IsDataCluster;
    var file := Joined(image, cs);
    forall pos: nat
      ensures ByteAt(image, cs[0], 0, pos) == if pos < |file| then Some(file[pos]) else None
    {
      if pos < |file| {
        ByteInChain(image, cs[0], 0, |cs|, pos);
      } else {
        NoByteBeyond(image, cs[0], 0, |cs|, pos);
      }
    }
    ReadIsStretch(image, cs[0], file, size, offset, count, got);
  }

  /** When the chain has exactly the bytes of `file`, a read brings the stretch asked for. */
  lemma ReadIsStretch(image: Image, first: nat, file: seq<Byte>, size: nat, offset: nat, count: nat, got: seq<Byte>)
    requires WellLaid(image) && IsRead(image, first, size, offset, count, got)
    requires forall pos: nat :: ByteAt(image, first, 0, pos) == if pos < |file| then Some(file[pos]) else None
    ensures var end := Min(offset + count, Min(size, |file|));
            got == if offset < end then file[offset..end] else []
  {
    hide WellLaid, ByteAt;
    if got != [] {
      var last: nat := offset + (|got| - 1);
      assert ByteAt(image, first, 0, offset + (|got| - 1)) == Some(got[|got| - 1]);
      assert last < |file|;
    }
    forall j | 0 <= j < |got|
      ensures offset + j < |file| && got[j] == file[offset + j]
    {
      assert ByteAt(image, first, 0, offset + j) == Some(got[j]);
    }
  }

  /** And the extractor writes the whole of it when its clusters have room for its size. */
  lemma PackedFileIsGood(image: Image, entries: seq<nat>, cs: seq<nat>, size: nat)
    requires WellLaid(image) && FileClusters(image, entries, cs)
    requires (InPlace(image, entries, cs); size <= |Joined(image, cs)|)
    ensures GoodFile(image, cs[0], size, |cs|)
    ensures (InPlace(image, entries, cs); Contents(image, cs[0], size, |cs|) == Joined(image, cs)[..size])
  {
    hide WellLaid, HasFat, Linked, IsChain, Clusters, Concat;
    ChainIsLinked(image, entries, cs);
    InPlace(image, entries, cs);
  }

  // ---- directory entries ----

  datatype Flags =
    Flags(isReadOnly: bool, isHidden: bool, isSystem: bool, isLabel: bool, isDirectory: bool, isArchive: bool)

  function Bit(on: bool, value: nat): nat {
    if on then value else 0
  }

  function PackFlags(f: Flags): Byte {
    Bit(f.isReadOnly, 1) + Bit(f.isHidden, 2) + Bit(f.isSystem, 4) + Bit(f.isLabel, 8) + Bit(f.isDirectory, 0x10)
      + Bit(f.isArchive, 0x20)
  }

  /** One slot of a directory; a deleted one has lost the first byte of its name. */
  datatype Slot = Slot(isDeleted: bool, base: seq<Byte>, ext: seq<Byte>, flags: Flags, unused: seq<Byte>,
                       time: Word, date: Word, firstCluster: Word, size: Dword)

  /** Names as they are stored: no NUL, no byte 05h first, which stands for E5h, and no space last. */
  predicate SlotOk(slot: Slot) {
    && 1 <= |slot.base| <= 8 && |slot.ext| <= 3 && |slot.unused| == 10
    && slot.base[|slot.base| - 1] != 0x20 && (slot.ext != [] ==> slot.ext[|slot.ext| - 1] != 0x20)
    && slot.base[0] != 0 && slot.base[0] != 0x05
  }

  function PackWord(w: Word): (r: seq<Byte>)
    ensures |r| == 2
  {
    [w % 0x100, w / 0x100]
  }

  function PackDword(d: Dword): (r: seq<Byte>)
    ensures |r| == 4
  {
    [d % 0x100, d / 0x100 % 0x100, d / 0x1_0000 % 0x100, d / 0x100_0000]
  }

  /** Name 11, attributes 1, ten unused, then time, date, first cluster and size, low byte first. */
  function PackSlot(slot: Slot): (r: Raw)
    requires SlotOk(slot)
  {
    var name := PackName(slot.base, slot.ext);
    (if slot.isDeleted then [0xE5] + name[1..] else name) + [PackFlags(slot.flags)] + slot.unused
      + PackWord(slot.time) + PackWord(slot.date) + PackWord(slot.firstCluster) + PackDword(slot.size)
  }

  /** The name a slot shows. */
  function NameOf(slot: Slot): seq<Byte> {
    slot.base + if slot.ext == [] then [] else ['.' as int] + slot.ext
  }

  /** The fields a slot stores. */
  function FileOf(slot: Slot): Entry
    requires SlotOk(slot)
  {
    Entry(NameOf(slot), PackName(slot.base, slot.ext), PackFlags(slot.flags),
          slot.time, slot.date, slot.firstCluster, slot.size)
  }

  /** Neither deleted, nor a label (or a piece of a long name, which looks like one), nor "." or "..". */
  predicate IsShown(slot: Slot)
    requires SlotOk(slot)
  {
    !slot.isDeleted && !slot.flags.isLabel && slot.base[0] != '.' as int
  }

  lemma NameBytes(slot: Slot)
    requires SlotOk(slot)
    ensures var raw := PackSlot(slot);
            && raw[0] != 0
            && (raw[0] == 0xE5 <==> slot.isDeleted)
            && (!slot.isDeleted ==> raw[..11] == PackName(slot.base, slot.ext))
            && (!slot.isDeleted ==> (raw[0] == 0x2E <==> slot.base[0] == 0x2E))
            && (!slot.isDeleted ==> EntryName(raw) == NameOf(slot))
  {
    hide EntryName, PackFlags, PackWord, PackDword;
    var name := PackName(slot.base, slot.ext);
    assert name[..8] == Padded(ToKanji(slot.base), 8);
    assert name[0] == name[..8][0] == ToKanji(slot.base)[0];
    if !slot.isDeleted {
      assert PackSlot(slot)[..11] == name;
      NameReadsBack(slot.base, slot.ext, PackSlot(slot));
    }
  }

  lemma FlagBits(f: Flags)
    ensures var a := PackFlags(f);
            && (a / 8 % 2 == 1 <==> f.isLabel) && (a / 16 % 2 == 1 <==> f.isDirectory)
            && (a % 16 == 15 ==> f.isLabel)
  {
  }

  lemma FieldBytes(slot: Slot)
    requires SlotOk(slot)
    ensures var raw := PackSlot(slot);
            && raw[11] == PackFlags(slot.flags)
            && WordIn(raw, 22) == slot.time && WordIn(raw, 24) == slot.date && WordIn(raw, 26) == slot.firstCluster
            && DwordIn(raw, 28) == slot.size
  {
    hide PackName, PackFlags, PackWord, PackDword;
    var raw := PackSlot(slot);
    assert raw[22..24] == PackWord(slot.time) && raw[24..26] == PackWord(slot.date);
    assert raw[26..28] == PackWord(slot.firstCluster) && raw[28..32] == PackDword(slot.size);
    WordReads(raw, 22, slot.time);
    WordReads(raw, 24, slot.date);
    WordReads(raw, 26, slot.firstCluster);
    DwordReads(raw, 28, slot.size);
  }

  lemma WordReads(data: seq<Byte>, at: nat, w: Word)
    requires at + 2 <= |data| && data[at..at + 2] == PackWord(w)
    ensures WordIn(data, at) == w
  {
    assert data[at] == data[at..at + 2][0] && data[at + 1] == data[at..at + 2][1];
  }

  lemma DwordReads(data: seq<Byte>, at: nat, d: Dword)
    requires at + 4 <= |data| && data[at..at + 4] == PackDword(d)
    ensures DwordIn(data, at) == d
  {
    DwordParts(d);
    hide *;
    var p := PackDword(d);
    assert data[at] == data[at..at + 4][0] && data[at + 1] == data[at..at + 4][1];
    assert data[at + 2] == data[at..at + 4][2] && data[at + 3] == data[at..at + 4][3];
    DwordOf(data, at, p);
  }

  lemma DwordOf(data: seq<Byte>, at: nat, p: seq<Byte>)
    requires at + 4 <= |data| && |p| == 4
    requires data[at] == p[0] && data[at + 1] == p[1] && data[at + 2] == p[2] && data[at + 3] == p[3]
    ensures DwordIn(data, at) == p[0] as int + 0x100 * p[1] as int + 0x1_0000 * p[2] as int + 0x100_0000 * p[3] as int
  {
  }

  lemma DwordParts(d: Dword)
    ensures var p := PackDword(d);
            p[0] as int + 0x100 * p[1] as int + 0x1_0000 * p[2] as int + 0x100_0000 * p[3] as int == d
  {
    var q := d / 0x100;
    assert d == 0x100 * q + d % 0x100;
    var r := q / 0x100;
    assert q == 0x100 * r + q % 0x100 && r == d / 0x1_0000;
    assert r == 0x100 * (r / 0x100) + r % 0x100 && r / 0x100 == d / 0x100_0000;
  }

  /** What a slot packed into 32 bytes is read as: field by field what was stored, and a file exactly when it is shown. */
  lemma SlotReadsBack(slot: Slot)
    requires SlotOk(slot)
    ensures var raw := PackSlot(slot);
            && raw[0] != 0
            && (Skipped(raw) <==> !IsShown(slot))
            && (!slot.isDeleted ==> EntryRead(raw) == FileOf(slot))
            && (IsDirectory(EntryRead(raw)) <==> slot.flags.isDirectory)
  {
    hide PackSlot, PackName, PackFlags, EntryName, WordIn, DwordIn, NameOf;
    NameBytes(slot);
    FieldBytes(slot);
    FlagBits(slot.flags);
  }

  // ---- directories ----

  function PackSlots(slots: seq<Slot>): (r: seq<Byte>)
    requires forall i :: 0 <= i < |slots| ==> SlotOk(slots[i])
    ensures |r| == 32 * |slots|
  {
    if slots == [] then [] else PackSlot(slots[0]) + PackSlots(slots[1..])
  }

  /** The files a directory of these slots shows. */
  function Shown(slots: seq<Slot>): seq<Entry>
    requires forall i :: 0 <= i < |slots| ==> SlotOk(slots[i])
  {
    if slots == [] then []
    else
      var slot := slots[0];
      (if IsShown(slot) then [FileOf(slot)] else []) + Shown(slots[1..])
  }

  /** The bytes are those of the slots, and then the end mark, or nothing. */
  ghost predicate HoldsSlots(bytes: seq<Byte>, slots: seq<Slot>) {
    && (forall i :: 0 <= i < |slots| ==> SlotOk(slots[i]))
    && PackSlots(slots) <= bytes
    && (32 * |slots| < |bytes| ==> bytes[32 * |slots|] == 0)
  }

  lemma {:induction false} ListedIsShown(raws: seq<Raw>, slots: seq<Slot>)
    requires HoldsSlots(Flat(raws), slots)
    ensures Listed(raws) == Shown(slots)
    decreases |raws|
  {
    hide PackSlot, Skipped, EntryRead, IsShown;
    if slots == [] {
      if raws != [] {
        assert Flat(raws)[0] == raws[0][0];
      }
    } else {
      var slot, rest := slots[0], slots[1..];
      assert PackSlots(slots)[..32] == PackSlot(slot);
      assert raws != [];
      assert Flat(raws)[..32] == raws[0] == PackSlot(slot);
      assert Flat(raws[1..]) == Flat(raws)[32..];
      assert PackSlots(rest) == PackSlots(slots)[32..] <= Flat(raws)[32..];
      assert forall i :: 0 <= i < |rest| ==> SlotOk(rest[i]);
      ListedIsShown(raws[1..], rest);
      SlotReadsBack(slot);
      ShownSlot(slot);
    }
  }

  lemma ShownSlot(slot: Slot)
    requires SlotOk(slot)
    ensures IsShown(slot) ==> !slot.isDeleted
  {
  }

  /** The root directory, read from where the boot sector's counts put it, lists the files stored in it. */
  lemma RootListsStored(image: Image, slots: seq<Slot>)
    requires WellLaid(image)
    requires HoldsSlots(image.data[image.rootOffset..image.rootOffset + 32 * image.rootEntries], slots)
    ensures Listed(Entries(image, 0)) == Shown(slots)
  {
    hide HoldsSlots, Listed, Shown, EntriesAt, Flat;
    FlatEntries(image.data, image.rootOffset, image.rootEntries);
    ListedIsShown(Entries(image, 0), slots);
  }

  /** A directory in clusters anywhere lists the files stored in them. */
  lemma DirectoryListsStored(image: Image, entries: seq<nat>, cs: seq<nat>, slots: seq<Slot>)
    requires WellLaid(image) && FileClusters(image, entries, cs)
    requires (InPlace(image, entries, cs); HoldsSlots(Joined(image, cs), slots))
    ensures Listed(Entries(image, cs[0])) == Shown(slots)
  {
    ChainIsLinked(image, entries, cs);
    EndMark(image, entries[cs[|cs| - 1]]);
    InPlace(image, entries, cs);
    hide WellLaid, HoldsSlots, Listed, Shown, HasFat, Linked, IsChain, Clusters, Concat, Joined, Flat, Entries, ChainEnd;
    DirectoryIsWhole(image, cs[0], |cs|);
    ListedIsShown(Entries(image, cs[0]), slots);
  }

  // ---- looking stored files up ----

  /** Slot k is shown, and of the files shown it is the first with its name. */
  ghost predicate IsFirstNamed(slots: seq<Slot>, k: nat, part: seq<Byte>)
    requires forall i :: 0 <= i < |slots| ==> SlotOk(slots[i])
  {
    && k < |slots| && IsShown(slots[k]) && NameMatches(part, NameOf(slots[k]))
    && forall j :: 0 <= j < k && IsShown(slots[j]) ==> !NameMatches(part, NameOf(slots[j]))
  }

  lemma {:induction false} FirstNamedIsFound(slots: seq<Slot>, k: nat, part: seq<Byte>)
    requires (forall i :: 0 <= i < |slots| ==> SlotOk(slots[i])) && IsFirstNamed(slots, k, part)
    ensures FirstMatch(Shown(slots), part) == Some(FileOf(slots[k]))
  {
    hide NameMatches, IsShown, SlotOk, NameOf, PackName, PackFlags;
    if k > 0 {
      assert IsFirstNamed(slots[1..], k - 1, part);
      FirstNamedIsFound(slots[1..], k - 1, part);
      if IsShown(slots[0]) {
        assert Shown(slots)[0].name == NameOf(slots[0]) && Shown(slots)[1..] == Shown(slots[1..]);
      } else {
        assert Shown(slots) == Shown(slots[1..]);
      }
    } else {
      assert Shown(slots)[0] == FileOf(slots[0]);
    }
  }

  lemma OnePart(image: Image, from: Entry, part: seq<Byte>)
    requires WellLaid(image) && IsPart(part) && IsDirectory(from)
    ensures Walked(image, from, Components(part)) == FirstMatch(Listed(Entries(image, from.firstCluster)), part)
  {
    hide WellLaid, Entries, Listed, FirstMatch, IsDirectory;
    ComponentsOfPart(part);
    match FirstMatch(Listed(Entries(image, from.firstCluster)), part)
    case None =>
    case Some(entry) => assert [part][1..] == [];
  }

  /** A name on its own finds the file stored under it in the root directory. */
  lemma RootFileIsFound(image: Image, slots: seq<Slot>, k: nat, part: seq<Byte>)
    requires WellLaid(image) && IsPart(part)
    requires HoldsSlots(image.data[image.rootOffset..image.rootOffset + 32 * image.rootEntries], slots)
    requires IsFirstNamed(slots, k, part)
    ensures Walked(image, ROOT, Components(part)) == Some(FileOf(slots[k]))
  {
    RootIsDirectory();
    hide WellLaid, Entries, Listed, FirstMatch, Shown, Walked, IsDirectory;
    RootListsStored(image, slots);
    FirstNamedIsFound(slots, k, part);
    OnePart(image, ROOT, part);
  }

  lemma RootIsDirectory()
    ensures IsDirectory(ROOT) && ROOT.firstCluster == 0
  {
  }

  /**
   * And behind a path to a directory whose clusters lie anywhere, a name finds the file stored under it there: so
   * every path down a tree of stored directories finds its file, in whatever case it is spelt.
   */
  lemma StoredFileIsFound(image: Image, entries: seq<nat>, cs: seq<nat>, slots: seq<Slot>, k: nat,
                          path: seq<Byte>, directory: Slot, sep: Byte, part: seq<Byte>)
    requires WellLaid(image) && FileClusters(image, entries, cs)
    requires (InPlace(image, entries, cs); HoldsSlots(Joined(image, cs), slots))
    requires SlotOk(directory) && directory.flags.isDirectory && directory.firstCluster == cs[0]
    requires Walked(image, ROOT, Components(path)) == Some(FileOf(directory))
    requires (sep == 0x5C || sep == 0x2F) && IsPart(part) && IsFirstNamed(slots, k, part)
    ensures Walked(image, ROOT, Components(path + ([sep] + part))) == Some(FileOf(slots[k]))
  {
    FlagBits(directory.flags);
    assert IsDirectory(FileOf(directory));
    hide WellLaid, FileClusters, HoldsSlots, Entries, Listed, FirstMatch, Shown, Walked, IsDirectory, NameMatches;
    DirectoryListsStored(image, entries, cs, slots);
    FirstNamedIsFound(slots, k, part);
    LookupComposes(image, path, sep, part);
    OnePart(image, FileOf(directory), part);
  }
}
