/** The allocation table: 12-bit and 16-bit entries, in bounds exactly, and every packed entry read back. */
module FatTable {
  import opened Machine
  import opened FatLayout

  predicate IsDataCluster(image: Image, cluster: nat) {
    2 <= cluster < image.clusterCount + 2
  }

  /** Where the two bytes of a cluster's entry start, counted from the FAT. */
  function EntryOffset(image: Image, cluster: nat): nat {
    if image.isFat16 then cluster * 2 else cluster + cluster / 2
  }

  /** The size test of the mount is exact: the last data cluster's entry ends on the last byte it asks for. */
  lemma LastEntryEndsAtTest(image: Image)
    requires 0 < image.clusterCount
    ensures EntryOffset(image, image.clusterCount + 1) + 2 == FatBytes(image)
    ensures forall cluster :: IsDataCluster(image, cluster) ==> EntryOffset(image, cluster) + 2 <= FatBytes(image)
  {
  }

  /** Every data cluster's entry lies inside the FAT, and so inside the image. */
  lemma EntryInBounds(image: Image, cluster: nat)
    requires WellLaid(image) && IsDataCluster(image, cluster)
    ensures image.fatOffset + EntryOffset(image, cluster) + 2 <= image.rootOffset <= |image.data|
  {
    LastEntryEndsAtTest(image);
  }

  /**
   * Of every mounted image: all data clusters' entries lie inside the file exactly when the reserved sectors and
   * the entries together are no longer than it; and while the layout fits a DWORD they are not.
   */
  lemma EntriesInsideIff(data: seq<Byte>)
    requires |data| < 0x1_0000_0000 && FatImageMount(data).Some?
    ensures var image := FatImageMount(data).value;
            && ((forall cluster :: IsDataCluster(image, cluster) ==>
                   image.fatOffset + EntryOffset(image, cluster) + 2 <= |data|)
                <==> 512 * WordIn(data, 14) + FatBytes(image) <= |data|)
            && (FitsDword(data) ==> 512 * WordIn(data, 14) + FatBytes(image) <= |data|)
  {
    var image := FatImageMount(data).value;
    MountedIsWellLaidIff(data);
    LastEntryEndsAtTest(image);
    assert IsDataCluster(image, image.clusterCount + 1);
    if FitsDword(data) {
      MountedIsWellLaid(data);
    }
  }

  /**
   * In the file whose counts wrap the entry of cluster 60000, which
   * the mount counts as a data cluster, is not there.
   */
  lemma EntryOutsideFile()
    ensures var image := FatImageMount(WrappingFile());
            && image.Some? && IsDataCluster(image.value, 60000)
            && image.value.fatOffset + EntryOffset(image.value, 60000) > |image.value.data|
  {
    WrappingFileMounts();
    MountedIsWellLaidIff(WrappingFile());
  }

  /** The entry at `offset` bytes into a FAT12: the low or the high twelve bits of two bytes. */
  function Unpack12(packed: Word, isOdd: bool): (value: nat)
    ensures value < 0x1000
  {
    if isOdd then packed / 16 else packed % 0x1000
  }

  function FatImageNextCluster(image: Image, cluster: nat): nat
    requires image.fatOffset + EntryOffset(image, cluster) + 1 < |image.data|
  {
    var packed := WordIn(image.data, image.fatOffset + EntryOffset(image, cluster));
    if image.isFat16 then packed else Unpack12(packed, cluster % 2 == 1)
  }

  predicate FatIsEndOfChain(image: Image, cluster: nat) {
    cluster >= if image.isFat16 then 0xFFF8 else 0xFF8
  }

  /** No data cluster's number is an end-of-chain mark. */
  lemma DataClusterIsNotEnd(image: Image, cluster: nat)
    requires WellLaid(image) && IsDataCluster(image, cluster)
    ensures !FatIsEndOfChain(image, cluster)
  {
  }

  // ---- packing: the format's own rule, written the other way ----

  /** Two twelve-bit entries in three bytes. */
  function PackPair(a: nat, b: nat): seq<Byte>
    requires a < 0x1000 && b < 0x1000
  {
    [a % 0x100, a / 0x100 + 16 * (b % 16), b / 16]
  }

  function Pack12(entries: seq<nat>): (bytes: seq<Byte>)
    requires forall i :: 0 <= i < |entries| ==> entries[i] < 0x1000
    ensures |bytes| == (|entries| + 1) / 2 * 3
  {
    if entries == [] then []
    else if |entries| == 1 then PackPair(entries[0], 0)
    else PackPair(entries[0], entries[1]) + Pack12(entries[2..])
  }

  function Pack16(entries: seq<nat>): (bytes: seq<Byte>)
    requires forall i :: 0 <= i < |entries| ==> entries[i] < 0x1_0000
    ensures |bytes| == 2 * |entries|
  {
    if entries == [] then []
    else [entries[0] % 0x100, entries[0] / 0x100] + Pack16(entries[1..])
  }

  lemma PairUnpacks(a: nat, b: nat)
    requires a < 0x1000 && b < 0x1000
    ensures var p := PackPair(a, b);
            Unpack12(WordOf(p[0], p[1]), false) == a && Unpack12(WordOf(p[1], p[2]), true) == b
  {
  }

  lemma {:induction false} Pack12At(entries: seq<nat>, c: nat)
    requires forall i :: 0 <= i < |entries| ==> entries[i] < 0x1000
    requires c < |entries|
    ensures var bytes := Pack12(entries);
            var at := c + c / 2;
            at + 1 < |bytes| && Unpack12(WordOf(bytes[at], bytes[at + 1]), c % 2 == 1) == entries[c]
  {
    if c < 2 {
      PairUnpacks(entries[0], if |entries| > 1 then entries[1] else 0);
    } else {
      Pack12At(entries[2..], c - 2);
      var at := c + c / 2;
      var rest := Pack12(entries[2..]);
      assert (c - 2) + (c - 2) / 2 == at - 3;
      assert Pack12(entries)[at] == rest[at - 3] && Pack12(entries)[at + 1] == rest[at - 2];
    }
  }

  lemma {:induction false} Pack16At(entries: seq<nat>, c: nat)
    requires forall i :: 0 <= i < |entries| ==> entries[i] < 0x1_0000
    requires c < |entries|
    ensures var bytes := Pack16(entries); WordOf(bytes[2 * c], bytes[2 * c + 1]) == entries[c]
  {
    if c > 0 {
      Pack16At(entries[1..], c - 1);
    }
  }

  /** A FAT written by the format's rule reads back entry by entry, whatever the cluster's parity. */
  lemma NextClusterReadsPacked(image: Image, entries: seq<nat>, cluster: nat)
    requires forall i :: 0 <= i < |entries| ==> entries[i] < if image.isFat16 then 0x1_0000 else 0x1000
    requires cluster < |entries|
    requires var fat := if image.isFat16 then Pack16(entries) else Pack12(entries);
             image.fatOffset + |fat| <= |image.data| && image.data[image.fatOffset..image.fatOffset + |fat|] == fat
    ensures image.fatOffset + EntryOffset(image, cluster) + 1 < |image.data|
    ensures FatImageNextCluster(image, cluster) == entries[cluster]
  {
    hide Pack12, Pack16, Unpack12, WordOf;
    var at := EntryOffset(image, cluster);
    if image.isFat16 {
      Pack16At(entries, cluster);
      var fat := Pack16(entries);
      assert image.data[image.fatOffset + at] == fat[at] && image.data[image.fatOffset + at + 1] == fat[at + 1];
    } else {
      Pack12At(entries, cluster);
      var fat := Pack12(entries);
      assert image.data[image.fatOffset + at] == fat[at] && image.data[image.fatOffset + at + 1] == fat[at + 1];
    }
  }
}
