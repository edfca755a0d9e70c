/** A file's cluster chain, and reading any stretch of it through the step cap that guards against loops. */
module FatFile {
  import opened Machine
  import opened FatLayout
  import opened FatTable

  /** The bytes of k clusters: k * clusterSize, kept out of the solver's sight until SpanIsProduct is called. */
  function Span(k: nat, clusterSize: nat): nat {
    if k == 0 then 0 else Span(k - 1, clusterSize) + clusterSize
  }

  lemma {:induction false} SpanGrows(j: nat, k: nat, clusterSize: nat)
    requires j <= k
    ensures Span(j, clusterSize) <= Span(k, clusterSize)
    decreases k
  {
    if j < k {
      SpanGrows(j, k - 1, clusterSize);
    }
  }

  lemma {:induction false} SpanIsProduct(k: nat, clusterSize: nat)
    ensures Span(k, clusterSize) == k * clusterSize
  {
    if k > 0 {
      SpanIsProduct(k - 1, clusterSize);
      assert (k - 1) * clusterSize + clusterSize == k * clusterSize;
    }
  }

  function ClusterOffset(image: Image, cluster: nat): nat
    requires cluster >= 2
  {
    image.dataOffset + Span(cluster - 2, image.clusterSize)
  }

  /** A data cluster whose bytes are all in the image. */
  predicate ClusterInside(image: Image, cluster: nat) {
    IsDataCluster(image, cluster) && ClusterOffset(image, cluster) + image.clusterSize <= |image.data|
  }

  function Next(image: Image, cluster: nat): nat
    requires WellLaid(image) && IsDataCluster(image, cluster)
  {
    EntryInBounds(image, cluster);
    FatImageNextCluster(image, cluster)
  }

  /** n clusters can be followed from `cluster`, every one inside the image. */
  predicate IsChain(image: Image, cluster: nat, n: nat)
    requires WellLaid(image)
    decreases n
  {
    n > 0 ==> ClusterInside(image, cluster) && IsChain(image, Next(image, cluster), n - 1)
  }

  function Clusters(image: Image, cluster: nat, n: nat): (r: seq<nat>)
    requires WellLaid(image) && IsChain(image, cluster, n)
    ensures |r| == n && forall i :: 0 <= i < n ==> IsDataCluster(image, r[i])
    decreases n
  {
    if n == 0 then [] else [cluster] + Clusters(image, Next(image, cluster), n - 1)
  }

  function ClusterBytes(image: Image, cluster: nat): (r: seq<Byte>)
    requires ClusterInside(image, cluster)
    ensures |r| == image.clusterSize
  {
    image.data[ClusterOffset(image, cluster)..ClusterOffset(image, cluster) + image.clusterSize]
  }

  /** The chain's clusters, one after the other. */
  function Concat(image: Image, cluster: nat, n: nat): seq<Byte>
    requires WellLaid(image) && IsChain(image, cluster, n)
    decreases n
  {
    if n == 0 then [] else ClusterBytes(image, cluster) + Concat(image, Next(image, cluster), n - 1)
  }

  ghost predicate NoRepeat(s: seq<nat>) {
    forall i, j :: 0 <= i < j < |s| ==> s[i] != s[j]
  }

  /** The file's first n clusters are distinct, in the image, and hold all its bytes. */
  ghost predicate GoodFile(image: Image, first: nat, size: nat, n: nat)
    requires WellLaid(image)
  {
    IsChain(image, first, n) && NoRepeat(Clusters(image, first, n)) && size <= |Concat(image, first, n)|
  }

  /** The file's contents. */
  ghost function Contents(image: Image, first: nat, size: nat, n: nat): (r: seq<Byte>)
    requires WellLaid(image) && GoodFile(image, first, size, n)
    ensures |r| == size
  {
    Concat(image, first, n)[..size]
  }

  /** Distinct numbers from lo..hi are at most hi - lo many. */
  lemma {:induction false} Pigeonhole(s: seq<nat>, lo: nat, hi: nat)
    requires NoRepeat(s) && lo <= hi && forall i :: 0 <= i < |s| ==> lo <= s[i] < hi
    ensures |s| <= hi - lo
    decreases hi - lo
  {
    if s != [] {
      assert lo <= s[0] < hi;
      if i :| 0 <= i < |s| && s[i] == hi - 1 {
        Pigeonhole(s[..i] + s[i + 1..], lo, hi - 1);
      } else {
        Pigeonhole(s, lo, hi - 1);
      }
    }
  }

  /** The step cap is no cap on a chain that does not repeat. */
  lemma ChainWithinCap(image: Image, first: nat, n: nat)
    requires WellLaid(image) && IsChain(image, first, n) && NoRepeat(Clusters(image, first, n))
    ensures n <= image.clusterCount
  {
    Pigeonhole(Clusters(image, first, n), 2, image.clusterCount + 2);
  }

  /**
   * Byte `pos` of the chain that goes on at `cluster` after `steps` clusters: none past the chain's end,
   * past the step cap, or in a cluster that is not all in the image.
   */
  function ByteAt(image: Image, cluster: nat, steps: nat, pos: nat): Option<Byte>
    requires WellLaid(image)
    decreases Max(0, image.clusterCount + 1 - steps)
  {
    if !IsDataCluster(image, cluster) || steps > image.clusterCount then None
    else if pos >= image.clusterSize then ByteAt(image, Next(image, cluster), steps + 1, pos - image.clusterSize)
    else if ClusterInside(image, cluster) then Some(ClusterBytes(image, cluster)[pos])
    else None
  }

  lemma {:induction false} ByteInChain(image: Image, cluster: nat, steps: nat, n: nat, pos: nat)
    requires WellLaid(image) && IsChain(image, cluster, n) && steps + n <= image.clusterCount + 1
    requires pos < |Concat(image, cluster, n)|
    ensures ByteAt(image, cluster, steps, pos) == Some(Concat(image, cluster, n)[pos])
    decreases n
  {
    if pos >= image.clusterSize {
      ByteInChain(image, Next(image, cluster), steps + 1, n - 1, pos - image.clusterSize);
    }
  }

  /**
   * The step cap, exactly: a chain that goes on for one cluster more than the image has, and so repeats, is read that
   * far and no further.
   */
  lemma CapIsExact(image: Image, first: nat)
    requires WellLaid(image) && IsChain(image, first, image.clusterCount + 1)
    ensures |Concat(image, first, image.clusterCount + 1)| == (image.clusterCount + 1) * image.clusterSize
    ensures forall pos: nat :: ByteAt(image, first, 0, pos)
              == if pos < (image.clusterCount + 1) * image.clusterSize
                 then Some(Concat(image, first, image.clusterCount + 1)[pos]) else None
  {
    var n := image.clusterCount + 1;
    ConcatLength(image, first, n);
    SpanIsProduct(n, image.clusterSize);
    forall pos: nat
      ensures ByteAt(image, first, 0, pos)
              == if pos < Span(n, image.clusterSize) then Some(Concat(image, first, n)[pos]) else None
    {
      if pos < Span(n, image.clusterSize) {
        ByteInChain(image, first, 0, n, pos);
      } else {
        NothingPastCap(image, first, 0, pos);
      }
    }
  }

  lemma {:induction false} ConcatLength(image: Image, cluster: nat, n: nat)
    requires WellLaid(image) && IsChain(image, cluster, n)
    ensures |Concat(image, cluster, n)| == Span(n, image.clusterSize)
    decreases n
  {
    if n > 0 {
      ConcatLength(image, Next(image, cluster), n - 1);
    }
  }

  lemma {:induction false} NothingPastCap(image: Image, cluster: nat, steps: nat, pos: nat)
    requires WellLaid(image) && steps <= image.clusterCount + 1
    requires pos >= Span(image.clusterCount + 1 - steps, image.clusterSize)
    ensures ByteAt(image, cluster, steps, pos) == None
    decreases image.clusterCount + 1 - steps
  {
    if steps <= image.clusterCount && IsDataCluster(image, cluster) {
      SpanGrows(1, image.clusterCount + 1 - steps, image.clusterSize);
      NothingPastCap(image, Next(image, cluster), steps + 1, pos - image.clusterSize);
    }
  }

  /** Of a good file every byte is there, and is the file's: the step cap and the loop guard cut nothing. */
  lemma GoodFileBytes(image: Image, first: nat, size: nat, n: nat)
    requires WellLaid(image) && GoodFile(image, first, size, n)
    ensures forall pos :: 0 <= pos < size ==> ByteAt(image, first, 0, pos) == Some(Contents(image, first, size, n)[pos])
  {
    ChainWithinCap(image, first, n);
    forall pos | 0 <= pos < size
      ensures ByteAt(image, first, 0, pos) == Some(Contents(image, first, size, n)[pos])
    {
      ByteInChain(image, first, 0, n, pos);
    }
  }

  /** The offset of a data cluster is the product the reader computes, and does not wrap. */
  lemma OffsetNoWrap(image: Image, cluster: nat)
    requires WellLaid(image) && DataFits(image) && IsDataCluster(image, cluster)
    ensures ClusterOffset(image, cluster) == image.dataOffset + (cluster - 2) * image.clusterSize
    ensures ClusterOffset(image, cluster) + image.clusterSize < 0x1_0000_0000
  {
    SpanIsProduct(cluster - 2, image.clusterSize);
    SpanIsProduct(image.clusterCount, image.clusterSize);
    SpanGrows(cluster - 1, image.clusterCount, image.clusterSize);
  }

  lemma HasSize(image: Image)
    requires WellLaid(image)
    ensures image.clusterSize > 0
  {
  }

  /** Past the first cluster the bytes are those of the chain from the next one on. */
  lemma ByteAfter(image: Image, cluster: nat, steps: nat)
    requires WellLaid(image)
    ensures !IsDataCluster(image, cluster) || steps > image.clusterCount ==>
              forall pos: nat :: ByteAt(image, cluster, steps, pos) == None
    ensures IsDataCluster(image, cluster) && steps <= image.clusterCount ==>
              forall pos: nat :: pos >= image.clusterSize ==>
                ByteAt(image, cluster, steps, pos)
                    == ByteAt(image, Next(image, cluster), steps + 1, pos - image.clusterSize)
    ensures IsDataCluster(image, cluster) && !ClusterInside(image, cluster) ==>
              forall pos: nat :: pos < image.clusterSize ==> ByteAt(image, cluster, steps, pos) == None
  {
  }

  /** Where a walk stands: what the chain has from `pos` on is what it has from `within` the current cluster on. */
  ghost predicate Follows(image: Image, start: nat, startSteps: nat, pos: nat, cluster: nat, steps: nat, within: nat)
    requires WellLaid(image)
  {
    forall q: nat {:trigger ByteAt(image, cluster, steps, q)} ::
      q >= within ==> ByteAt(image, start, startSteps, pos + (q - within)) == ByteAt(image, cluster, steps, q)
  }

  /** One cluster further. */
  lemma FollowsNext(image: Image, start: nat, startSteps: nat, pos: nat, cluster: nat, steps: nat, within: nat)
    requires WellLaid(image) && within <= image.clusterSize && IsDataCluster(image, cluster)
               && steps <= image.clusterCount
    requires Follows(image, start, startSteps, pos, cluster, steps, within)
    ensures Follows(image, start, startSteps, pos + (image.clusterSize - within), Next(image, cluster), steps + 1, 0)
  {
    ByteAfter(image, cluster, steps);
    hide WellLaid, Next, IsDataCluster, ByteAt;
    var to := pos + (image.clusterSize - within);
    var next, after := Next(image, cluster), steps + 1;
    forall q: nat {:trigger ByteAt(image, next, after, q)} | q >= 0
      ensures ByteAt(image, start, startSteps, to + (q - 0)) == ByteAt(image, next, after, q)
    {
      var from: nat := image.clusterSize + q;
      assert ByteAt(image, cluster, steps, from) == ByteAt(image, next, after, from - image.clusterSize);
      assert pos + (from - within) == to + (q - 0);
    }
  }

  /** No byte where a walk cannot go on, nor anywhere after it. */
  lemma NoneFrom(image: Image, start: nat, startSteps: nat, pos: nat, cluster: nat, steps: nat)
    requires WellLaid(image) && Follows(image, start, startSteps, pos, cluster, steps, 0)
    requires !IsDataCluster(image, cluster) || steps > image.clusterCount
    ensures forall p: nat :: p >= pos ==> ByteAt(image, start, startSteps, p) == None
  {
    ByteAfter(image, cluster, steps);
    hide WellLaid, IsDataCluster, ByteAt;
    forall p: nat | p >= pos ensures ByteAt(image, start, startSteps, p) == None {
      var q: nat := p - pos;
      assert ByteAt(image, cluster, steps, q) == None;
      assert pos + (q - 0) == p;
    }
  }

  /** `skip` clusters passed over; false when the chain, or the cap, ends before. */
  method SkipClusters(image: Image, first: nat, skip: nat) returns (ok: bool, cluster: nat, steps: nat)
    requires WellLaid(image)
    ensures ok ==> Follows(image, first, 0, Span(skip, image.clusterSize), cluster, steps, 0)
    ensures !ok ==> forall pos: nat :: pos >= Span(skip, image.clusterSize) ==> ByteAt(image, first, 0, pos) == None
  {
    hide WellLaid, Next, ByteAt, Follows;
    HasSize(image);
    cluster, steps := first, 0;
    NothingRead(image, first, 0, 0);
    var left := skip;
    while left > 0
      invariant 0 <= left <= skip && steps == skip - left
      invariant Follows(image, first, 0, Span(steps, image.clusterSize), cluster, steps, 0)
    {
      SpanGrows(steps, skip, image.clusterSize);
      if !IsDataCluster(image, cluster) || steps > image.clusterCount {
        NoneFrom(image, first, 0, Span(steps, image.clusterSize), cluster, steps);
        return false, cluster, steps;
      }
      FollowsNext(image, first, 0, Span(steps, image.clusterSize), cluster, steps, 0);
      cluster := Next(image, cluster);
      steps := steps + 1;
      left := left - 1;
    }
    ok := true;
  }

  method CopyBytes(data: seq<Byte>, from: nat, buffer: array<Byte>, at: nat, chunk: nat)
    requires from + chunk <= |data| && at + chunk <= buffer.Length
    modifies buffer
    ensures buffer[at..at + chunk] == data[from..from + chunk]
    ensures buffer[..at] == old(buffer[..at]) && buffer[at + chunk..] == old(buffer[at + chunk..])
  {
    var index := 0;
    while index < chunk
      invariant 0 <= index <= chunk
      invariant buffer[at..at + index] == data[from..from + index]
      invariant buffer[..at] == old(buffer[..at]) && buffer[at + index..] == old(buffer[at + index..])
    {
      buffer[at + index] := data[from + index];
      index := index + 1;
    }
  }

  lemma SliceOfSlice(s: seq<Byte>, from: nat, size: nat, within: nat, chunk: nat)
    requires from + size <= |s| && within + chunk <= size
    ensures s[from..from + size][within..within + chunk] == s[from + within..from + within + chunk]
  {
    var inner, outer := s[from..from + size][within..within + chunk], s[from + within..from + within + chunk];
    assert |inner| == |outer|;
    forall k | 0 <= k < |inner| ensures inner[k] == outer[k] {
    }
  }

  /** As much of one cluster, from `within` its start, as is still wanted. */
  method CopyChunk(image: Image, cluster: nat, within: nat, buffer: array<Byte>, copied: nat, wanted: nat)
    returns (chunk: nat)
    requires WellLaid(image) && ClusterInside(image, cluster) && within < image.clusterSize
    requires copied < wanted <= buffer.Length
    modifies buffer
    ensures chunk == Min(image.clusterSize - within, wanted - copied)
    ensures buffer[..copied + chunk] == old(buffer[..copied]) + ClusterBytes(image, cluster)[within..within + chunk]
    ensures buffer[copied + chunk..] == old(buffer[copied + chunk..])
  {
    hide WellLaid, ClusterOffset;
    var clusterOffset := ClusterOffset(image, cluster);
    chunk := image.clusterSize - within;
    if chunk > wanted - copied {
      chunk := wanted - copied;
    }
    SliceOfSlice(image.data, clusterOffset, image.clusterSize, within, chunk);
    CopyBytes(image.data, clusterOffset + within, buffer, copied, chunk);
    assert buffer[..copied + chunk] == buffer[..copied] + buffer[copied..copied + chunk];
  }

  /** The bytes `got` are those of the chain from `pos` on. */
  ghost predicate Reads(image: Image, cluster: nat, steps: nat, pos: nat, got: seq<Byte>)
    requires WellLaid(image)
  {
    forall j :: 0 <= j < |got| ==> ByteAt(image, cluster, steps, pos + j) == Some(got[j])
  }

  lemma ReadsChunk(image: Image, start: nat, startSteps: nat, from: nat, got: seq<Byte>, cluster: nat, steps: nat,
                   within: nat, chunk: nat)
    requires WellLaid(image) && ClusterInside(image, cluster) && steps <= image.clusterCount
    requires within + chunk <= image.clusterSize
    requires Reads(image, start, startSteps, from, got)
    requires Follows(image, start, startSteps, from + |got|, cluster, steps, within)
    ensures Reads(image, start, startSteps, from, got + ClusterBytes(image, cluster)[within..within + chunk])
  {
    ByteHere(image, cluster, steps);
    hide WellLaid, ByteAt, ClusterInside, ClusterBytes;
    var more := got + ClusterBytes(image, cluster)[within..within + chunk];
    forall j | 0 <= j < |more| ensures ByteAt(image, start, startSteps, from + j) == Some(more[j]) {
      if j >= |got| {
        var q: nat := within + (j - |got|);
        assert ByteAt(image, cluster, steps, q) == Some(ClusterBytes(image, cluster)[q]);
        assert from + |got| + (q - within) == from + j;
      }
    }
  }

  lemma ByteHere(image: Image, cluster: nat, steps: nat)
    requires WellLaid(image) && ClusterInside(image, cluster) && steps <= image.clusterCount
    ensures forall q: nat ::
              q < image.clusterSize ==> ByteAt(image, cluster, steps, q) == Some(ClusterBytes(image, cluster)[q])
  {
  }

  lemma NoneHere(image: Image, start: nat, startSteps: nat, pos: nat, cluster: nat, steps: nat, within: nat)
    requires WellLaid(image) && within < image.clusterSize
    requires Follows(image, start, startSteps, pos, cluster, steps, within)
    requires !IsDataCluster(image, cluster) || steps > image.clusterCount || !ClusterInside(image, cluster)
    ensures ByteAt(image, start, startSteps, pos) == None
  {
    ByteAfter(image, cluster, steps);
    hide WellLaid, ByteAt;
    assert ByteAt(image, cluster, steps, within) == None;
    assert pos + (within - within) == pos;
  }

  /** The copying loop: cluster by cluster, the first one from `startWithin` its start. */
  method CopyClusters(image: Image, start: nat, startSteps: nat, startWithin: nat, buffer: array<Byte>, wanted: nat)
    returns (copied: nat)
    requires WellLaid(image) && buffer.Length >= wanted && startWithin < image.clusterSize
    modifies buffer
    ensures copied <= wanted
    ensures buffer[copied..] == old(buffer[copied..])
    ensures Reads(image, start, startSteps, startWithin, buffer[..copied])
    ensures copied < wanted ==> ByteAt(image, start, startSteps, startWithin + copied) == None
  {
    hide WellLaid, Next, ClusterOffset, IsDataCluster, ByteAt, Reads, Follows, ClusterBytes, FatIsEndOfChain,
        ClusterInside;
    HasSize(image);
    copied := 0;
    var cluster: nat, steps: nat, within: nat := start, startSteps, startWithin;
    NothingRead(image, start, startSteps, startWithin);
    while copied < wanted
      invariant copied <= wanted && within < image.clusterSize
      invariant buffer[copied..] == old(buffer[copied..])
      invariant Reads(image, start, startSteps, startWithin, buffer[..copied])
      invariant copied < wanted ==> Follows(image, start, startSteps, startWithin + copied, cluster, steps, within)
      decreases wanted - copied
    {
      if !IsDataCluster(image, cluster) || steps > image.clusterCount || !ClusterInside(image, cluster) {
        NoneHere(image, start, startSteps, startWithin + copied, cluster, steps, within);
        break;
      }
      ghost var got, rest := buffer[..copied], buffer[copied..];
      ghost var before := buffer[..];
      var chunk := CopyChunk(image, cluster, within, buffer, copied, wanted);
      assert buffer[copied + chunk..] == before[copied + chunk..] == rest[chunk..];
      ReadsChunk(image, start, startSteps, startWithin, got, cluster, steps, within, chunk);
      if chunk == image.clusterSize - within {
        FollowsNext(image, start, startSteps, startWithin + copied, cluster, steps, within);
      }
      copied, within := copied + chunk, 0;
      cluster := Next(image, cluster);
      steps := steps + 1;
      if FatIsEndOfChain(image, cluster) && copied < wanted {
        EndIsNoData(image, cluster);
        NoneHere(image, start, startSteps, startWithin + copied, cluster, steps, within);
        break;
      }
    }
  }

  lemma NothingRead(image: Image, start: nat, startSteps: nat, within: nat)
    requires WellLaid(image)
    ensures Reads(image, start, startSteps, within, [])
              && Follows(image, start, startSteps, within, start, startSteps, within)
  {
  }

  lemma EndIsNoData(image: Image, cluster: nat)
    requires WellLaid(image) && FatIsEndOfChain(image, cluster)
    ensures !IsDataCluster(image, cluster)
  {
    if IsDataCluster(image, cluster) {
      DataClusterIsNotEnd(image, cluster);
    }
  }

  /** Whole clusters to skip, and the offset within the one after them. */
  method DivideOffset(offset: nat, clusterSize: nat) returns (skip: nat, within: nat)
    requires clusterSize > 0
    ensures offset == Span(skip, clusterSize) + within && within < clusterSize
  {
    skip, within := offset / clusterSize, offset % clusterSize;
    SpanIsProduct(skip, clusterSize);
  }

  /**
   * FatImageReadFile, of any chain, broken and looping ones too: the bytes copied are the chain's from
   * `offset` on, at most `count` and none past the file's size, and it stops short only where the chain
   * has no further byte.
   */
  method FatImageReadFile(image: Image, first: Word, size: Dword, offset: Dword, buffer: array<Byte>, count: Dword)
    returns (copied: nat)
    requires WellLaid(image) && buffer.Length >= count
    modifies buffer
    ensures copied <= Min(count, Max(0, size - offset))
    ensures buffer[copied..] == old(buffer[copied..])
    ensures Reads(image, first, 0, offset, buffer[..copied])
    ensures copied < Min(count, size - offset) ==> ByteAt(image, first, 0, offset + copied) == None
    ensures IsRead(image, first, size, offset, count, buffer[..copied])
  {
    hide WellLaid, ByteAt, Follows, Span, Reads;
    HasSize(image);
    if offset >= size || count == 0 {
      NothingRead(image, first, 0, offset);
      assert buffer[..0] == [];
      return 0;
    }
    var wanted: nat := if count > size - offset then size - offset else count;
    var skip, within := DivideOffset(offset, image.clusterSize);
    var ok, cluster, steps := SkipClusters(image, first, skip);
    if !ok {
      NothingRead(image, first, 0, offset);
      assert buffer[..0] == [];
      return 0;
    }
    copied := CopyClusters(image, cluster, steps, within, buffer, wanted);
    ReadsFromStart(image, first, cluster, steps, Span(skip, image.clusterSize), within, buffer[..copied]);
  }

  lemma ReadsFromStart(image: Image, first: nat, cluster: nat, steps: nat, pos: nat, within: nat, got: seq<Byte>)
    requires WellLaid(image) && Reads(image, cluster, steps, within, got)
               && Follows(image, first, 0, pos, cluster, steps, 0)
    ensures Reads(image, first, 0, pos + within, got)
    ensures ByteAt(image, first, 0, pos + within + |got|) == ByteAt(image, cluster, steps, within + |got|)
  {
    hide WellLaid, ByteAt, Follows;
    SameByte(image, first, cluster, steps, pos, within + |got|);
    forall j | 0 <= j < |got| ensures ByteAt(image, first, 0, pos + within + j) == Some(got[j]) {
      SameByte(image, first, cluster, steps, pos, within + j);
    }
  }

  lemma SameByte(image: Image, first: nat, cluster: nat, steps: nat, pos: nat, q: nat)
    requires WellLaid(image) && Follows(image, first, 0, pos, cluster, steps, 0)
    ensures ByteAt(image, first, 0, pos + q) == ByteAt(image, cluster, steps, q)
  {
    hide WellLaid, ByteAt;
    assert ByteAt(image, cluster, steps, q) == ByteAt(image, first, 0, pos + (q - 0));
  }

  /** Reading a good file brings exactly the bytes offset .. min(offset + count, size) of its contents. */
  lemma GoodFileReadsWhole(image: Image, first: nat, size: nat, n: nat, offset: nat, count: nat, got: seq<Byte>)
    requires WellLaid(image) && GoodFile(image, first, size, n) && offset <= size
    requires |got| <= Min(count, size - offset) && Reads(image, first, 0, offset, got)
    requires |got| < Min(count, size - offset) ==> ByteAt(image, first, 0, offset + |got|) == None
    ensures |got| == Min(count, size - offset) && got == Contents(image, first, size, n)[offset..offset + |got|]
  {
    GoodFileBytes(image, first, size, n);
    hide WellLaid, ByteAt, GoodFile;
    var file := Contents(image, first, size, n);
    forall j | 0 <= j < |got| ensures got[j] == file[offset + j] {
      assert ByteAt(image, first, 0, offset + j) == Some(got[j]);
    }
  }

  /** Of any chain, broken and looping ones too: adjacent stretches put together are the stretch over both. */
  lemma ReadsCompose(image: Image, first: nat, offset: nat, one: seq<Byte>, two: seq<Byte>, whole: seq<Byte>)
    requires WellLaid(image) && |one| + |two| == |whole|
    requires Reads(image, first, 0, offset, one) && Reads(image, first, 0, offset + |one|, two)
    requires Reads(image, first, 0, offset, whole)
    ensures one + two == whole
  {
    hide WellLaid, ByteAt;
    forall j | 0 <= j < |whole| ensures (one + two)[j] == whole[j] {
      assert ByteAt(image, first, 0, offset + j) == Some(whole[j]);
      if j < |one| {
        assert ByteAt(image, first, 0, offset + j) == Some(one[j]);
      } else {
        assert ByteAt(image, first, 0, offset + |one| + (j - |one|)) == Some(two[j - |one|]);
      }
    }
  }

  /**
   * What FatImageReadFile answers: the chain's bytes from `offset` on,
   * short only where the chain has no further byte.
   */
  ghost predicate IsRead(image: Image, first: nat, size: nat, offset: nat, count: nat, got: seq<Byte>)
    requires WellLaid(image)
  {
    && |got| <= Min(count, Max(0, size - offset))
    && Reads(image, first, 0, offset, got)
    && (|got| < Min(count, size - offset) ==> ByteAt(image, first, 0, offset + |got|) == None)
  }

  /**
   * A read, and a second one where it stopped, bring what one read over both brings. After a read that
   * was short the second brings nothing, and the second is short exactly when the read over both is.
   */
  lemma AdjacentReadsAreOne(image: Image, first: nat, size: nat, offset: nat, count: nat, more: nat,
                            one: seq<Byte>, two: seq<Byte>, whole: seq<Byte>)
    requires WellLaid(image)
    requires IsRead(image, first, size, offset, count, one)
    requires IsRead(image, first, size, offset + |one|, more, two)
    requires IsRead(image, first, size, offset, |one| + more, whole)
    ensures whole == one + two
    ensures |one| < Min(count, size - offset) ==> two == []
    ensures |two| < Min(more, size - offset - |one|) <==> |whole| < Min(|one| + more, size - offset)
  {
    hide WellLaid, ByteAt;
    ReadsOn(image, first, offset, one, two);
    SameReads(image, first, size, offset, |one| + more, one + two, whole);
    if two != [] {
      assert ByteAt(image, first, 0, offset + |one| + 0) == Some(two[0]);
    }
  }

  lemma ReadsSome(image: Image, first: nat, offset: nat, got: seq<Byte>)
    requires WellLaid(image) && Reads(image, first, 0, offset, got)
    ensures forall pos: nat :: offset <= pos < offset + |got| ==> ByteAt(image, first, 0, pos).Some?
  {
    hide WellLaid, ByteAt;
    forall pos: nat | offset <= pos < offset + |got|
      ensures ByteAt(image, first, 0, pos).Some?
    {
      assert ByteAt(image, first, 0, offset + (pos - offset)) == Some(got[pos - offset]);
    }
  }

  /** Two answers to one read are the same answer. */
  lemma SameReads(image: Image, first: nat, size: nat, offset: nat, count: nat, a: seq<Byte>, b: seq<Byte>)
    requires WellLaid(image)
    requires IsRead(image, first, size, offset, count, a) && IsRead(image, first, size, offset, count, b)
    ensures a == b
  {
    hide WellLaid, ByteAt;
    ReadsSome(image, first, offset, a);
    ReadsSome(image, first, offset, b);
    forall j | 0 <= j < |a| && j < |b| ensures a[j] == b[j] {
      assert ByteAt(image, first, 0, offset + j) == Some(a[j]) && ByteAt(image, first, 0, offset + j) == Some(b[j]);
    }
  }

  const COPY_CHUNK: Dword := 0x1_0000

  /** The extractor's loop: chunk after chunk until a read brings nothing. It ends, and a good file comes out whole. */
  method ExtractFile(image: Image, first: Word, size: Dword, ghost n: nat) returns (written: seq<Byte>)
    requires WellLaid(image)
    ensures |written| <= size && Reads(image, first, 0, 0, written)
    ensures GoodFile(image, first, size, n) ==> written == Contents(image, first, size, n)
  {
    hide WellLaid, ByteAt, Reads, GoodFile;
    ghost var good := GoodFile(image, first, size, n);
    var buffer := new Byte[COPY_CHUNK];
    var offset: Dword := 0;
    written := [];
    NothingRead(image, first, 0, 0);
    while true
      invariant offset <= size && |written| == offset && Reads(image, first, 0, 0, written)
      invariant good ==> written == Contents(image, first, size, n)[..offset]
      decreases size - offset
    {
      var got := FatImageReadFile(image, first, size, offset, buffer, COPY_CHUNK);
      if good {
        GoodFileReadsWhole(image, first, size, n, offset, COPY_CHUNK, buffer[..got]);
      }
      if got == 0 {
        break;
      }
      ReadsOn(image, first, 0, written, buffer[..got]);
      written := written + buffer[..got];
      offset := offset + got;
    }
  }

  lemma ReadsOn(image: Image, first: nat, offset: nat, had: seq<Byte>, got: seq<Byte>)
    requires WellLaid(image) && Reads(image, first, 0, offset, had) && Reads(image, first, 0, offset + |had|, got)
    ensures Reads(image, first, 0, offset, had + got)
  {
    hide WellLaid, ByteAt;
    forall j | 0 <= j < |had + got| ensures ByteAt(image, first, 0, offset + j) == Some((had + got)[j]) {
      if j < |had| {
        assert ByteAt(image, first, 0, offset + j) == Some(had[j]);
      } else {
        assert ByteAt(image, first, 0, offset + |had| + (j - |had|)) == Some(got[j - |had|]);
      }
    }
  }
}
