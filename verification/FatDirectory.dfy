/** Directories of an image: the walk over raw entries, what it lists, and looking a path up. */
module FatDirectory {
  import opened Machine
  import opened FatLayout
  import opened FatTable
  import opened FatFile
  import opened FatPath

  const PAD: Byte := 0x20
  const DELETED: Byte := 0xE5
  const KANJI_E5: Byte := 0x05
  const BASE_SIZE := 8
  const RAW_NAME_SIZE := 11

  /** The 32 bytes of a directory entry. */
  type Raw = s: seq<Byte> | |s| == 32 witness seq(32, i => 0)

  datatype Entry = Entry(name: seq<Byte>, rawName: seq<Byte>, attributes: Byte, time: Word, date: Word,
                         firstCluster: Word, size: Dword)

  /** The entry a lookup starts from. */
  const ROOT := Entry([], [0, 0, 0, 0, 0, 0, 0, 0, 0, 0, 0], 0x10, 0, 0, 0, 0)

  predicate IsDirectory(entry: Entry) {
    entry.attributes / 16 % 2 == 1
  }

  // ---- names ----

  /** The string without the spaces it ends in. */
  function Trim(s: seq<Byte>): (r: seq<Byte>)
    ensures |r| <= |s| && r == s[..|r|] && (r != [] ==> r[|r| - 1] != PAD)
    ensures forall i :: |r| <= i < |s| ==> s[i] == PAD
  {
    if s != [] && s[|s| - 1] == PAD then Trim(s[..|s| - 1]) else s
  }

  function FromKanji(base: seq<Byte>): (r: seq<Byte>)
    ensures |r| == |base|
  {
    if base != [] && base[0] == KANJI_E5 then [DELETED] + base[1..] else base
  }

  /** "NAME    EXT" as "NAME.EXT". */
  function EntryName(raw: Raw): (name: seq<Byte>)
    ensures |name| <= 12
  {
    var base, ext := Trim(raw[..8]), Trim(raw[8..11]);
    FromKanji(base) + if ext == [] then [] else [DOT] + ext
  }

  predicate Unpadded(s: seq<Byte>) {
    s != [] ==> s[|s| - 1] != PAD
  }

  lemma {:induction false} TrimIs(s: seq<Byte>, k: nat)
    requires k <= |s| && Unpadded(s[..k]) && forall i :: k <= i < |s| ==> s[i] == PAD
    ensures Trim(s) == s[..k]
  {
    if k < |s| {
      var front := s[..|s| - 1];
      assert front[..k] == s[..k];
      TrimIs(front, k);
    } else {
      assert s[..k] == s;
    }
  }

  /** Where the part lo..hi of a raw name ends without its padding. */
  method TrimEnd(raw: Raw, lo: nat, hi: nat) returns (end: nat)
    requires lo <= hi <= 32
    ensures end == lo + |Trim(raw[lo..hi])|
  {
    end := hi;
    while end > lo && raw[end - 1] == PAD
      invariant lo <= end <= hi && forall i :: end <= i < hi ==> raw[i] == PAD
    {
      end := end - 1;
    }
    assert raw[lo..hi][..end - lo] == raw[lo..end];
    TrimIs(raw[lo..hi], end - lo);
  }

  /** The characters lo..end of a raw name, after what the buffer holds. */
  method AppendRaw(raw: Raw, lo: nat, end: nat, start: seq<Byte>) returns (name: seq<Byte>)
    requires lo <= end <= 32
    ensures name == start + if lo == 0 then FromKanji(raw[..end]) else raw[lo..end]
  {
    ghost var text := if lo == 0 then FromKanji(raw[..end]) else raw[lo..end];
    assert forall i :: lo <= i < end ==> text[i - lo] == if i == 0 && raw[0] == KANJI_E5 then DELETED else raw[i];
    hide FromKanji;
    name := start;
    var index := lo;
    while index < end
      invariant lo <= index <= end
      invariant name == start + text[..index - lo]
    {
      var c := if index == 0 && raw[0] == KANJI_E5 then DELETED else raw[index];
      assert text[..index + 1 - lo] == text[..index - lo] + [c];
      name := name + [c];
      index := index + 1;
    }
    assert text[..end - lo] == text;
  }

  /** FatEntryName: never more than the twelve characters its buffer has room for. */
  method FatEntryName(raw: Raw) returns (name: seq<Byte>)
    ensures name == EntryName(raw)
  {
    hide Trim, FromKanji;
    var end := TrimEnd(raw, 0, 8);
    assert raw[0..8] == raw[..8];
    assert raw[..8][..end] == raw[..end];
    name := AppendRaw(raw, 0, end, []);
    end := TrimEnd(raw, 8, 11);
    assert raw[8..11][..end - 8] == raw[8..end];
    if end > 8 {
      ghost var base := name;
      name := AppendRaw(raw, 8, end, name + [DOT]);
      assert base + [DOT] + raw[8..end] == base + ([DOT] + raw[8..end]);
    }
  }

  function Padded(s: seq<Byte>, size: nat): (r: seq<Byte>)
    requires |s| <= size
    ensures |r| == size && r[..|s|] == s && forall i :: |s| <= i < size ==> r[i] == PAD
    decreases size - |s|
  {
    if |s| == size then s else Padded(s + [PAD], size)
  }

  function ToKanji(base: seq<Byte>): (r: seq<Byte>)
    ensures |r| == |base|
  {
    if base != [] && base[0] == DELETED then [KANJI_E5] + base[1..] else base
  }

  /** The eleven bytes a name is stored as. */
  function PackName(base: seq<Byte>, ext: seq<Byte>): (r: seq<Byte>)
    requires |base| <= 8 && |ext| <= 3
    ensures |r| == RAW_NAME_SIZE
  {
    Padded(ToKanji(base), 8) + Padded(ext, 3)
  }

  lemma TrimPadded(s: seq<Byte>, size: nat)
    requires |s| <= size && Unpadded(s)
    ensures Trim(Padded(s, size)) == s
  {
    TrimIs(Padded(s, size), |s|);
  }

  /** A stored name reads back as it was, also one that starts with 0xE5. */
  lemma NameReadsBack(base: seq<Byte>, ext: seq<Byte>, raw: Raw)
    requires |base| <= 8 && |ext| <= 3 && Unpadded(base) && Unpadded(ext) && (base != [] ==> base[0] != KANJI_E5)
    requires raw[..11] == PackName(base, ext)
    ensures EntryName(raw) == base + if ext == [] then [] else [DOT] + ext
  {
    assert raw[..8] == raw[..11][..8] == Padded(ToKanji(base), 8);
    assert raw[8..11] == raw[..11][8..] == Padded(ext, 3);
    TrimPadded(ToKanji(base), 8);
    TrimPadded(ext, 3);
    assert FromKanji(ToKanji(base)) == base;
  }

  /** A component names an entry when the two differ in nothing but case. */
  predicate NameMatches(component: seq<Byte>, name: seq<Byte>) {
    UpperAll(component) == UpperAll(UpToNul(name))
  }

  /** Two bytes are the same, or the two cases of one letter of ASCII. */
  predicate SameButForCase(a: Byte, b: Byte) {
    a == b || (0x41 <= a <= 0x5A && b == a + 0x20) || (0x61 <= a <= 0x7A && b == a - 0x20)
  }

  /** What that says byte by byte, of a name that ends at its length or at a NUL. */
  lemma NameMatchesIff(component: seq<Byte>, name: seq<Byte>, tail: seq<Byte>)
    requires 0 !in name && (tail == [] || tail[0] == 0)
    ensures NameMatches(component, name + tail)
       <==> |component| == |name| && forall i :: 0 <= i < |name| ==> SameButForCase(component[i], name[i])
  {
    var text := UpToNul(name + tail);
    assert forall i :: 0 <= i < |text| ==> text[i] != 0;
    assert tail != [] ==> (name + tail)[|name|] == 0;
    assert |text| == |name| && text == name;
    forall i | 0 <= i < |component| && i < |name|
      ensures SameButForCase(component[i], name[i]) <==> UpperAll(component)[i] == UpperAll(name)[i]
    {
    }
    if |component| == |name| && forall i :: 0 <= i < |name| ==> SameButForCase(component[i], name[i]) {
      UpperAllIs(component, UpperAll(name));
    }
  }

  method FatNameMatches(component: seq<Byte>, name: seq<Byte>) returns (matches: bool)
    ensures matches == NameMatches(component, name)
  {
    var text := UpToNul(name);
    var index := 0;
    while index < |component|
      invariant 0 <= index <= |component| && index <= |text|
      invariant forall i :: 0 <= i < index ==> Upper(component[i]) == Upper(text[i])
    {
      var right := if index < |name| then name[index] else 0;
      if right == 0 {
        return false;
      }
      assert right == text[index];
      if Upper(component[index]) != Upper(right) {
        assert UpperAll(component)[index] != UpperAll(text)[index];
        return false;
      }
      index := index + 1;
    }
    matches := index == |name| || name[index] == 0;
    if matches {
      UpperAllIs(component, UpperAll(text));
    }
  }

  // ---- the walk ----

  function EntriesAt(data: seq<Byte>, at: nat, n: nat): (r: seq<Raw>)
    requires at + 32 * n <= |data|
    ensures |r| == n
    decreases n
  {
    if n == 0 then [] else [data[at..at + 32]] + EntriesAt(data, at + 32, n - 1)
  }

  /** The entries of a chain of clusters, cut at a bad cluster and, if it loops, at the cluster count. */
  function ChainEntries(image: Image, cluster: nat, steps: nat): seq<Raw>
    requires WellLaid(image)
    decreases Max(0, image.clusterCount + 1 - steps)
  {
    if !IsDataCluster(image, cluster) || steps > image.clusterCount || !ClusterInside(image, cluster) then []
    else
      EntriesAt(image.data, ClusterOffset(image, cluster), image.clusterSize / ENTRY_SIZE)
      + ChainEntries(image, Next(image, cluster), steps + 1)
  }

  /** All raw entries of the directory that starts at `firstCluster`, or of the root. */
  function Entries(image: Image, firstCluster: Word): seq<Raw>
    requires WellLaid(image)
  {
    if firstCluster == 0 then EntriesAt(image.data, image.rootOffset, image.rootEntries)
    else ChainEntries(image, firstCluster, 0)
  }

  /** Visiting entries in order until the visitor says to stop. */
  function VisitAll<C>(visit: (Raw, C) -> (C, bool), raws: seq<Raw>, context: C): (C, bool) {
    if raws == [] then (context, true)
    else
      var (after, more) := visit(raws[0], context);
      if more then VisitAll(visit, raws[1..], after) else (after, false)
  }

  lemma {:induction false} VisitConcat<C>(visit: (Raw, C) -> (C, bool), a: seq<Raw>, b: seq<Raw>, context: C)
    ensures var (after, more) := VisitAll(visit, a, context);
            VisitAll(visit, a + b, context) == if more then VisitAll(visit, b, after) else (after, false)
    decreases |a|
  {
    if a == [] {
      assert a + b == b;
    } else {
      var (after, more) := visit(a[0], context);
      VisitConcat(visit, a[1..], b, after);
      assert (a + b)[1..] == a[1..] + b;
    }
  }

  method VisitRun<C>(data: seq<Byte>, at: nat, n: nat, visit: (Raw, C) -> (C, bool), start: C)
    returns (context: C, more: bool)
    requires at + 32 * n <= |data|
    ensures (context, more) == VisitAll(visit, EntriesAt(data, at, n), start)
  {
    context, more := start, true;
    var index := 0;
    while index < n
      invariant 0 <= index <= n
      invariant VisitAll(visit, EntriesAt(data, at, n), start)
                  == VisitAll(visit, EntriesAt(data, at + 32 * index, n - index), context)
    {
      var offset := at + 32 * index;
      var step := visit(data[offset..offset + 32], context);
      assert EntriesAt(data, offset, n - index)[1..] == EntriesAt(data, offset + 32, n - index - 1);
      context := step.0;
      if !step.1 {
        return context, false;
      }
      index := index + 1;
    }
  }

  /**
   * FatWalkDirectory: terminates on every chain, looping ones too, and
   * shows the visitor exactly the directory's entries.
   */
  method FatWalkDirectory<C>(image: Image, firstCluster: Word, visit: (Raw, C) -> (C, bool), start: C)
    returns (context: C)
    requires WellLaid(image)
    ensures context == VisitAll(visit, Entries(image, firstCluster), start).0
  {
    var more: bool;
    if firstCluster == 0 {
      context, more := VisitRun(image.data, image.rootOffset, image.rootEntries, visit, start);
      return;
    }
    context := start;
    var cluster: nat, steps := firstCluster, 0;
    var perCluster := image.clusterSize / ENTRY_SIZE;
    while IsDataCluster(image, cluster) && steps <= image.clusterCount
      invariant 0 <= steps
      invariant VisitAll(visit, Entries(image, firstCluster), start).0
                  == VisitAll(visit, ChainEntries(image, cluster, steps), context).0
      decreases image.clusterCount + 1 - steps
    {
      if !ClusterInside(image, cluster) {
        return;
      }
      ghost var here := EntriesAt(image.data, ClusterOffset(image, cluster), perCluster);
      VisitConcat(visit, here, ChainEntries(image, Next(image, cluster), steps + 1), context);
      context, more := VisitRun(image.data, ClusterOffset(image, cluster), perCluster, visit, context);
      if !more {
        return;
      }
      cluster := Next(image, cluster);
      steps := steps + 1;
    }
  }

  // ---- nothing of a sound directory is cut ----

  function Flat(raws: seq<Raw>): seq<Byte> {
    if raws == [] then [] else raws[0] + Flat(raws[1..])
  }

  lemma {:induction false} FlatEntries(data: seq<Byte>, at: nat, n: nat)
    requires at + 32 * n <= |data|
    ensures Flat(EntriesAt(data, at, n)) == data[at..at + 32 * n]
    decreases n
  {
    if n > 0 {
      FlatEntries(data, at + 32, n - 1);
      assert EntriesAt(data, at, n)[1..] == EntriesAt(data, at + 32, n - 1);
      assert data[at..at + 32] + data[at + 32..at + 32 * n] == data[at..at + 32 * n];
    }
  }

  lemma {:induction false} FlatConcat(a: seq<Raw>, b: seq<Raw>)
    ensures Flat(a + b) == Flat(a) + Flat(b)
    decreases |a|
  {
    if a == [] {
      assert a + b == b;
    } else {
      FlatConcat(a[1..], b);
      assert (a + b)[1..] == a[1..] + b;
    }
  }

  /** The cluster number after n links. */
  function ChainEnd(image: Image, cluster: nat, n: nat): nat
    requires WellLaid(image) && IsChain(image, cluster, n)
    decreases n
  {
    if n == 0 then cluster else ChainEnd(image, Next(image, cluster), n - 1)
  }

  lemma WholeEntries(image: Image)
    requires WellLaid(image)
    ensures image.clusterSize / ENTRY_SIZE * 32 == image.clusterSize
  {
  }

  lemma ChainEntriesStep(image: Image, cluster: nat, steps: nat)
    requires WellLaid(image) && ClusterInside(image, cluster) && steps <= image.clusterCount
    ensures Flat(ChainEntries(image, cluster, steps)) ==
            ClusterBytes(image, cluster) + Flat(ChainEntries(image, Next(image, cluster), steps + 1))
  {
    WholeEntries(image);
    hide WellLaid, Next, Concat, IsChain, ClusterOffset, Flat, EntriesAt;
    var at, n := ClusterOffset(image, cluster), image.clusterSize / ENTRY_SIZE;
    FlatEntries(image.data, at, n);
    FlatConcat(EntriesAt(image.data, at, n), ChainEntries(image, Next(image, cluster), steps + 1));
  }

  lemma {:induction false} ChainEntriesWhole(image: Image, cluster: nat, steps: nat, n: nat)
    requires WellLaid(image) && IsChain(image, cluster, n) && steps + n <= image.clusterCount + 1
    requires !IsDataCluster(image, ChainEnd(image, cluster, n))
    ensures Flat(ChainEntries(image, cluster, steps)) == Concat(image, cluster, n)
    decreases n
  {
    hide WellLaid, Next, ClusterOffset, EntriesAt;
    if n == 0 {
      assert ChainEntries(image, cluster, steps) == [];
    } else {
      ChainEntriesStep(image, cluster, steps);
      ChainEntriesWhole(image, Next(image, cluster), steps + 1, n - 1);
    }
  }

  /** Every byte of a directory whose chain does not repeat is walked: the cap cuts nothing of it. */
  lemma DirectoryIsWhole(image: Image, firstCluster: Word, n: nat)
    requires WellLaid(image) && firstCluster != 0 && IsChain(image, firstCluster, n)
    requires NoRepeat(Clusters(image, firstCluster, n)) && !IsDataCluster(image, ChainEnd(image, firstCluster, n))
    ensures Flat(Entries(image, firstCluster)) == Concat(image, firstCluster, n)
  {
    ChainWithinCap(image, firstCluster, n);
    ChainEntriesWhole(image, firstCluster, 0, n);
  }

  // ---- listing ----

  /** Deleted, dot, long-name and volume-label entries are no files. */
  predicate Skipped(raw: Raw) {
    raw[0] == DELETED || raw[0] == DOT || raw[11] % 16 == 15 || raw[11] / 8 % 2 == 1
  }

  function EntryRead(raw: Raw): Entry {
    Entry(EntryName(raw), raw[..11], raw[11], WordIn(raw, 22), WordIn(raw, 24), WordIn(raw, 26), DwordIn(raw, 28))
  }

  /** The files of a run of raw entries, up to the end mark. */
  function Listed(raws: seq<Raw>): seq<Entry> {
    if raws == [] || raws[0][0] == 0 then []
    else if Skipped(raws[0]) then Listed(raws[1..])
    else [EntryRead(raws[0])] + Listed(raws[1..])
  }

  datatype ListContext = ListContext(wanted: bool, entries: seq<Entry>, capacity: int, count: nat)

  function FatListVisit(raw: Raw, list: ListContext): (ListContext, bool) {
    if raw[0] == 0 then (list, false)
    else if Skipped(raw) then (list, true)
    else
      var isKept := list.wanted && list.count < list.capacity;
      var entries := if isKept then list.entries + [EntryRead(raw)] else list.entries;
      (list.(entries := entries, count := list.count + 1), true)
  }

  /** The first `capacity` files go into the caller's array; all are counted. */
  ghost predicate Holds(list: ListContext, files: seq<Entry>) {
    && list.count == |files|
    && list.entries == if list.wanted then files[..Min(|files|, Max(0, list.capacity))] else []
  }

  lemma ListsOne(raw: Raw, list: ListContext, files: seq<Entry>)
    requires Holds(list, files) && raw[0] != 0 && !Skipped(raw)
    ensures var (step, more) := FatListVisit(raw, list);
            more && Holds(step, files + [EntryRead(raw)]) && step.wanted == list.wanted
                && step.capacity == list.capacity
  {
    var all := files + [EntryRead(raw)];
    if list.count < list.capacity {
      assert files[..|files|] == files && all[..|files| + 1] == all;
    } else {
      var k := Min(|files|, Max(0, list.capacity));
      assert all[..k] == files[..k];
    }
  }

  lemma FilesAssoc(files: seq<Entry>, entry: Entry, rest: seq<Entry>)
    ensures files + [entry] + rest == files + ([entry] + rest)
  {
  }

  lemma {:induction false} ListingLists(raws: seq<Raw>, list: ListContext, files: seq<Entry>)
    requires Holds(list, files)
    ensures var after := VisitAll(FatListVisit, raws, list).0;
            Holds(after, files + Listed(raws)) && after.wanted == list.wanted && after.capacity == list.capacity
    decreases |raws|
  {
    if raws == [] || raws[0][0] == 0 {
      assert files + [] == files;
    } else if Skipped(raws[0]) {
      ListingLists(raws[1..], list, files);
    } else {
      var entry := EntryRead(raws[0]);
      ListsOne(raws[0], list, files);
      ListingLists(raws[1..], FatListVisit(raws[0], list).0, files + [entry]);
      FilesAssoc(files, entry, Listed(raws[1..]));
    }
  }

  /** FatImageListDirectory: how many files there are, and the first `capacity` of them. */
  method FatImageListDirectory(image: Image, firstCluster: Word, wanted: bool, capacity: int)
    returns (count: nat, entries: seq<Entry>)
    requires WellLaid(image)
    ensures count == |Listed(Entries(image, firstCluster))|
    ensures entries == if wanted then Listed(Entries(image, firstCluster))[..Min(count, Max(0, capacity))] else []
  {
    hide WellLaid, Entries, Listed, FatListVisit;
    var list := FatWalkDirectory(image, firstCluster, FatListVisit, ListContext(wanted, [], capacity, 0));
    ListingLists(Entries(image, firstCluster), ListContext(wanted, [], capacity, 0), []);
    assert [] + Listed(Entries(image, firstCluster)) == Listed(Entries(image, firstCluster));
    return list.count, list.entries;
  }

  // ---- looking up ----

  /** The first of the files that the component names. */
  function FirstMatch(files: seq<Entry>, component: seq<Byte>): Option<Entry> {
    if files == [] then None
    else if NameMatches(component, files[0].name) then Some(files[0])
    else FirstMatch(files[1..], component)
  }

  /** First, and a match: no file before it matches; and none only when no file does. */
  lemma {:induction false} FirstMatchIsFirst(files: seq<Entry>, component: seq<Byte>)
    ensures match FirstMatch(files, component)
            case None => forall i :: 0 <= i < |files| ==> !NameMatches(component, files[i].name)
            case Some(found) => exists i :: 0 <= i < |files| && files[i] == found && NameMatches(component, found.name)
                                            && forall j :: 0 <= j < i ==> !NameMatches(component, files[j].name)
  {
    if files != [] && !NameMatches(component, files[0].name) {
      FirstMatchIsFirst(files[1..], component);
      match FirstMatch(files[1..], component)
      case None =>
      case Some(found) =>
        var i :| 0 <= i < |files[1..]| && files[1..][i] == found
                 && forall j :: 0 <= j < i ==> !NameMatches(component, files[1..][j].name);
        forall j | 0 <= j < i + 1 ensures !NameMatches(component, files[j].name) {
          if j > 0 {
            assert files[j] == files[1..][j - 1];
          }
        }
        assert files[i + 1] == found;
    }
  }

  datatype FindContext = FindContext(component: seq<Byte>, found: Entry, isFound: bool)

  function FatFindVisit(raw: Raw, find: FindContext): (FindContext, bool) {
    if raw[0] == 0 then (find, false)
    else if Skipped(raw) then (find, true)
    else
      var entry := EntryRead(raw);
      if !NameMatches(find.component, entry.name) then (find, true)
      else (find.(found := entry, isFound := true), false)
  }

  /** What the finder stops on is the first match among the files listed. */
  lemma {:induction false} FindingFinds(raws: seq<Raw>, find: FindContext)
    ensures VisitAll(FatFindVisit, raws, find).0 ==
            match FirstMatch(Listed(raws), find.component)
            case None => find
            case Some(entry) => find.(found := entry, isFound := true)
    decreases |raws|
  {
    if raws != [] && raws[0][0] != 0 {
      FindingFinds(raws[1..], find);
    }
  }

  /** The path of the lookup: each component the first match in the directory the one before it names. */
  function Walked(image: Image, current: Entry, parts: seq<seq<Byte>>): Option<Entry>
    requires WellLaid(image)
    decreases |parts|
  {
    if parts == [] then Some(current)
    else if !IsDirectory(current) then None
    else
      match FirstMatch(Listed(Entries(image, current.firstCluster)), parts[0])
      case None => None
      case Some(entry) => Walked(image, entry, parts[1..])
  }

  lemma WalkedStep(image: Image, current: Entry, part: seq<Byte>, rest: seq<seq<Byte>>)
    requires WellLaid(image)
    ensures Walked(image, current, []) == Some(current)
    ensures Walked(image, current, [part] + rest) ==
            if !IsDirectory(current) then None
            else
              match FirstMatch(Listed(Entries(image, current.firstCluster)), part)
              case None => None
              case Some(entry) => Walked(image, entry, rest)
  {
    assert ([part] + rest)[1..] == rest;
  }

  /** One directory searched for a component. */
  method Find(image: Image, current: Entry, component: seq<Byte>) returns (found: Option<Entry>)
    requires WellLaid(image)
    ensures found == FirstMatch(Listed(Entries(image, current.firstCluster)), component)
  {
    hide WellLaid, Entries, Listed, NameMatches, FirstMatch, VisitAll;
    var find := FatWalkDirectory(image, current.firstCluster, FatFindVisit, FindContext(component, current, false));
    FindingFinds(Entries(image, current.firstCluster), FindContext(component, current, false));
    found := if find.isFound then Some(find.found) else None;
  }

  lemma PathEnds(path: seq<Byte>)
    ensures path[0..] == path && Components(path[|path|..]) == []
  {
  }

  lemma SkipsSeparator(path: seq<Byte>, at: nat)
    requires at < |path| && PartLength(path[at..]) == 0
    ensures Components(path[at..]) == Components(path[at + 1..])
  {
    NextPart(path, at, 0);
  }

  lemma FirstPart(path: seq<Byte>, at: nat, k: nat)
    requires at < |path| && at + k <= |path| && PartLength(path[at..]) == k > 0
    ensures Components(path[at..]) == [path[at..at + k]] + Components(path[at + k..])
  {
    NextPart(path, at, k);
  }

  /** FatImageLookup: iterated first match over what each directory lists. */
  method FatImageLookup(image: Image, path: seq<Byte>) returns (entry: Option<Entry>)
    requires WellLaid(image)
    ensures entry == Walked(image, ROOT, Components(path))
  {
    PathEnds(path);
    hide *;
    var current: Entry := ROOT;
    ghost var goal := Walked(image, ROOT, Components(path));
    var cursor := 0;
    ghost var left := Components(path);
    while cursor < |path|
      invariant 0 <= cursor <= |path| && left == Components(path[cursor..])
      invariant goal == Walked(image, current, left)
    {
      var length := ScanPart(path, cursor);
      if length == 0 {
        SkipsSeparator(path, cursor);
        cursor := cursor + 1;
        continue;
      }
      FirstPart(path, cursor, length);
      var component := path[cursor..cursor + length];
      left := Components(path[cursor + length..]);
      WalkedStep(image, current, component, left);
      if !IsDirectory(current) {
        return None;
      }
      var found := Find(image, current, component);
      if found.None? {
        return None;
      }
      current := found.value;
      cursor := cursor + length;
    }
    WalkedStep(image, current, [], []);
    return Some(current);
  }

  lemma {:induction false} WalkedConcat(image: Image, current: Entry, a: seq<seq<Byte>>, b: seq<seq<Byte>>)
    requires WellLaid(image)
    ensures Walked(image, current, a + b) ==
            match Walked(image, current, a)
            case None => None
            case Some(entry) => Walked(image, entry, b)
    decreases |a|
  {
    if a == [] {
      assert a + b == b;
    } else {
      assert (a + b)[1..] == a[1..] + b;
      match FirstMatch(Listed(Entries(image, current.firstCluster)), a[0])
      case None =>
      case Some(entry) => WalkedConcat(image, entry, a[1..], b);
    }
  }

  /** Looking up p\\q is looking p up and going on with q from there. */
  lemma LookupComposes(image: Image, p: seq<Byte>, sep: Byte, q: seq<Byte>)
    requires WellLaid(image) && IsSeparator(sep)
    ensures Walked(image, ROOT, Components(p + ([sep] + q))) ==
            match Walked(image, ROOT, Components(p))
            case None => None
            case Some(entry) => Walked(image, entry, Components(q))
  {
    ComponentsOfJoined(p, [sep] + q);
    ComponentsAfterSeparator(sep, q);
    WalkedConcat(image, ROOT, Components(p), Components(q));
  }

  /** A file is no directory: behind a path to one nothing is found. */
  lemma NothingBehindFile(image: Image, p: seq<Byte>, sep: Byte, q: seq<Byte>)
    requires WellLaid(image) && IsSeparator(sep) && Components(q) != []
    requires match Walked(image, ROOT, Components(p)) case None => true case Some(entry) => entry.attributes / 16 % 2 == 0
    ensures Walked(image, ROOT, Components(p + ([sep] + q))) == None
  {
    LookupComposes(image, p, sep, q);
  }

  function UpperParts(parts: seq<seq<Byte>>): (r: seq<seq<Byte>>)
    ensures |r| == |parts|
  {
    if parts == [] then [] else [UpperAll(parts[0])] + UpperParts(parts[1..])
  }

  lemma {:induction false} FirstMatchCaseBlind(files: seq<Entry>, component: seq<Byte>)
    ensures FirstMatch(files, component) == FirstMatch(files, UpperAll(component))
  {
    UpperTwice(component);
    if files != [] {
      FirstMatchCaseBlind(files[1..], component);
    }
  }

  lemma {:induction false} WalkedCaseBlind(image: Image, current: Entry, parts: seq<seq<Byte>>)
    requires WellLaid(image)
    ensures Walked(image, current, parts) == Walked(image, current, UpperParts(parts))
    decreases |parts|
  {
    if parts != [] {
      var files := Listed(Entries(image, current.firstCluster));
      FirstMatchCaseBlind(files, parts[0]);
      match FirstMatch(files, parts[0])
      case None =>
      case Some(entry) => WalkedCaseBlind(image, entry, parts[1..]);
    }
  }

  lemma {:induction false} FoldWithoutDots(stack: seq<seq<Byte>>, parts: seq<seq<Byte>>)
    requires [DOT] !in parts && [DOT, DOT] !in parts
    ensures Fold(stack, parts) == stack + UpperParts(parts)
    decreases |parts|
  {
    if parts != [] {
      assert parts[0] in parts;
      FoldWithoutDots(Push(stack, parts[0]), parts[1..]);
      ConcatAssoc(stack, [UpperAll(parts[0])], UpperParts(parts[1..]));
    }
  }

  /** A path with no dot components names the same file before and after it is resolved. */
  lemma ResolvedPathFindsSame(image: Image, path: seq<Byte>)
    requires WellLaid(image) && [DOT] !in Components(path) && [DOT, DOT] !in Components(path)
    ensures Walked(image, ROOT, Components(Resolved([], path))) == Walked(image, ROOT, Components(path))
  {
    var parts := Components(path);
    assert Components([]) + parts == parts;
    PartsAreParts([], path);
    JoinSplits(Fold([], parts));
    FoldWithoutDots([], parts);
    assert [] + UpperParts(parts) == UpperParts(parts);
    WalkedCaseBlind(image, ROOT, parts);
  }
}
