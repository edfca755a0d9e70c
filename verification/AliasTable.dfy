/** DOS_ALIAS_TABLE: one directory's listing noted entry by entry, then its aliases handed out and looked up. */
module AliasTable {
  import opened Machine
  import opened AliasName
  import opened AliasText
  import opened AliasAssign

  const POOL_SIZE := 65536
  const DIRECTORY_SIZE := 300

  /** The NUL-terminated string at `at`. */
  function CString(pool: seq<char>, at: nat): string
    decreases |pool| - at
  {
    if at >= |pool| || pool[at] == '\0' then "" else [pool[at]] + CString(pool, at + 1)
  }

  /** `s` and its NUL are in place at `at`. */
  ghost predicate StringAt(pool: seq<char>, at: nat, s: string) {
    && at + |s| < |pool|
    && pool[at..at + |s|] == s
    && pool[at + |s|] == '\0'
    && '\0' !in s
  }

  lemma {:induction false} StringReads(pool: seq<char>, at: nat, s: string)
    requires StringAt(pool, at, s)
    ensures CString(pool, at) == s
    decreases |s|
  {
    if s != "" {
      assert pool[at] == s[0] && pool[at + 1..at + |s|] == s[1..];
      StringReads(pool, at + 1, s[1..]);
    }
  }

  /** A string below `end` outlives any change above it. */
  lemma StringStays(was: seq<char>, now: seq<char>, end: nat, at: nat, s: string)
    requires StringAt(was, at, s) && at + |s| < end <= |was| == |now| && now[..end] == was[..end]
    ensures StringAt(now, at, s)
  {
    assert now[at..at + |s|] == now[..end][at..at + |s|] == was[..end][at..at + |s|] == was[at..at + |s|];
    assert now[at + |s|] == now[..end][at + |s|] == was[..end][at + |s|];
  }

  /** "." and "..", which the listing carries and DOS names do not cover. */
  predicate IsDots(name: string) {
    name == "." || name == ".."
  }

  /** The entry has a DOS name in the table: its own, or a place in the queue for an alias. */
  ghost predicate Covered(taken: seq<string>, longs: seq<string>, longName: string, shortName: string) {
    || IsDots(longName)
    || (shortName != "" && Recorded(shortName) in taken)
    || (shortName == "" && IsShortName(longName) && Recorded(longName) in taken)
    || (shortName == "" && !IsShortName(longName) && longName in longs)
  }

  ghost predicate AllCovered(taken: seq<string>, longs: seq<string>, noted: seq<(string, string)>) {
    forall n :: 0 <= n < |noted| ==> Covered(taken, longs, noted[n].0, noted[n].1)
  }

  /** A table only grows, so what it covers stays covered. */
  lemma CoveredGrows(taken: seq<string>, taken': seq<string>, longs: seq<string>, longs': seq<string>,
                     noted: seq<(string, string)>, longName: string, shortName: string)
    requires AllCovered(taken, longs, noted) && taken <= taken' && longs <= longs'
    requires Covered(taken', longs', longName, shortName)
    ensures AllCovered(taken', longs', noted + [(longName, shortName)])
  {
    var noted' := noted + [(longName, shortName)];
    forall n | 0 <= n < |noted'|
      ensures Covered(taken', longs', noted'[n].0, noted'[n].1)
    {
      if n < |noted| {
        assert Covered(taken, longs, noted[n].0, noted[n].1);
        StillIn(taken, taken');
        StillIn(longs, longs');
      }
    }
  }

  lemma StillIn(names: seq<string>, names': seq<string>)
    requires names <= names'
    ensures forall name :: name in names ==> name in names'
  {
    assert forall i :: 0 <= i < |names| ==> names'[i] == names[i];
  }

  /** The directory name a table keeps. */
  function KeptDirectory(directory: string): string {
    Prefix(directory, Min(|directory|, DIRECTORY_SIZE - 1))
  }

  /**
   * Asking the table begun for one directory about another: below 300 characters it is the same name but for case;
   * a longer name is kept cut, and the table answers for its first 299 characters, and not for the name itself.
   */
  lemma BegunIsFor(begun: string, asked: string)
    ensures SameText(KeptDirectory(begun), asked)
       <==> if |begun| < 300 then SameText(begun, asked) else |asked| == 299 && SameText(begun[..299], asked)
    ensures SameText(KeptDirectory(begun), begun) <==> |begun| < 300
  {
    assert |UpperAll(KeptDirectory(begun))| == |KeptDirectory(begun)| && |UpperAll(asked)| == |asked|;
    assert |UpperAll(begun)| == |begun|;
  }

  class DosAliasTable {
    var Taken: seq<string>
    var NeedyName: seq<nat>
    var NeedyAlias: seq<string>
    var Directory: string
    const Pool: array<char>
    var PoolUsed: nat
    var IsOverflow: bool

    /** The long names that were put in the pool, in order. */
    ghost var Longs: seq<string>
    /** Every entry noted so far, as its long and short name. */
    ghost var Noted: seq<(string, string)>

    ghost predicate Valid()
      reads this, Pool
    {
      && Pool.Length == POOL_SIZE && PoolUsed <= POOL_SIZE
      && |Taken| <= MAX_TAKEN
      && |NeedyName| == |NeedyAlias| == |Longs| <= MAX_NEEDY
      && (forall i :: 0 <= i < |Longs| ==>
            NeedyName[i] + |Longs[i]| < PoolUsed && StringAt(Pool[..], NeedyName[i], Longs[i]))
      && (forall i :: 0 <= i < |Longs| ==> !IsShortName(Longs[i]))
      && (!IsOverflow ==> AllCovered(Taken, Longs, Noted))
    }

    /** An empty table for a directory, whose name is kept as far as there is room. */
    constructor DosAliasTableBegin(directory: string)
      ensures Valid() && Taken == [] && Longs == [] && Noted == [] && !IsOverflow && fresh(Pool)
      ensures Directory == KeptDirectory(directory)
    {
      Taken, NeedyName, NeedyAlias := [], [], [];
      var copy := "";
      var index := 0;
      while index < |directory| && index < DIRECTORY_SIZE - 1
        invariant 0 <= index <= |directory| && index <= DIRECTORY_SIZE - 1
        invariant copy == directory[..index]
      {
        copy := copy + [directory[index]];
        index := index + 1;
      }
      Directory := copy;
      Pool := new char[POOL_SIZE];
      PoolUsed := 0;
      IsOverflow := false;
      Longs, Noted := [], [];
    }

    /** Is the table `directory`'s? Case-blind, on the name as far as it was kept. */
    method DosAliasTableIsFor(directory: string) returns (isFor: bool)
      ensures isFor <==> SameText(Directory, directory)
      ensures |directory| >= DIRECTORY_SIZE && |Directory| < DIRECTORY_SIZE ==> !isFor
    {
      isFor := DosAliasSameText(Directory, directory, -1);
      assert isFor ==> |UpperAll(Directory)| == |UpperAll(directory)|;
    }

    /** The entry needs a DOS name of its own kept, or an alias. */
    predicate NeedsTaken(longName: string, shortName: string) {
      !IsDots(longName) && (shortName != "" || IsShortName(longName))
    }

    predicate NeedsAlias(longName: string, shortName: string) {
      !IsDots(longName) && shortName == "" && !IsShortName(longName)
    }

    /** There is no room left for what the entry needs. */
    predicate Overflows(longName: string, shortName: string)
      reads this
    {
      || (NeedsTaken(longName, shortName) && |Taken| >= 4096)
      || (NeedsAlias(longName, shortName) && (|NeedyName| >= 2048 || PoolUsed + |longName| + 1 > 65536))
    }

    /** One 8.3 name recorded, cut to twelve characters; a full table remembers that it overflowed. */
    method DosAliasTake(name: string)
      requires |Taken| <= MAX_TAKEN
      modifies this`Taken, this`IsOverflow
      ensures |old(Taken)| >= MAX_TAKEN ==> Taken == old(Taken) && IsOverflow
      ensures |old(Taken)| < MAX_TAKEN ==> Taken == old(Taken) + [Recorded(name)] && IsOverflow == old(IsOverflow)
    {
      if |Taken| >= MAX_TAKEN {
        IsOverflow := true;
        return;
      }
      var copy := "";
      var index := 0;
      while index < |name| && index < NAME_LENGTH
        invariant index <= |name| && index <= NAME_LENGTH
        invariant copy == UpperAll(name[..index])
      {
        copy := copy + [Upper(name[index])];
        index := index + 1;
      }
      assert name[..index] == AliasName.Take(name, NAME_LENGTH);
      Taken := Taken + [copy];
    }

    /** One directory entry: its own 8.3 name is taken, or its long name is queued for an alias. */
    method DosAliasTableNote(longName: string, shortName: string)
      requires Valid() && '\0' !in longName
      modifies this, Pool
      ensures Valid()
      ensures Noted == old(Noted) + [(longName, shortName)]
      ensures IsOverflow <==> old(IsOverflow) || old(Overflows(longName, shortName))
      ensures var isTaken := NeedsTaken(longName, shortName) && !old(Overflows(longName, shortName));
              Taken == old(Taken) + if isTaken then [Recorded(if shortName != "" then shortName else longName)] else []
      ensures var isQueued := NeedsAlias(longName, shortName) && !old(Overflows(longName, shortName));
              && Longs == old(Longs) + (if isQueued then [longName] else [])
              && PoolUsed == old(PoolUsed) + if isQueued then |longName| + 1 else 0
      ensures longName == "." || longName == ".." ==>
                Taken == old(Taken) && Longs == old(Longs) && IsOverflow == old(IsOverflow)
      ensures Directory == old(Directory)
    {
      if IsDots(longName) {
        NoteAsIs(longName, shortName);
        return;
      }
      if shortName != "" {
        NoteTaken(longName, shortName, shortName);
        return;
      }
      var isShort := DosAliasIsShortName(longName);
      if isShort {
        NoteTaken(longName, shortName, longName);
        return;
      }
      if |NeedyName| >= MAX_NEEDY || PoolUsed + |longName| + 1 > POOL_SIZE {
        IsOverflow := true;
        Noted := Noted + [(longName, shortName)];
        return;
      }
      NoteNeedy(longName);
    }

    ghost method NoteAsIs(longName: string, shortName: string)
      requires Valid() && IsDots(longName)
      modifies this`Noted
      ensures Valid() && Noted == old(Noted) + [(longName, shortName)]
    {
      if !IsOverflow {
        CoveredGrows(Taken, Taken, Longs, Longs, Noted, longName, shortName);
      }
      Noted := Noted + [(longName, shortName)];
    }

    /** The entry's 8.3 name `name` recorded. */
    method NoteTaken(ghost longName: string, ghost shortName: string, name: string)
      requires Valid()
      requires if shortName != "" then name == shortName else name == longName && IsShortName(longName)
      modifies this`Taken, this`IsOverflow, this`Noted
      ensures Valid() && Noted == old(Noted) + [(longName, shortName)]
      ensures IsOverflow <==> old(IsOverflow) || |old(Taken)| >= MAX_TAKEN
      ensures Taken == old(Taken) + if |old(Taken)| < MAX_TAKEN then [Recorded(name)] else []
    {
      DosAliasTake(name);
      if !IsOverflow {
        assert Taken[|Taken| - 1] == Recorded(name);
        CoveredGrows(old(Taken), Taken, Longs, Longs, Noted, longName, shortName);
      }
      Noted := Noted + [(longName, shortName)];
    }

    /** The long name put in the pool, with an empty alias until the table is finished. */
    method NoteNeedy(longName: string)
      requires Valid() && '\0' !in longName && !IsShortName(longName)
      requires |NeedyName| < MAX_NEEDY && PoolUsed + |longName| + 1 <= POOL_SIZE
      modifies this`PoolUsed, this`NeedyName, this`NeedyAlias, this`Longs, this`Noted, Pool
      ensures Valid() && Noted == old(Noted) + [(longName, "")]
      ensures Longs == old(Longs) + [longName] && PoolUsed == old(PoolUsed) + |longName| + 1
    {
      var start := PoolUsed;
      ghost var was := Pool[..];
      PutString(longName);
      NeedyName := NeedyName + [start];
      NeedyAlias := NeedyAlias + [""];
      Longs := Longs + [longName];
      forall i | 0 <= i < |old(Longs)|
        ensures StringAt(Pool[..], NeedyName[i], Longs[i])
      {
        assert StringAt(was, old(NeedyName)[i], old(Longs)[i]);
        StringStays(was, Pool[..], start, NeedyName[i], Longs[i]);
      }
      if !IsOverflow {
        assert Longs[|Longs| - 1] == longName;
        CoveredGrows(Taken, Taken, old(Longs), Longs, Noted, longName, "");
      }
      Noted := Noted + [(longName, "")];
    }

    /** The name and its NUL copied to the end of the pool; nothing already there changes. */
    method PutString(name: string)
      requires Pool.Length == POOL_SIZE && PoolUsed + |name| + 1 <= POOL_SIZE && '\0' !in name
      modifies this`PoolUsed, Pool
      ensures PoolUsed == old(PoolUsed) + |name| + 1
      ensures StringAt(Pool[..], old(PoolUsed), name)
      ensures Pool[..old(PoolUsed)] == old(Pool[..PoolUsed])
    {
      var index := 0;
      ghost var start := PoolUsed;
      while index < |name|
        invariant 0 <= index <= |name| && PoolUsed == start + index
        invariant Pool[start..PoolUsed] == name[..index]
        invariant Pool[..start] == old(Pool[..PoolUsed])
      {
        Pool[PoolUsed] := name[index];
        PoolUsed := PoolUsed + 1;
        index := index + 1;
      }
      Pool[PoolUsed] := '\0';
      PoolUsed := PoolUsed + 1;
      assert Pool[..][start..start + |name|] == Pool[start..start + |name|] == name[..|name|];
    }

    /** Does the directory already have `alias`, or has one of the first `given` entries got it? */
    method DosAliasIsTaken(alias: string, given: nat) returns (isTaken: bool)
      requires given <= |NeedyAlias|
      ensures isTaken <==> Blocked(Taken + NeedyAlias[..given], alias)
    {
      ghost var names := Taken + NeedyAlias[..given];
      var index := 0;
      while index < |Taken|
        invariant 0 <= index <= |Taken|
        invariant forall i :: 0 <= i < index ==> !SameText(names[i], alias)
      {
        var same := DosAliasSameText(Taken[index], alias, -1);
        assert names[index] == Taken[index];
        if same {
          return true;
        }
        index := index + 1;
      }
      index := 0;
      while index < given
        invariant 0 <= index <= given
        invariant forall i :: 0 <= i < |Taken| + index ==> !SameText(names[i], alias)
      {
        var same := DosAliasSameText(NeedyAlias[index], alias, -1);
        assert names[|Taken| + index] == NeedyAlias[index];
        if same {
          return true;
        }
        index := index + 1;
      }
      isTaken := false;
    }

    /** Every queued entry gets its alias, the earlier ones first. */
    method DosAliasTableFinish()
      requires Valid()
      modifies this`NeedyAlias
      ensures Valid()
      ensures NeedyAlias == Assign(Taken, Longs)
    {
      hide AllCovered, IsShortName, StringAt, AliasOf, FirstFree;
      var entry := 0;
      while entry < |NeedyName|
        invariant Valid() && 0 <= entry <= |NeedyName|
        invariant NeedyAlias[..entry] == Assign(Taken, Longs[..entry])
      {
        FirstFreeAlias(entry);
        assert Longs[..entry + 1][..entry] == Longs[..entry];
        assert NeedyAlias[..entry + 1] == NeedyAlias[..entry] + [NeedyAlias[entry]];
        entry := entry + 1;
      }
      assert Longs[..entry] == Longs && NeedyAlias[..entry] == NeedyAlias;
    }

    /** The number counted up until its alias is free. */
    method FirstFreeAlias(entry: nat)
      requires Valid() && entry < |NeedyName|
      modifies this`NeedyAlias
      ensures NeedyAlias == old(NeedyAlias)[entry :=
                AliasOf(Longs[entry], FirstFree(Longs[entry], Taken + old(NeedyAlias)[..entry]))]
    {
      hide Search, AllCovered, IsShortName, StringAt, AliasOf, TakenNumbers;
      ghost var before := NeedyAlias;
      ghost var isTaken := TakenNumbers(Longs[entry], Taken + before[..entry]);
      var number := 1;
      while number <= MAX_NUMBER
        invariant 1 <= number <= MAX_NUMBER + 1
        invariant |NeedyAlias| == |before| && NeedyAlias == before[entry := NeedyAlias[entry]]
        invariant Search(isTaken, 1) == Search(isTaken, if number <= MAX_NUMBER then number else MAX_NUMBER)
        invariant number > 1 ==> NeedyAlias[entry] == AliasOf(Longs[entry], number - 1)
      {
        SearchStep(isTaken, number);
        var taken := TryNumber(entry, number, before);
        if !taken {
          return;
        }
        number := number + 1;
      }
    }

    /** The alias with `number` written for the entry; is it taken? */
    method TryNumber(entry: nat, number: nat, ghost before: seq<string>) returns (taken: bool)
      requires Valid() && entry < |NeedyName|
      requires |before| == |NeedyAlias| && NeedyAlias == before[entry := NeedyAlias[entry]]
      modifies this`NeedyAlias
      ensures NeedyAlias == before[entry := AliasOf(Longs[entry], number)]
      ensures taken == TakenNumbers(Longs[entry], Taken + before[..entry])(number)
    {
      StringReads(Pool[..], NeedyName[entry], Longs[entry]);
      var alias := DosAliasMake(CString(Pool[..], NeedyName[entry]), number);
      NeedyAlias := NeedyAlias[entry := alias];
      assert NeedyAlias[..entry] == before[..entry];
      taken := DosAliasIsTaken(alias, entry);
    }

    /** The alias given to `longName`, or none. */
    method DosAliasTableAliasOf(longName: string) returns (alias: Option<string>)
      requires Valid()
      ensures alias == FindAlias(Longs, NeedyAlias, longName)
    {
      var index := 0;
      while index < |NeedyName|
        invariant 0 <= index <= |NeedyName|
        invariant FindAlias(Longs, NeedyAlias, longName) == FindAlias(Longs[index..], NeedyAlias[index..], longName)
      {
        StringReads(Pool[..], NeedyName[index], Longs[index]);
        var same := DosAliasSameText(CString(Pool[..], NeedyName[index]), longName, -1);
        if NeedyAlias[index] != "" && same {
          return Some(NeedyAlias[index]);
        }
        assert Longs[index..][1..] == Longs[index + 1..] && NeedyAlias[index..][1..] == NeedyAlias[index + 1..];
        index := index + 1;
      }
      alias := None;
    }

    /** The long name behind the first `length` characters of `alias`, or none. */
    method DosAliasTableLongOf(alias: string, length: int) returns (longName: Option<string>)
      requires Valid()
      ensures longName == FindLong(Longs, NeedyAlias, Prefix(alias, length))
    {
      var index := 0;
      while index < |NeedyName|
        invariant 0 <= index <= |NeedyName|
        invariant FindLong(Longs, NeedyAlias, Prefix(alias, length))
               == FindLong(Longs[index..], NeedyAlias[index..], Prefix(alias, length))
      {
        var same := DosAliasSameText(alias, NeedyAlias[index], length);
        if NeedyAlias[index] != "" && same {
          StringReads(Pool[..], NeedyName[index], Longs[index]);
          return Some(CString(Pool[..], NeedyName[index]));
        }
        assert Longs[index..][1..] == Longs[index + 1..] && NeedyAlias[index..][1..] == NeedyAlias[index + 1..];
        index := index + 1;
      }
      longName := None;
    }

    /**
     * A finished table that did not overflow: no alias is, in either case, a short name the volume gave
     * or an 8.3 name of the listing, and every other entry noted has an alias of its own.
     */
    lemma FinishedTableNamesAll(n: nat)
      requires Valid() && !IsOverflow && NeedyAlias == Assign(Taken, Longs)
      requires n < |Noted| && Noted[n].0 != "." && Noted[n].0 != ".."
      ensures var (longName, shortName) := Noted[n];
              if shortName != "" then forall e :: 0 <= e < |NeedyAlias| ==> !SameText(shortName, NeedyAlias[e])
              else if IsShortName(longName) then
                forall e :: 0 <= e < |NeedyAlias| ==> !SameText(longName, NeedyAlias[e])
              else FindAlias(Longs, NeedyAlias, longName).Some?
      ensures forall a, b :: 0 <= a < b < |NeedyAlias| ==> !SameText(NeedyAlias[a], NeedyAlias[b])
    {
      var (longName, shortName) := Noted[n];
      AliasesDistinct(Taken, Longs);
      assert Covered(Taken, Longs, longName, shortName);
      if shortName != "" {
        AliasAvoidsRecorded(Taken, Longs, shortName);
      } else if IsShortName(longName) {
        AliasAvoidsRecorded(Taken, Longs, longName);
      } else {
        AliasRoundTrip(Taken, Longs, longName);
      }
    }
  }
}
