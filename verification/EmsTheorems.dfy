/** The window cache refines flat expanded memory; save and restore, with the exact condition they need. */
module EmsTheorems {
  import opened Machine
  import opened EmsModel

  lemma {:induction false} SourceMiss(e: Ems, h: nat, p: nat, k: nat)
    requires e.Live(h, p) && k <= |e.windows| <= |e.frame|
    requires forall j :: 0 <= j < k ==> !e.windows[j].Shows(h, p)
    ensures Source(e, h, p, k) == e.Backing(h, p)
  {
    if k > 0 {
      SourceMiss(e, h, p, k - 1);
    }
  }

  lemma {:induction false} SourceHit(e: Ems, h: nat, p: nat, k: nat, j: nat)
    requires e.Live(h, p) && j < k <= |e.windows| <= |e.frame| && NoAlias(e.windows)
    requires e.windows[j].Shows(h, p)
    ensures Source(e, h, p, k) == e.frame[j]
  {
    if k - 1 != j {
      SourceHit(e, h, p, k - 1, j);
    }
  }

  /** While no page is in two windows, a page's contents are its window's bytes, or else its backing bytes. */
  lemma LogicalIs(e: Ems, h: nat, p: nat)
    requires e.Live(h, p) && |e.windows| <= |e.frame| && NoAlias(e.windows)
    ensures forall j :: 0 <= j < |e.windows| && e.windows[j].Shows(h, p) ==> Logical(e, h, p) == e.frame[j]
    ensures (forall j :: 0 <= j < |e.windows| ==> !e.windows[j].Shows(h, p)) ==> Logical(e, h, p) == e.Backing(h, p)
  {
    if j :| 0 <= j < |e.windows| && e.windows[j].Shows(h, p) {
      SourceHit(e, h, p, |e.windows|, j);
    } else {
      SourceMiss(e, h, p, |e.windows|);
    }
  }

  // ---- the invariant ----

  lemma {:induction false} SumUpdate(handles: seq<Handle>, h: nat, handle: Handle)
    requires h < |handles|
    ensures Sum(handles[h := handle]) == Sum(handles) - |handles[h].pages| + |handle.pages|
  {
    var after := handles[h := handle];
    if h == 0 {
      assert after[1..] == handles[1..];
    } else {
      assert after[1..] == handles[1..][h - 1 := handle];
      SumUpdate(handles[1..], h - 1, handle);
    }
  }

  lemma {:induction false} SumAtLeast(handles: seq<Handle>, h: nat)
    requires h < |handles|
    ensures |handles[h].pages| <= Sum(handles)
  {
    if h > 0 {
      SumAtLeast(handles[1..], h - 1);
    }
  }

  lemma {:induction false} SumOfNone(handles: seq<Handle>)
    requires forall h :: 0 <= h < |handles| ==> handles[h].pages == []
    ensures Sum(handles) == 0
  {
    if handles != [] {
      SumOfNone(handles[1..]);
    }
  }

  lemma SetBackingValid(e: Ems, h: nat, p: nat, content: Page)
    requires Valid(e) && e.Live(h, p)
    ensures Valid(e.SetBacking(h, p, content))
    ensures forall a: nat, b: nat :: e.SetBacking(h, p, content).Live(a, b) <==> e.Live(a, b)
  {
    SumUpdate(e.handles, h, e.handles[h].(pages := e.handles[h].pages[p := content]));
  }

  lemma WriteBackValid(e: Ems, w: nat)
    requires Valid(e) && w < WINDOWS
    ensures Valid(WriteBack(e, w))
    ensures forall a: nat, b: nat :: WriteBack(e, w).Live(a, b) <==> e.Live(a, b)
  {
    if e.windows[w].isMapped {
      SetBackingValid(e, e.windows[w].handle, e.windows[w].page, e.frame[w]);
    }
  }

  lemma MapValid(e: Ems, w: nat, page: Word, h: Word)
    requires Valid(e)
    ensures Valid(MapPage(e, w, page, h).0)
    ensures forall a: nat, b: nat :: MapPage(e, w, page, h).0.Live(a, b) <==> e.Live(a, b)
  {
    if w < WINDOWS {
      WriteBackValid(e, w);
    }
  }

  lemma UnmapValid(e: Ems, w: nat)
    requires Valid(e) && w < WINDOWS
    ensures Valid(Unmap(e, w))
    ensures forall a: nat, b: nat :: Unmap(e, w).Live(a, b) <==> e.Live(a, b)
  {
    WriteBackValid(e, w);
  }

  lemma AllocateValid(e: Ems, pages: nat, buffer: Option<seq<Page>>)
    requires Valid(e) && (buffer.Some? ==> |buffer.value| == pages)
    ensures Valid(AllocatePages(e, pages, buffer).0)
  {
    var h := FirstFree(e.handles);
    if AllocatePages(e, pages, buffer).1 == OK {
      SumUpdate(e.handles, h, Handle(true, buffer.value, false, e.handles[h].savedMap));
    }
  }

  lemma DeallocateValid(e: Ems, h: nat)
    requires Valid(e)
    ensures Valid(DeallocatePages(e, h).0)
  {
    if e.Owns(h) {
      SumUpdate(e.handles, h, Handle(false, [], false, e.handles[h].savedMap));
    }
  }

  lemma {:induction false} FlushValid(e: Ems, h: nat, k: nat)
    requires Valid(e) && k <= WINDOWS
    ensures Valid(Flush(e, h, k))
    ensures forall a: nat, b: nat :: Flush(e, h, k).Live(a, b) <==> e.Live(a, b)
    ensures Flush(e, h, k).used == e.used && Flush(e, h, k).total == e.total
  {
    if k > 0 {
      FlushValid(e, h, k - 1);
      WriteBackValid(Flush(e, h, k - 1), k - 1);
    }
  }

  lemma ReplacedValid(e: Ems, h: nat, newPages: nat, buffer: Option<seq<Page>>)
    requires Valid(e) && e.Owns(h) && newPages <= 0xFFFF
    requires newPages > 0 ==> buffer.Some? && |buffer.value| == newPages
    requires e.used - |e.handles[h].pages| + newPages <= e.total
    ensures Valid(Replaced(e, h, newPages, buffer))
  {
    SumUpdate(e.handles, h, Replaced(e, h, newPages, buffer).handles[h]);
  }

  lemma ReallocateValid(e: Ems, h: nat, newPages: nat, buffer: Option<seq<Page>>)
    requires Valid(e) && newPages <= 0xFFFF && (buffer.Some? ==> |buffer.value| == newPages)
    ensures Valid(ReallocatePages(e, h, newPages, buffer).0)
  {
    if e.Owns(h) {
      FlushValid(e, h, WINDOWS);
      FlushKeepsSize(e, h, WINDOWS);
      var flushed := Flush(e, h, WINDOWS);
      if (newPages == 0 || buffer.Some?) && flushed.used - |flushed.handles[h].pages| + newPages <= flushed.total {
        ReplacedValid(flushed, h, newPages, buffer);
      }
    }
  }

  lemma {:induction false} FlushKeepsSize(e: Ems, h: nat, k: nat)
    requires Valid(e) && k <= WINDOWS
    ensures forall a :: 0 <= a < HANDLES ==>
              && |Flush(e, h, k).handles[a].pages| == |e.handles[a].pages|
              && Flush(e, h, k).handles[a].inUse == e.handles[a].inUse
  {
    if k > 0 {
      FlushKeepsSize(e, h, k - 1);
      FlushValid(e, h, k - 1);
    }
  }

  lemma {:induction false} RestoreWindowsValid(e: Ems, saved: seq<Window>, k: nat)
    requires Valid(e) && k <= |saved| == WINDOWS
    ensures Valid(RestoreWindows(e, saved, k))
    ensures forall a: nat, b: nat :: RestoreWindows(e, saved, k).Live(a, b) <==> e.Live(a, b)
  {
    if k > 0 {
      RestoreWindowsValid(e, saved, k - 1);
      var before := RestoreWindows(e, saved, k - 1);
      MapValid(before, k - 1, saved[k - 1].page, saved[k - 1].handle);
      UnmapValid(before, k - 1);
    }
  }

  // ---- contents ----

  /** Two states with the same page, window bytes and backing bytes alike, give it the same contents. */
  lemma SameLogical(was: Ems, now: Ems, h: nat, p: nat)
    requires |was.windows| == |was.frame| == |now.windows| == |now.frame| && was.Live(h, p) && now.Live(h, p)
    requires NoAlias(was.windows) && NoAlias(now.windows)
    requires forall j :: 0 <= j < |was.windows| && was.windows[j].Shows(h, p) ==>
               if now.windows[j].Shows(h, p) then now.frame[j] == was.frame[j]
               else now.Backing(h, p) == was.frame[j]
                    && forall i :: 0 <= i < |now.windows| ==> !now.windows[i].Shows(h, p)
    requires (forall j :: 0 <= j < |was.windows| ==> !was.windows[j].Shows(h, p)) ==>
               && now.Backing(h, p) == was.Backing(h, p)
               && forall i :: 0 <= i < |now.windows| && now.windows[i].Shows(h, p) ==> now.frame[i] == was.Backing(h, p)
    ensures Logical(now, h, p) == Logical(was, h, p)
  {
    LogicalIs(was, h, p);
    LogicalIs(now, h, p);
  }

  /**
   * Mapping a page that no other window shows, or unmapping: every page keeps its contents, the window
   * shows the page asked for, and no other window's bytes or mapping change.
   */
  lemma MapKeepsContents(e: Ems, w: nat, page: Word, h: Word)
    requires Valid(e) && NoAlias(e.windows) && w < WINDOWS && e.Owns(h)
    requires page == UNMAP || page < |e.handles[h].pages|
    requires forall j :: 0 <= j < WINDOWS && j != w && page != UNMAP ==> !e.windows[j].Shows(h, page)
    ensures var after := MapPage(e, w, page, h).0;
            && MapPage(e, w, page, h).1 == OK
            && NoAlias(after.windows)
            && |after.windows| == |after.frame| == WINDOWS
            && SameContents(e, after)
            && (forall j :: 0 <= j < WINDOWS && j != w ==>
                  after.windows[j] == e.windows[j] && after.frame[j] == e.frame[j])
            && (if page == UNMAP then !after.windows[w].isMapped
                else after.windows[w] == Window(h, page, true) && after.frame[w] == Logical(e, h, page))
  {
    var after := MapPage(e, w, page, h).0;
    WriteBackValid(e, w);
    forall a: nat, b: nat | e.Live(a, b)
      ensures after.Live(a, b) && Logical(after, a, b) == Logical(e, a, b)
    {
      SameLogical(e, after, a, b);
    }
    if page != UNMAP {
      LogicalIs(after, h, page);
    }
  }

  /** Mapping a page another window already shows is what brings an alias about, and nothing else does. */
  lemma MapAliasesIff(e: Ems, w: nat, page: Word, h: Word)
    requires Valid(e) && NoAlias(e.windows)
    requires w < WINDOWS && e.Owns(h) && page < |e.handles[h].pages| && page != UNMAP
    ensures NoAlias(MapPage(e, w, page, h).0.windows)
       <==> forall j :: 0 <= j < WINDOWS && j != w ==> !e.windows[j].Shows(h, page)
  {
    var after := MapPage(e, w, page, h).0;
    if j :| 0 <= j < WINDOWS && j != w && e.windows[j].Shows(h, page) {
      assert after.windows[j].Shows(h, page) && after.windows[w].Shows(h, page);
    }
  }

  /** A store through the frame changes the page the window shows, to the bytes stored, and no other page. */
  lemma GuestWriteChangesShownPage(e: Ems, w: nat, content: Page)
    requires Valid(e) && NoAlias(e.windows) && w < WINDOWS
    ensures var after := GuestWrite(e, w, content);
            && Valid(after)
            && forall h: nat, p: nat :: e.Live(h, p) ==>
                 && after.Live(h, p)
                 && Logical(after, h, p) == if e.windows[w].Shows(h, p) then content else Logical(e, h, p)
  {
    var after := GuestWrite(e, w, content);
    forall h: nat, p: nat | e.Live(h, p)
      ensures after.Live(h, p) && Logical(after, h, p) == if e.windows[w].Shows(h, p) then content else Logical(e, h, p)
    {
      LogicalIs(e, h, p);
      LogicalIs(after, h, p);
    }
  }

  /** A new handle is a new owner: the pages of every other handle keep their contents. */
  lemma AllocateKeepsContents(e: Ems, pages: nat, buffer: Option<seq<Page>>)
    requires Valid(e) && NoAlias(e.windows) && (buffer.Some? ==> |buffer.value| == pages)
    ensures var (after, code, h) := AllocatePages(e, pages, buffer);
            && after.windows == e.windows && after.frame == e.frame
            && SameContents(e, after)
            && (code == OK ==> !e.Owns(h) && after.Owns(h) && after.handles[h].pages == buffer.value)
  {
    var after := AllocatePages(e, pages, buffer).0;
    forall h: nat, p: nat | e.Live(h, p)
      ensures after.Live(h, p) && Logical(after, h, p) == Logical(e, h, p)
    {
      SameLogical(e, after, h, p);
    }
  }

  /** Freeing a handle takes its own pages only, and leaves no window showing them. */
  lemma DeallocateKeepsContents(e: Ems, h: nat)
    requires Valid(e) && NoAlias(e.windows) && e.Owns(h)
    ensures var after := DeallocatePages(e, h).0;
            && |after.windows| == |after.frame| == WINDOWS && NoAlias(after.windows)
            && (forall p: nat :: !after.Live(h, p))
            && (forall j :: 0 <= j < WINDOWS && after.windows[j].isMapped ==> after.windows[j].handle != h)
            && forall a: nat, p: nat :: a != h && e.Live(a, p) ==>
                 after.Live(a, p) && Logical(after, a, p) == Logical(e, a, p)
  {
    var after := DeallocatePages(e, h).0;
    forall a: nat, p: nat | a != h && e.Live(a, p)
      ensures after.Live(a, p) && Logical(after, a, p) == Logical(e, a, p)
    {
      SameLogical(e, after, a, p);
    }
  }

  /**
   * A request is granted exactly when it is for some pages, that many are
   * unused, a handle is free and the allocator has a buffer.
   */
  lemma AllocateGrantedIff(e: Ems, pages: nat, buffer: Option<seq<Page>>)
    requires Valid(e) && (buffer.Some? ==> |buffer.value| == pages)
    ensures var (after, code, h) := AllocatePages(e, pages, buffer);
            && (code == OK <==>
                  0 < pages <= e.total - e.used && buffer.Some?
                  && exists free :: 0 <= free < HANDLES && !e.Owns(free))
            && (code != OK ==> after == e)
  {
    var h := FirstFree(e.handles);
    if h < |e.handles| {
      assert !e.Owns(h);
    }
  }

  /** What a handle had can be allocated again once it is freed. */
  lemma DeallocateGivesBack(e: Ems, h: nat, buffer: seq<Page>)
    requires Valid(e) && e.Owns(h) && 0 < |buffer| <= |e.handles[h].pages|
    ensures var (freed, code) := DeallocatePages(e, h);
            code == OK && AllocatePages(freed, |buffer|, Some(buffer)).1 == OK
  {
    var freed := DeallocatePages(e, h).0;
    DeallocateValid(e, h);
    SumAtLeast(e.handles, h);
    assert !freed.Owns(h);
    AllocateGrantedIff(freed, |buffer|, Some(buffer));
  }

  /**
   * A size change is granted exactly when the handle is live, the extra pages
   * are unused and the allocator has a buffer if one is needed.
   */
  lemma ReallocateGrantedIff(e: Ems, h: nat, newPages: nat, buffer: Option<seq<Page>>)
    requires Valid(e) && newPages <= 0xFFFF && (buffer.Some? ==> |buffer.value| == newPages)
    ensures ReallocatePages(e, h, newPages, buffer).1 == OK <==>
              && e.Owns(h)
              && newPages - |e.handles[h].pages| <= e.total - e.used
              && (newPages != |e.handles[h].pages| && newPages > 0 ==> buffer.Some?)
  {
    if e.Owns(h) {
      SumAtLeast(e.handles, h);
    }
  }

  /**
   * The codes of the specification, by what is wrong: no pages asked for, more than there are, no handle free, a
   * window or a page that does not exist, a handle not given out; anything else that is refused is a lack of memory.
   */
  lemma CodesAre(e: Ems, pages: nat, buffer: Option<seq<Page>>, w: nat, page: Word, h: Word)
    requires Valid(e) && pages <= 0xFFFF && (buffer.Some? ==> |buffer.value| == pages)
    ensures var code := AllocatePages(e, pages, buffer).1;
            && (code == 0x89 <==> pages == 0)
            && (code == 0x87 <==> pages > e.total)
            && (code == 0x85 <==> 0 < pages <= e.total - e.used && forall a :: 0 <= a < 64 ==> e.Owns(a))
            && code in {0, 0x85, 0x87, 0x88, 0x89}
    ensures var code := MapPage(e, w, page, h).1;
            && (code == 0x8B <==> w >= 4)
            && (code == 0x83 <==> w < 4 && !e.Owns(h))
            && (code == 0x8A <==> w < 4 && e.Owns(h) && page != 0xFFFF && page >= |e.handles[h].pages|)
            && code in {0, 0x83, 0x8A, 0x8B}
    ensures var code := ReallocatePages(e, h, pages, buffer).1;
            (code == 0x83 <==> !e.Owns(h)) && code in {0, 0x83, 0x88}
  {
    if e.used + pages <= e.total && FirstFree(e.handles) < |e.handles| {
      assert !e.Owns(FirstFree(e.handles));
    }
  }

  /** A new handle is the lowest that is not given out, and it has exactly the pages asked for, of the buffer's bytes. */
  lemma AllocateGivesLowest(e: Ems, pages: nat, buffer: Option<seq<Page>>)
    requires Valid(e) && (buffer.Some? ==> |buffer.value| == pages) && AllocatePages(e, pages, buffer).1 == 0
    ensures var (after, _, h) := AllocatePages(e, pages, buffer);
            && h < 64 && !e.Owns(h) && (forall a :: 0 <= a < h ==> e.Owns(a))
            && after.Owns(h) && after.handles[h].pages == buffer.value && |buffer.value| == pages
            && after.total - after.used == e.total - e.used - pages
            && forall a :: 0 <= a < 64 && a != h ==> after.handles[a] == e.handles[a]
  {
    assert !e.Owns(FirstFree(e.handles));
  }
}
