/** Reallocation and page-map restore: what they keep, and exactly when a restore keeps everything. */
module EmsRestore {
  import opened Machine
  import opened EmsModel
  import opened EmsTheorems

  // ---- reallocation ----

  lemma {:induction false} FlushKeepsOthers(e: Ems, h: nat, k: nat, a: nat, p: nat)
    requires Valid(e) && k <= WINDOWS && e.Live(a, p)
    requires forall j :: 0 <= j < k ==> !e.windows[j].Shows(a, p)
    ensures Flush(e, h, k).Live(a, p) && Flush(e, h, k).Backing(a, p) == e.Backing(a, p)
  {
    if k > 0 {
      FlushValid(e, h, k - 1);
      FlushKeepsOthers(e, h, k - 1, a, p);
    }
  }

  lemma FlushKeepsContents(e: Ems, h: nat)
    requires Valid(e) && NoAlias(e.windows)
    ensures SameContents(e, Flush(e, h, WINDOWS))
  {
    var after := Flush(e, h, WINDOWS);
    FlushValid(e, h, WINDOWS);
    forall a: nat, p: nat | e.Live(a, p)
      ensures after.Live(a, p) && Logical(after, a, p) == Logical(e, a, p)
    {
      if forall j :: 0 <= j < WINDOWS ==> !e.windows[j].Shows(a, p) {
        FlushKeepsOthers(e, h, WINDOWS, a, p);
      }
      SameLogical(e, after, a, p);
    }
  }

  /** After a flush the handle's own windows agree with its backing pages. */
  lemma {:induction false} FlushWrites(e: Ems, h: nat, k: nat, j: nat)
    requires Valid(e) && NoAlias(e.windows) && j < k <= WINDOWS
    requires e.windows[j].isMapped && e.windows[j].handle == h
    ensures Flush(e, h, k).Live(h, e.windows[j].page)
    ensures Flush(e, h, k).Backing(h, e.windows[j].page) == e.frame[j]
  {
    FlushValid(e, h, k - 1);
    if j < k - 1 {
      FlushWrites(e, h, k - 1, j);
      assert !(e.windows[k - 1].Shows(h, e.windows[j].page));
    }
  }

  /**
   * Reallocation keeps every page that both sizes have, of this handle and of all others, in whatever
   * window it is; a refusal changes no contents.
   */
  lemma ReallocateKeepsContents(e: Ems, h: nat, newPages: nat, buffer: Option<seq<Page>>)
    requires Valid(e) && NoAlias(e.windows) && newPages <= 0xFFFF && (buffer.Some? ==> |buffer.value| == newPages)
    ensures var (after, code) := ReallocatePages(e, h, newPages, buffer);
            && |after.windows| == |after.frame| == WINDOWS && NoAlias(after.windows)
            && (code == OK ==> after.Owns(h) && |after.handles[h].pages| == newPages)
            && (code != OK ==> SameContents(e, after))
            && forall a: nat, p: nat :: e.Live(a, p) && (a == h && code == OK ==> p < newPages) ==>
                 after.Live(a, p) && Logical(after, a, p) == Logical(e, a, p)
  {
    FlushKeepsContents(e, h);
    FlushValid(e, h, WINDOWS);
    FlushKeepsSize(e, h, WINDOWS);
    var flushed := Flush(e, h, WINDOWS);
    var (after, code) := ReallocatePages(e, h, newPages, buffer);
    if code == OK && e.Owns(h) && newPages != |e.handles[h].pages| {
      ReplacedKeepsContents(flushed, h, newPages, buffer);
    }
  }

  lemma ReplacedKeepsContents(e: Ems, h: nat, newPages: nat, buffer: Option<seq<Page>>)
    requires Valid(e) && NoAlias(e.windows) && e.Owns(h)
    requires newPages > 0 ==> buffer.Some? && |buffer.value| == newPages
    ensures var after := Replaced(e, h, newPages, buffer);
            NoAlias(after.windows)
            && forall a: nat, p: nat :: e.Live(a, p) && (a == h ==> p < newPages) ==>
                 after.Live(a, p) && Logical(after, a, p) == Logical(e, a, p)
  {
    var after := Replaced(e, h, newPages, buffer);
    forall a: nat, p: nat | e.Live(a, p) && (a == h ==> p < newPages)
      ensures after.Live(a, p) && Logical(after, a, p) == Logical(e, a, p)
    {
      SameLogical(e, after, a, p);
    }
  }

  /**
   * A window goes on showing what it shows, byte for byte, through a reallocation or the freeing of a handle,
   * unless it shows a page that is given up.
   */
  lemma WindowsStay(e: Ems, h: nat, newPages: nat, buffer: Option<seq<Page>>, w: nat)
    requires Valid(e) && newPages <= 0xFFFF && (buffer.Some? ==> |buffer.value| == newPages) && w < WINDOWS
    ensures var (after, code) := ReallocatePages(e, h, newPages, buffer);
            && after.frame == e.frame
            && |after.windows| == WINDOWS
            && after.windows[w].View() == if code == 0 && e.windows[w].isMapped && e.windows[w].handle == h
                                             && e.windows[w].page >= newPages
                                          then None else e.windows[w].View()
    ensures var (after, code) := DeallocatePages(e, h);
            && after.frame == e.frame
            && |after.windows| == WINDOWS
            && after.windows[w].View() == if code == 0 && e.windows[w].isMapped && e.windows[w].handle == h
                                          then None else e.windows[w].View()
  {
    FlushValid(e, h, WINDOWS);
  }

  // ---- restoring a page map ----

  /** The saved map's pages all exist, by handle and number: a handle given out again since counts as the one saved. */
  ghost predicate MapLive(e: Ems, saved: seq<Window>) {
    forall i :: 0 <= i < |saved| && saved[i].isMapped ==> e.Live(saved[i].handle, saved[i].page)
  }

  /** The restore of a window is refused, and the window left as it is: the saved page is gone. */
  predicate Skips(e: Ems, saved: Window) {
    saved.isMapped && !e.Live(saved.handle, saved.page) && !(e.Owns(saved.handle) && saved.page == UNMAP)
  }

  /** The state a restore gives window w: as saved, but for a page that is gone, where it stays as it was. */
  function Target(e: Ems, saved: Window, w: nat): Window
    requires w < |e.windows|
  {
    if Skips(e, saved) then e.windows[w]
    else if saved.isMapped && e.Live(saved.handle, saved.page) then saved
    else e.windows[w].(isMapped := false)
  }

  function Targets(e: Ems, saved: seq<Window>): (r: seq<Window>)
    requires |saved| == |e.windows| == WINDOWS
    ensures |r| == WINDOWS && forall i :: 0 <= i < WINDOWS ==> r[i] == Target(e, saved[i], i)
  {
    seq(WINDOWS, i requires 0 <= i < WINDOWS => Target(e, saved[i], i))
  }

  /** Page p's backing bytes once the windows below k are restored: only those not refused are written back. */
  function WrittenBack(e: Ems, saved: seq<Window>, h: nat, p: nat, k: nat): Page
    requires e.Live(h, p) && k <= |saved| == |e.windows| == |e.frame|
  {
    if k == 0 then e.Backing(h, p)
    else if e.windows[k - 1].Shows(h, p) && !Skips(e, saved[k - 1]) then e.frame[k - 1]
    else WrittenBack(e, saved, h, p, k - 1)
  }

  lemma {:induction false} WrittenBackMiss(e: Ems, saved: seq<Window>, h: nat, p: nat, k: nat)
    requires e.Live(h, p) && k <= |saved| == |e.windows| == |e.frame|
    requires forall j :: 0 <= j < k && e.windows[j].Shows(h, p) ==> Skips(e, saved[j])
    ensures WrittenBack(e, saved, h, p, k) == e.Backing(h, p)
  {
    if k > 0 {
      WrittenBackMiss(e, saved, h, p, k - 1);
    }
  }

  lemma {:induction false} WrittenBackHit(e: Ems, saved: seq<Window>, h: nat, p: nat, k: nat, j: nat)
    requires e.Live(h, p) && j < k <= |saved| == |e.windows| == |e.frame| && NoAlias(e.windows)
    requires e.windows[j].Shows(h, p) && !Skips(e, saved[j])
    ensures WrittenBack(e, saved, h, p, k) == e.frame[j]
  {
    if k - 1 != j {
      WrittenBackHit(e, saved, h, p, k - 1, j);
    }
  }

  /** What the restore loop has done after k windows, page by page and window by window. */
  ghost predicate Restored(e: Ems, saved: seq<Window>, k: nat, r: Ems)
    requires Valid(e) && k <= |saved| == WINDOWS
  {
    && Valid(r)
    && (forall h: nat :: r.Owns(h) == e.Owns(h))
    && (forall h: nat, p: nat :: r.Live(h, p) == e.Live(h, p))
    && (forall h: nat, p: nat :: e.Live(h, p) ==> r.Backing(h, p) == WrittenBack(e, saved, h, p, k))
    && (forall i :: k <= i < WINDOWS ==> r.windows[i] == e.windows[i] && r.frame[i] == e.frame[i])
    && (forall i :: 0 <= i < k ==> r.windows[i] == Target(e, saved[i], i))
    && (forall i :: 0 <= i < k && Skips(e, saved[i]) ==> r.frame[i] == e.frame[i])
    && (forall i :: 0 <= i < k && saved[i].isMapped && e.Live(saved[i].handle, saved[i].page) ==>
          r.frame[i] == WrittenBack(e, saved, saved[i].handle, saved[i].page, i + 1))
  }

  /**
   * Window w restored: nothing changed where the saved page is gone; else
   * its old page written back and the saved one shown.
   */
  ghost predicate OneRestored(e: Ems, saved: Window, w: nat, r: Ems)
    requires Valid(e) && Valid(r) && w < WINDOWS
  {
    && (forall h: nat :: r.Owns(h) == e.Owns(h))
    && (forall h: nat, p: nat :: r.Live(h, p) == e.Live(h, p))
    && (forall h: nat, p: nat :: e.Live(h, p) ==>
          r.Backing(h, p) == if e.windows[w].Shows(h, p) && !Skips(e, saved) then e.frame[w] else e.Backing(h, p))
    && (forall i :: 0 <= i < WINDOWS && i != w ==> r.windows[i] == e.windows[i] && r.frame[i] == e.frame[i])
    && r.windows[w] == Target(e, saved, w)
    && (Skips(e, saved) ==> r.frame[w] == e.frame[w])
    && (saved.isMapped && e.Live(saved.handle, saved.page) ==> r.frame[w] == r.Backing(saved.handle, saved.page))
  }

  /**
   * One pass of the loop, for every saved mapping: only the window it
   * is at, and the page that window showed, change.
   */
  lemma RestoreWindowStep(e: Ems, saved: Window, w: nat)
    requires Valid(e) && w < WINDOWS
    ensures Valid(RestoreWindow(e, saved, w)) && OneRestored(e, saved, w, RestoreWindow(e, saved, w))
  {
    hide WriteBack;
    MapValid(e, w, saved.page, saved.handle);
    UnmapValid(e, w);
    WriteBackStep(e, w);
  }

  lemma WriteBackStep(e: Ems, w: nat)
    requires Valid(e) && w < WINDOWS
    ensures var r := WriteBack(e, w);
            && Valid(r) && r.windows == e.windows && r.frame == e.frame
            && (forall h: nat :: r.Owns(h) == e.Owns(h))
            && (forall h: nat, p: nat :: r.Live(h, p) == e.Live(h, p))
            && forall h: nat, p: nat :: e.Live(h, p) ==>
                 r.Backing(h, p) == if e.windows[w].Shows(h, p) then e.frame[w] else e.Backing(h, p)
  {
    WriteBackValid(e, w);
  }

  lemma {:induction false} RestoreLoop(e: Ems, saved: seq<Window>, k: nat)
    requires Valid(e) && k <= |saved| == WINDOWS
    ensures Restored(e, saved, k, RestoreWindows(e, saved, k))
  {
    hide OneRestored, RestoreWindow;
    if k > 0 {
      RestoreLoop(e, saved, k - 1);
      RestoreWindowsValid(e, saved, k - 1);
      var before := RestoreWindows(e, saved, k - 1);
      RestoreWindowStep(before, saved[k - 1], k - 1);
      RestoredNext(e, saved, k - 1, before, RestoreWindows(e, saved, k));
    }
  }

  lemma RestoredNext(e: Ems, saved: seq<Window>, w: nat, before: Ems, r: Ems)
    requires Valid(e) && w < |saved| == WINDOWS && Valid(before) && Valid(r)
    requires Restored(e, saved, w, before) && OneRestored(before, saved[w], w, r)
    ensures Restored(e, saved, w + 1, r)
  {
    SkipsAlike(e, before, saved);
    assert before.windows[w] == e.windows[w] && before.frame[w] == e.frame[w];
    forall h: nat, p: nat | e.Live(h, p)
      ensures r.Live(h, p) && r.Backing(h, p) == WrittenBack(e, saved, h, p, w + 1)
    {
      assert before.Live(h, p);
    }
  }

  lemma SkipsAlike(e: Ems, r: Ems, saved: seq<Window>)
    requires forall h: nat :: r.Owns(h) == e.Owns(h)
    requires forall h: nat, p: nat :: r.Live(h, p) == e.Live(h, p)
    ensures forall i :: 0 <= i < |saved| ==> Skips(r, saved[i]) == Skips(e, saved[i])
  {
  }

  /** A restore leaves the windows exactly as their targets: refused mappings as they were, all others as saved. */
  lemma RestoreReachesTargets(e: Ems, saved: seq<Window>)
    requires Valid(e) && |saved| == WINDOWS
    ensures RestoreWindows(e, saved, WINDOWS).windows == Targets(e, saved)
  {
    RestoreLoop(e, saved, WINDOWS);
  }

  /** The targets are the saved assignment exactly when every saved page still exists. */
  lemma TargetsAreSavedIff(e: Ems, saved: seq<Window>)
    requires Valid(e) && |saved| == WINDOWS
    ensures (forall i :: 0 <= i < WINDOWS ==> Targets(e, saved)[i].View() == saved[i].View()) <==> MapLive(e, saved)
  {
    if i :| 0 <= i < WINDOWS && saved[i].isMapped && !e.Live(saved[i].handle, saved[i].page) {
      assert Targets(e, saved)[i].View() != saved[i].View() by {
        assert e.windows[i].isMapped ==> e.Live(e.windows[i].handle, e.windows[i].page);
      }
    }
  }

  /** A restore gives back the saved assignment of windows exactly when every saved page still exists. */
  lemma RestoreGivesBackMapIff(e: Ems, h: nat)
    requires Valid(e) && e.Owns(h) && e.handles[h].isMapSaved
    ensures var saved := e.handles[h].savedMap;
            var (after, code) := RestorePageMap(e, h);
            && code == OK && Valid(after) && !after.handles[h].isMapSaved
            && ((forall i :: 0 <= i < WINDOWS ==> after.windows[i].View() == saved[i].View()) <==> MapLive(e, saved))
  {
    hide RestoreWindows, Targets, MapLive, NoAlias;
    var saved := e.handles[h].savedMap;
    var r := RestoreWindows(e, saved, WINDOWS);
    RestoreWindowsValid(e, saved, WINDOWS);
    SumUpdate(r.handles, h, r.handles[h].(isMapSaved := false));
    RestoreReachesTargets(e, saved);
    TargetsAreSavedIff(e, saved);
  }

  /**
   * With no alias before and none in the saved map, the targets have one exactly when a window whose
   * restore is refused still shows a page the map wants in another window.
   */
  lemma TargetsAliasIff(e: Ems, saved: seq<Window>)
    requires Valid(e) && NoAlias(e.windows) && |saved| == WINDOWS && NoAlias(saved)
    ensures !NoAlias(Targets(e, saved))
       <==> exists i, j :: && 0 <= i < WINDOWS && 0 <= j < WINDOWS && i != j
                           && Skips(e, saved[i]) && e.windows[i].isMapped
                           && saved[j].Shows(e.windows[i].handle, e.windows[i].page)
  {
    var targets := Targets(e, saved);
    if !NoAlias(targets) {
      var i, j :| 0 <= i < j < WINDOWS && targets[i].isMapped && targets[j].isMapped
                  && targets[i].handle == targets[j].handle && targets[i].page == targets[j].page;
      if Skips(e, saved[i]) {
        assert saved[j].Shows(e.windows[i].handle, e.windows[i].page);
      } else {
        assert Skips(e, saved[j]) && saved[i].Shows(e.windows[j].handle, e.windows[j].page);
      }
    }
    if i, j :| && 0 <= i < WINDOWS && 0 <= j < WINDOWS && i != j
               && Skips(e, saved[i]) && e.windows[i].isMapped
               && saved[j].Shows(e.windows[i].handle, e.windows[i].page) {
      assert targets[i] == e.windows[i] && targets[j] == saved[j];
    }
  }

  /**
   * A page the map wants in window i sits in a later window j with bytes its backing store has not
   * got: window i reads the stale backing page, and the store from window j comes too late.
   */
  ghost predicate Stale(e: Ems, saved: seq<Window>, i: nat, j: nat)
    requires |saved| == |e.windows| == |e.frame| == WINDOWS && i < j < WINDOWS
  {
    && saved[i].isMapped && e.Live(saved[i].handle, saved[i].page)
    && e.windows[j].Shows(saved[i].handle, saved[i].page)
    && e.frame[j] != e.Backing(saved[i].handle, saved[i].page)
  }

  /** The restore brings no alias about, and reads no page while a later window holds newer bytes of it. */
  ghost predicate Harmless(e: Ems, saved: seq<Window>)
    requires |saved| == |e.windows| == |e.frame| == WINDOWS
  {
    NoAlias(Targets(e, saved)) && forall i, j :: 0 <= i < j < WINDOWS ==> !Stale(e, saved, i, j)
  }

  /**
   * A page's contents after a restore without alias: in the window
   * restored to it, in the one left with it, or in none.
   */
  lemma RestoredLogical(e: Ems, saved: seq<Window>, r: Ems, h: nat, p: nat)
    requires Valid(e) && NoAlias(e.windows) && |saved| == WINDOWS && NoAlias(Targets(e, saved))
    requires Restored(e, saved, WINDOWS, r) && e.Live(h, p)
    ensures forall i :: 0 <= i < WINDOWS && Target(e, saved[i], i).Shows(h, p) ==>
              Logical(r, h, p) == if Skips(e, saved[i]) then e.frame[i] else WrittenBack(e, saved, h, p, i + 1)
    ensures (forall i :: 0 <= i < WINDOWS ==> !Target(e, saved[i], i).Shows(h, p)) ==>
              Logical(r, h, p) == WrittenBack(e, saved, h, p, WINDOWS)
  {
    assert r.windows == Targets(e, saved);
    LogicalIs(r, h, p);
  }

  /** A page no target shows: it was in a window that is written back, or in none. */
  lemma UnshownKeeps(e: Ems, saved: seq<Window>, h: nat, p: nat)
    requires Valid(e) && NoAlias(e.windows) && |saved| == WINDOWS && e.Live(h, p)
    requires forall i :: 0 <= i < WINDOWS ==> !Target(e, saved[i], i).Shows(h, p)
    ensures WrittenBack(e, saved, h, p, WINDOWS) == Logical(e, h, p)
  {
    LogicalIs(e, h, p);
    if j :| 0 <= j < WINDOWS && e.windows[j].Shows(h, p) {
      assert !Skips(e, saved[j]);
      WrittenBackHit(e, saved, h, p, WINDOWS, j);
    } else {
      WrittenBackMiss(e, saved, h, p, WINDOWS);
    }
  }

  /** What window i reads of the page it is restored to: the page's contents, unless a later window made it stale. */
  lemma RestoredReads(e: Ems, saved: seq<Window>, i: nat)
    requires Valid(e) && NoAlias(e.windows) && |saved| == WINDOWS && NoAlias(Targets(e, saved)) && i < WINDOWS
    requires saved[i].isMapped && e.Live(saved[i].handle, saved[i].page)
    ensures WrittenBack(e, saved, saved[i].handle, saved[i].page, i + 1) == Logical(e, saved[i].handle, saved[i].page)
       <==> forall j :: i < j < WINDOWS ==> !Stale(e, saved, i, j)
  {
    var h, p := saved[i].handle, saved[i].page;
    LogicalIs(e, h, p);
    assert Targets(e, saved)[i] == saved[i];
    if j :| 0 <= j < WINDOWS && e.windows[j].Shows(h, p) {
      assert Skips(e, saved[j]) ==> Targets(e, saved)[j] == e.windows[j];
      if j <= i {
        WrittenBackHit(e, saved, h, p, i + 1, j);
      } else {
        WrittenBackMiss(e, saved, h, p, i + 1);
        assert Stale(e, saved, i, j) <==> e.frame[j] != e.Backing(h, p);
      }
    } else {
      WrittenBackMiss(e, saved, h, p, i + 1);
    }
  }

  /**
   * For every saved map: the restore brings an alias about exactly when its targets have one, and
   * otherwise every page keeps its contents exactly when no saved page is stale.
   */
  lemma RestoreKeepsContentsIff(e: Ems, saved: seq<Window>)
    requires Valid(e) && NoAlias(e.windows) && |saved| == WINDOWS
    ensures var r := RestoreWindows(e, saved, WINDOWS);
            && (NoAlias(r.windows) <==> NoAlias(Targets(e, saved)))
            && (NoAlias(r.windows) && SameContents(e, r) <==> Harmless(e, saved))
  {
    var r := RestoreWindows(e, saved, WINDOWS);
    RestoreLoop(e, saved, WINDOWS);
    RestoreReachesTargets(e, saved);
    if NoAlias(Targets(e, saved)) {
      if i, j :| 0 <= i < j < WINDOWS && Stale(e, saved, i, j) {
        StaleChanges(e, saved, r, i, j);
      } else {
        NoneStaleKeeps(e, saved, r);
      }
    }
  }

  lemma StaleChanges(e: Ems, saved: seq<Window>, r: Ems, i: nat, j: nat)
    requires Valid(e) && NoAlias(e.windows) && |saved| == WINDOWS && NoAlias(Targets(e, saved))
    requires Restored(e, saved, WINDOWS, r) && i < j < WINDOWS && Stale(e, saved, i, j)
    ensures !SameContents(e, r)
  {
    hide WrittenBack;
    var h, p := saved[i].handle, saved[i].page;
    assert Target(e, saved[i], i).Shows(h, p);
    RestoredLogical(e, saved, r, h, p);
    RestoredReads(e, saved, i);
    assert Logical(r, h, p) != Logical(e, h, p);
  }

  lemma NoneStaleKeeps(e: Ems, saved: seq<Window>, r: Ems)
    requires Valid(e) && NoAlias(e.windows) && |saved| == WINDOWS && Harmless(e, saved)
    requires Restored(e, saved, WINDOWS, r)
    ensures SameContents(e, r)
  {
    forall h: nat, p: nat | e.Live(h, p)
      ensures r.Live(h, p) && Logical(r, h, p) == Logical(e, h, p)
    {
      RestoredLogical(e, saved, r, h, p);
      if i :| 0 <= i < WINDOWS && Target(e, saved[i], i).Shows(h, p) {
        if Skips(e, saved[i]) {
          LogicalIs(e, h, p);
        } else {
          RestoredReads(e, saved, i);
        }
      } else {
        UnshownKeeps(e, saved, h, p);
      }
    }
  }

  // ---- the two ways a restore does harm ----

  /** One handle in use, with these pages, and nothing else. */
  function OneHandle(windows: seq<Window>, frame: seq<Page>, pages: seq<Page>, saved: seq<Window>): Ems {
    Ems(|pages|, |pages|, windows, frame,
        [Handle(true, pages, true, saved)] + seq(HANDLES - 1, _ => Handle(false, [], false, saved)))
  }

  lemma OneHandleValid(windows: seq<Window>, frame: seq<Page>, pages: seq<Page>, saved: seq<Window>)
    requires |windows| == |frame| == |saved| == WINDOWS && |pages| <= UNMAP
    requires forall w :: 0 <= w < WINDOWS && windows[w].isMapped ==> windows[w].handle == 0 && windows[w].page < |pages|
    ensures Valid(OneHandle(windows, frame, pages, saved))
  {
    var e := OneHandle(windows, frame, pages, saved);
    SumOfNone(e.handles[1..]);
  }

  /**
   * The stale case happens. Page 0 was saved in window 0; since then the guest mapped page 1 there,
   * mapped page 0 into window 1 and stored into it. Restoring loses the store.
   */
  lemma RestoreCanLoseAStore(stale: Page, stored: Page)
    requires stale != stored
    ensures exists e, saved ::
              && Valid(e) && NoAlias(e.windows) && |saved| == WINDOWS && NoAlias(saved) && MapLive(e, saved)
              && e.Live(0, 0) && Logical(e, 0, 0) == stored
              && !SameContents(e, RestoreWindows(e, saved, WINDOWS))
  {
    hide Valid, RestoreWindows, SameContents, Logical, Targets;
    var none := Window(0, 0, false);
    var saved := [Window(0, 0, true), none, none, none];
    var windows := [Window(0, 1, true), Window(0, 0, true), none, none];
    var frame := [stale, stored, stale, stale];
    var e := OneHandle(windows, frame, [stale, stale], saved);
    OneHandleValid(windows, frame, [stale, stale], saved);
    LogicalIs(e, 0, 0);
    assert e.windows[1].Shows(0, 0);
    StaleAlone(e, saved);
  }

  lemma StaleAlone(e: Ems, saved: seq<Window>)
    requires Valid(e) && NoAlias(e.windows) && |saved| == WINDOWS
    requires (forall i :: 0 < i < WINDOWS ==> !saved[i].isMapped) && Stale(e, saved, 0, 1)
    ensures !SameContents(e, RestoreWindows(e, saved, WINDOWS))
  {
    assert forall i :: 0 < i < WINDOWS ==> !Targets(e, saved)[i].isMapped;
    RestoreKeepsContentsIff(e, saved);
  }

  /**
   * The alias happens. Window 0 was saved showing page 7 and window 1 showing page 0; since then the
   * guest mapped page 0 into window 0, stored into it, and shrank the handle to one page. The restore
   * answers OK, leaves page 0 in both windows, and what the guest reads in window 1 is the old page.
   */
  lemma RestoreOfGonePageAliases(stale: Page, stored: Page)
    requires stale != stored
    ensures exists e ::
              && Valid(e) && NoAlias(e.windows) && e.Owns(0) && e.handles[0].isMapSaved
              && NoAlias(e.handles[0].savedMap) && e.Live(0, 0) && Logical(e, 0, 0) == stored
              && (forall i, j :: 0 <= i < j < WINDOWS ==> !Stale(e, e.handles[0].savedMap, i, j))
              && var (after, code) := RestorePageMap(e, 0);
                 && code == OK && after.windows[0].Shows(0, 0) && after.windows[1].Shows(0, 0)
                 && after.frame[0] == stored && after.frame[1] == stale
  {
    hide Valid, RestoreWindows, Logical;
    var none := Window(0, 0, false);
    var saved := [Window(0, 7, true), Window(0, 0, true), none, none];
    var windows := [Window(0, 0, true), none, none, none];
    var frame := [stored, stale, stale, stale];
    var e := OneHandle(windows, frame, [stale], saved);
    OneHandleValid(windows, frame, [stale], saved);
    LogicalIs(e, 0, 0);
    assert e.windows[0].Shows(0, 0);
    GonePage(e, stale);
  }

  lemma GonePage(e: Ems, stale: Page)
    requires Valid(e) && e.Owns(0) && e.handles[0].isMapSaved && e.handles[0].pages == [stale]
    requires e.windows[0].Shows(0, 0) && !e.windows[1].isMapped
    requires e.handles[0].savedMap[0] == Window(0, 7, true) && e.handles[0].savedMap[1] == Window(0, 0, true)
    ensures var (after, code) := RestorePageMap(e, 0);
            && code == OK && |after.windows| == |after.frame| == WINDOWS
            && after.windows[0].Shows(0, 0) && after.windows[1].Shows(0, 0)
            && after.frame[0] == e.frame[0] && after.frame[1] == stale
  {
    var saved := e.handles[0].savedMap;
    RestoreLoop(e, saved, WINDOWS);
    assert Skips(e, saved[0]);
    assert Target(e, saved[1], 1) == saved[1];
    WrittenBackMiss(e, saved, 0, 0, 2);
  }

  /**
   * A page exists again when its handle does. In every state: the map of handle h was saved with page 0 of handle g
   * in window w; g is freed, and an allocation of another program gets the same handle. The restore answers OK and
   * window w shows the new owner's page, with the new owner's contents.
   */
  lemma RestoreShowsNewOwner(e: Ems, h: nat, g: Word, w: nat, buffer: seq<Page>)
    requires Valid(e) && e.Owns(h) && e.handles[h].isMapSaved && w < WINDOWS
    requires e.handles[h].savedMap[w] == Window(g, 0, true) && g != h && e.Owns(g)
    requires (forall i :: 0 <= i < g ==> e.handles[i].inUse) && 0 < |buffer| <= |e.handles[g].pages|
    ensures var freed := DeallocatePages(e, g).0;
            var (given, code, handle) := AllocatePages(freed, |buffer|, Some(buffer));
            && code == OK && handle == g && Valid(given)
            && var (restored, answer) := RestorePageMap(given, h);
               && answer == OK && |restored.windows| == |restored.frame| == WINDOWS
               && restored.windows[w].Shows(g, 0) && restored.frame[w] == buffer[0]
  {
    hide WrittenBack, Targets, RestoreWindows;
    DeallocateValid(e, g);
    var freed := DeallocatePages(e, g).0;
    SumAtLeast(e.handles, g);
    FirstFreeIs(freed.handles, g);
    AllocateValid(freed, |buffer|, Some(buffer));
    var given := AllocatePages(freed, |buffer|, Some(buffer)).0;
    RestoreLoop(given, given.handles[h].savedMap, WINDOWS);
    WrittenBackMiss(given, given.handles[h].savedMap, g, 0, w + 1);
  }

  lemma FirstFreeIs(handles: seq<Handle>, h: nat)
    requires h < |handles| && !handles[h].inUse && forall i :: 0 <= i < h ==> handles[i].inUse
    ensures FirstFree(handles) == h
  {
  }

  /** Such a state: handle 0 saved its map while page 0 of handle 1 was in window 0. */
  lemma NewOwnerHappens(mine: Page, theirs: Page)
    ensures exists e ::
              && Valid(e) && NoAlias(e.windows) && e.Owns(0) && e.Owns(1) && e.handles[0].isMapSaved
              && NoAlias(e.handles[0].savedMap) && e.handles[0].savedMap[0] == Window(1, 0, true)
              && |e.handles[1].pages| == 1
  {
    var none := Window(0, 0, false);
    var saved := [Window(1, 0, true), none, none, none];
    var unused := seq(HANDLES - 2, _ => Handle(false, [], false, saved));
    var handles := [Handle(true, [mine], true, saved), Handle(true, [theirs], false, saved)] + unused;
    var e := Ems(2, 2, [none, none, none, none], [mine, mine, mine, mine], handles);
    SumOfNone(unused);
    assert handles[1..][1..] == unused;
    assert Sum(handles) == 2;
    assert Valid(e);
  }
}
