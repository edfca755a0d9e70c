/** Whole runs of EMS calls and guest stores: the invariant, a page no one writes, and save/work/restore. */
module EmsRuns {
  import opened Machine
  import opened EmsModel
  import opened EmsTheorems
  import opened EmsRestore

  datatype Op =
    | Map(window: nat, page: Word, owner: Word)
    | Write(window: nat, content: Page)
    | Allocate(pages: nat, buffer: Option<seq<Page>>)
    | Deallocate(handle: nat)
    | Reallocate(handle: nat, newPages: nat, newBuffer: Option<seq<Page>>)
    | Save(handle: nat)
    | Restore(handle: nat)

  /** The allocator hands out buffers of the size asked for, and a WORD holds the page count. */
  predicate Possible(op: Op) {
    match op
    case Allocate(pages, buffer) => buffer.Some? ==> |buffer.value| == pages
    case Reallocate(_, newPages, buffer) => newPages <= 0xFFFF && (buffer.Some? ==> |buffer.value| == newPages)
    case _ => true
  }

  ghost function Step(e: Ems, op: Op): Ems
    requires Valid(e) && Possible(op)
  {
    match op
    case Map(w, page, h) => MapPage(e, w, page, h).0
    case Write(w, content) => if w < WINDOWS then GuestWrite(e, w, content) else e
    case Allocate(pages, buffer) => AllocatePages(e, pages, buffer).0
    case Deallocate(h) => DeallocatePages(e, h).0
    case Reallocate(h, newPages, buffer) => ReallocatePages(e, h, newPages, buffer).0
    case Save(h) => SavePageMap(e, h).0
    case Restore(h) => RestorePageMap(e, h).0
  }

  /** What the guest is told: the code, and the handle an allocation gives out. */
  ghost function Answer(e: Ems, op: Op): (nat, nat)
    requires Valid(e) && Possible(op)
  {
    match op
    case Map(w, page, h) => (MapPage(e, w, page, h).1, 0)
    case Write(_, _) => (OK, 0)
    case Allocate(pages, buffer) => (AllocatePages(e, pages, buffer).1, AllocatePages(e, pages, buffer).2)
    case Deallocate(h) => (DeallocatePages(e, h).1, 0)
    case Reallocate(h, newPages, buffer) => (ReallocatePages(e, h, newPages, buffer).1, 0)
    case Save(h) => (SavePageMap(e, h).1, 0)
    case Restore(h) => (RestorePageMap(e, h).1, 0)
  }

  lemma SaveValid(e: Ems, h: nat)
    requires Valid(e)
    ensures Valid(SavePageMap(e, h).0)
  {
    if e.Owns(h) {
      SumUpdate(e.handles, h, e.handles[h].(savedMap := e.windows, isMapSaved := true));
    }
  }

  /** Every call keeps the invariant: mapped windows name live pages, and the page count is the handles' sum. */
  lemma StepValid(e: Ems, op: Op)
    requires Valid(e) && Possible(op)
    ensures Valid(Step(e, op))
  {
    match op {
      case Map(w, page, h) => MapValid(e, w, page, h);
      case Write(_, _) =>
      case Allocate(pages, buffer) => AllocateValid(e, pages, buffer);
      case Deallocate(h) => DeallocateValid(e, h);
      case Reallocate(h, newPages, buffer) => ReallocateValid(e, h, newPages, buffer);
      case Save(h) => SaveValid(e, h);
      case Restore(h) =>
        if e.Owns(h) && e.handles[h].isMapSaved {
          RestoreGivesBackMapIff(e, h);
        }
    }
  }

  ghost function Run(e: Ems, ops: seq<Op>): (r: Ems)
    requires Valid(e) && forall op :: op in ops ==> Possible(op)
    ensures Valid(r)
    decreases |ops|
  {
    if ops == [] then e else StepValid(e, ops[0]); Run(Step(e, ops[0]), ops[1..])
  }

  // ---- what the guest must not do ----

  /** The op brings no alias about: a page is not mapped while another window shows it, a restore is harmless. */
  ghost predicate Fit(e: Ems, op: Op)
    requires Valid(e)
  {
    match op
    case Map(w, page, h) =>
      MapPage(e, w, page, h).1 == OK && page != UNMAP ==>
        forall j :: 0 <= j < WINDOWS && j != w ==> !e.windows[j].Shows(h, page)
    case Restore(h) =>
      e.Owns(h) && e.handles[h].isMapSaved ==> Harmless(e, e.handles[h].savedMap)
    case _ => true
  }

  /** The op neither stores into page p of handle h nor gives it up. */
  predicate Spares(e: Ems, op: Op, h: nat, p: nat) {
    match op
    case Write(w, _) => w < |e.windows| ==> !e.windows[w].Shows(h, p)
    case Deallocate(a) => a != h
    case Reallocate(a, newPages, _) => a != h || p < newPages
    case _ => true
  }

  /** The two states have the same handles in use, with the same saved maps. */
  ghost predicate SameMaps(e: Ems, after: Ems) {
    && |after.handles| == |e.handles|
    && forall a :: 0 <= a < |e.handles| ==>
         && after.handles[a].inUse == e.handles[a].inUse
         && after.handles[a].isMapSaved == e.handles[a].isMapSaved
         && after.handles[a].savedMap == e.handles[a].savedMap
  }

  lemma MapSavesNothing(e: Ems, w: nat, page: Word, h: Word)
    requires Valid(e)
    ensures SameMaps(e, MapPage(e, w, page, h).0)
    ensures w < WINDOWS ==> SameMaps(e, Unmap(e, w))
  {
  }

  lemma RestoreWindowSavesNothing(e: Ems, saved: Window, w: nat)
    requires Valid(e) && w < WINDOWS
    ensures SameMaps(e, RestoreWindow(e, saved, w))
  {
    hide MapPage, Unmap;
    MapSavesNothing(e, w, saved.page, saved.handle);
  }

  lemma {:induction false} RestoreWindowsSavesNothing(e: Ems, saved: seq<Window>, k: nat)
    requires Valid(e) && k <= |saved| == WINDOWS
    ensures SameMaps(e, RestoreWindows(e, saved, k))
  {
    hide RestoreWindow;
    if k > 0 {
      RestoreWindowsSavesNothing(e, saved, k - 1);
      RestoreWindowsValid(e, saved, k - 1);
      RestoreWindowSavesNothing(RestoreWindows(e, saved, k - 1), saved[k - 1], k - 1);
    }
  }

  lemma {:induction false} FlushSavesNothing(e: Ems, h: nat, k: nat)
    requires Valid(e) && k <= WINDOWS
    ensures SameMaps(e, Flush(e, h, k))
  {
    if k > 0 {
      FlushSavesNothing(e, h, k - 1);
      FlushValid(e, h, k - 1);
    }
  }

  /** A fit op makes no alias, and a page it spares keeps its contents. */
  lemma StepKeepsPage(e: Ems, op: Op, h: nat, p: nat)
    requires Valid(e) && Possible(op) && NoAlias(e.windows) && Fit(e, op)
    requires e.Live(h, p) && Spares(e, op, h, p)
    ensures var after := Step(e, op);
            && NoAlias(after.windows)
            && |after.windows| <= |after.frame|
            && after.Live(h, p) && Logical(after, h, p) == Logical(e, h, p)
  {
    StepValid(e, op);
    match op {
      case Map(w, page, a) => MapStepKeepsPage(e, w, page, a, h, p);
      case Write(w, content) =>
        if w < WINDOWS {
          GuestWriteChangesShownPage(e, w, content);
        }
      case Allocate(pages, buffer) => AllocateKeepsContents(e, pages, buffer);
      case Deallocate(a) =>
        if e.Owns(a) {
          DeallocateKeepsContents(e, a);
        }
      case Reallocate(a, newPages, buffer) =>
        ReallocateKeepsContents(e, a, newPages, buffer);
      case Save(a) => SaveStepKeepsPage(e, a, h, p);
      case Restore(a) =>
        if e.Owns(a) && e.handles[a].isMapSaved {
          RestoreStepKeepsPage(e, a, h, p);
        }
    }
  }

  lemma MapStepKeepsPage(e: Ems, w: nat, page: Word, a: Word, h: nat, p: nat)
    requires Valid(e) && NoAlias(e.windows) && Fit(e, Map(w, page, a)) && e.Live(h, p)
    ensures var after := MapPage(e, w, page, a).0;
            && |after.windows| <= |after.frame| && NoAlias(after.windows)
            && after.Live(h, p) && Logical(after, h, p) == Logical(e, h, p)
  {
    if MapPage(e, w, page, a).1 == OK {
      MapKeepsContents(e, w, page, a);
    }
  }

  lemma SaveStepKeepsPage(e: Ems, a: nat, h: nat, p: nat)
    requires Valid(e) && NoAlias(e.windows) && e.Live(h, p)
    ensures var after := SavePageMap(e, a).0;
            && |after.windows| <= |after.frame| && NoAlias(after.windows)
            && after.Live(h, p) && Logical(after, h, p) == Logical(e, h, p)
  {
    SameLogical(e, SavePageMap(e, a).0, h, p);
  }

  lemma RestoreStepKeepsPage(e: Ems, a: nat, h: nat, p: nat)
    requires Valid(e) && NoAlias(e.windows) && Fit(e, Restore(a)) && e.Live(h, p)
    requires e.Owns(a) && e.handles[a].isMapSaved
    ensures var after := RestorePageMap(e, a).0;
            && |after.windows| == |after.frame| == WINDOWS && NoAlias(after.windows)
            && after.Live(h, p) && Logical(after, h, p) == Logical(e, h, p)
  {
    var saved := e.handles[a].savedMap;
    var r := RestoreWindows(e, saved, WINDOWS);
    RestoreWindowsValid(e, saved, WINDOWS);
    RestoreKeepsContentsIff(e, saved);
    SameLogical(r, RestorePageMap(e, a).0, h, p);
  }

  /** Every op of the run is possible, fit, and spares the page, when its turn comes. */
  ghost predicate RunSpares(e: Ems, ops: seq<Op>, h: nat, p: nat)
    requires Valid(e)
    decreases |ops|
  {
    ops != [] ==>
      && Possible(ops[0]) && Fit(e, ops[0]) && Spares(e, ops[0], h, p)
      && (StepValid(e, ops[0]); RunSpares(Step(e, ops[0]), ops[1..], h, p))
  }

  /** Through any such run the page keeps its contents, however often it moves between window and backing store. */
  lemma {:induction false} RunKeepsPage(e: Ems, ops: seq<Op>, h: nat, p: nat)
    requires Valid(e) && NoAlias(e.windows) && e.Live(h, p)
    requires (forall op :: op in ops ==> Possible(op)) && RunSpares(e, ops, h, p)
    ensures var after := Run(e, ops);
            NoAlias(after.windows) && after.Live(h, p) && Logical(after, h, p) == Logical(e, h, p)
    decreases |ops|
  {
    if ops != [] {
      StepKeepsPage(e, ops[0], h, p);
      StepValid(e, ops[0]);
      RunKeepsPage(Step(e, ops[0]), ops[1..], h, p);
    }
  }

  // ---- save, work, restore ----

  /** Ops under which handle h's saved map stays what it is. */
  predicate LeavesMap(op: Op, h: nat) {
    op != Restore(h) && op != Deallocate(h)
  }

  lemma StepLeavesMap(e: Ems, op: Op, h: nat)
    requires Valid(e) && Possible(op) && LeavesMap(op, h)
    requires e.Owns(h) && e.handles[h].isMapSaved
    ensures var after := Step(e, op);
            && Valid(after)
            && after.Owns(h) && after.handles[h].isMapSaved && after.handles[h].savedMap == e.handles[h].savedMap
  {
    StepValid(e, op);
    match op {
      case Map(w, page, a) => MapSavesNothing(e, w, page, a);
      case Reallocate(a, _, _) => FlushSavesNothing(e, a, WINDOWS);
      case Restore(a) =>
        if e.Owns(a) && e.handles[a].isMapSaved {
          RestoreWindowsSavesNothing(e, e.handles[a].savedMap, WINDOWS);
        }
      case _ =>
    }
  }

  lemma {:induction false} RunLeavesMap(e: Ems, ops: seq<Op>, h: nat)
    requires Valid(e) && e.Owns(h) && e.handles[h].isMapSaved
    requires forall op :: op in ops ==> Possible(op) && LeavesMap(op, h)
    ensures var after := Run(e, ops);
            after.Owns(h) && after.handles[h].isMapSaved && after.handles[h].savedMap == e.handles[h].savedMap
    decreases |ops|
  {
    if ops != [] {
      StepLeavesMap(e, ops[0], h);
      RunLeavesMap(Step(e, ops[0]), ops[1..], h);
    }
  }

  /**
   * Save, any work at all, restore: the windows are the saved ones exactly when their pages still
   * exist. No page is then in two windows exactly when the targets have no alias, and every page has
   * the contents the work left exactly when the restore is harmless.
   */
  lemma SaveWorkRestore(e: Ems, h: nat, ops: seq<Op>)
    requires Valid(e) && e.Owns(h) && !e.handles[h].isMapSaved
    requires forall op :: op in ops ==> Possible(op) && LeavesMap(op, h)
    ensures (SaveValid(e, h);
            var worked := Run(SavePageMap(e, h).0, ops);
            var (after, code) := RestorePageMap(worked, h);
            && code == OK && Valid(after)
            && ((forall w :: 0 <= w < WINDOWS ==> after.windows[w].View() == e.windows[w].View())
                <==> MapLive(worked, e.windows))
            && (NoAlias(after.windows) <==> NoAlias(Targets(worked, e.windows)))
            && (NoAlias(worked.windows) ==>
                  (NoAlias(after.windows) && SameContents(worked, after) <==> Harmless(worked, e.windows))))
  {
    SaveValid(e, h);
    var saved := SavePageMap(e, h).0;
    RunLeavesMap(saved, ops, h);
    var worked := Run(saved, ops);
    RestoreGivesBackMapIff(worked, h);
    RestoreReachesTargets(worked, e.windows);
    if NoAlias(worked.windows) {
      RestoreKeepsContentsIff(worked, e.windows);
      ClearSavedSame(worked, h);
    }
  }

  lemma ClearSavedSame(e: Ems, h: nat)
    requires Valid(e) && NoAlias(e.windows) && e.Owns(h) && e.handles[h].isMapSaved
    ensures var r, after := RestoreWindows(e, e.handles[h].savedMap, WINDOWS), RestorePageMap(e, h).0;
            && |after.windows| == |after.frame| == WINDOWS && after.windows == r.windows
            && (NoAlias(r.windows) ==> (SameContents(e, r) <==> SameContents(e, after)))
  {
    var saved := e.handles[h].savedMap;
    var r, after := RestoreWindows(e, saved, WINDOWS), RestorePageMap(e, h).0;
    RestoreLoop(e, saved, WINDOWS);
    if NoAlias(r.windows) {
      forall a: nat, p: nat | e.Live(a, p)
        ensures after.Live(a, p) && Logical(after, a, p) == Logical(r, a, p)
      {
        SameLogical(r, after, a, p);
      }
    }
  }
}
