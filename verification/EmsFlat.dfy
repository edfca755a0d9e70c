/** The windows are a cache: over every fit run the driver behaves as expanded memory without any frame would. */
module EmsFlat {
  import opened Machine
  import opened EmsModel
  import opened EmsTheorems
  import opened EmsRestore
  import opened EmsRuns

  // Flat memory is an Ems without frame, whose handles' pages are the only copy there is.

  ghost predicate IsFlat(f: Ems) {
    && |f.windows| == WINDOWS && |f.handles| == HANDLES && f.frame == []
    && forall h :: 0 <= h < HANDLES ==> |f.handles[h].savedMap| == WINDOWS
  }

  function FlatPages(e: Ems, h: nat): (r: seq<Page>)
    requires h < |e.handles| && |e.windows| <= |e.frame|
    ensures |r| == |e.handles[h].pages|
    ensures forall p :: 0 <= p < |r| && e.Live(h, p) ==> r[p] == Logical(e, h, p)
  {
    seq(|e.handles[h].pages|, p requires 0 <= p < |e.handles[h].pages| =>
      if e.Live(h, p) then Logical(e, h, p) else e.handles[h].pages[p])
  }

  /** What the guest can tell of the state: every page's contents, wherever they are kept just now. */
  function Flatten(e: Ems): (f: Ems)
    requires |e.windows| <= |e.frame|
    ensures |f.handles| == |e.handles|
  {
    e.(frame := [],
       handles := seq(|e.handles|, h requires 0 <= h < |e.handles| => e.handles[h].(pages := FlatPages(e, h))))
  }

  /** Mapping is bookkeeping only. */
  function FlatMap(f: Ems, w: nat, page: Word, h: Word): (Ems, nat)
    requires |f.windows| == WINDOWS
  {
    if w >= WINDOWS then (f, INVALID_PHYSICAL_PAGE)
    else if !f.Owns(h) then (f, INVALID_HANDLE)
    else if page == UNMAP then (f.(windows := f.windows[w := f.windows[w].(isMapped := false)]), OK)
    else if page >= |f.handles[h].pages| then (f, INVALID_LOGICAL_PAGE)
    else (f.(windows := f.windows[w := Window(h, page, true)]), OK)
  }

  /** A store goes straight to the page the window shows. */
  function FlatWrite(f: Ems, w: nat, content: Page): Ems {
    if w < |f.windows| && f.windows[w].isMapped && f.Live(f.windows[w].handle, f.windows[w].page)
    then f.SetBacking(f.windows[w].handle, f.windows[w].page, content)
    else f
  }

  function FlatReallocate(f: Ems, h: nat, newPages: nat, buffer: Option<seq<Page>>): (Ems, nat)
    requires buffer.Some? ==> |buffer.value| == newPages
  {
    if !f.Owns(h) then (f, INVALID_HANDLE)
    else
      var pages := |f.handles[h].pages|;
      if newPages == pages then (f, OK)
      else if newPages > pages && f.used - pages + newPages > f.total then (f, NOT_ENOUGH_PAGES)
      else if newPages > 0 && buffer.None? then (f, NOT_ENOUGH_PAGES)
      else (Replaced(f, h, newPages, buffer), OK)
  }

  /** A restore changes the assignment of windows and no page. */
  function FlatRestore(f: Ems, h: nat): (Ems, nat)
    requires |f.windows| == WINDOWS && (f.Owns(h) ==> |f.handles[h].savedMap| == WINDOWS)
  {
    if !f.Owns(h) then (f, INVALID_HANDLE)
    else if !f.handles[h].isMapSaved then (f, MAP_NOT_SAVED)
    else
      var targets := Targets(f, f.handles[h].savedMap);
      (f.(windows := targets, handles := f.handles[h := f.handles[h].(isMapSaved := false)]), OK)
  }

  /** The state a call leaves flat memory in, with the code, and the handle an allocation gives out. */
  ghost function FlatStep(f: Ems, op: Op): (r: (Ems, (nat, nat)))
    requires IsFlat(f) && Possible(op)
    ensures IsFlat(r.0)
  {
    match op
    case Map(w, page, h) => var (after, code) := FlatMap(f, w, page, h); (after, (code, 0))
    case Write(w, content) => (FlatWrite(f, w, content), (OK, 0))
    case Allocate(pages, buffer) => var (after, code, h) := AllocatePages(f, pages, buffer); (after, (code, h))
    case Deallocate(h) => var (after, code) := DeallocatePages(f, h); (after, (code, 0))
    case Reallocate(h, newPages, buffer) =>
      var (after, code) := FlatReallocate(f, h, newPages, buffer);
      (after, (code, 0))
    case Save(h) => var (after, code) := SavePageMap(f, h); (after, (code, 0))
    case Restore(h) => var (after, code) := FlatRestore(f, h); (after, (code, 0))
  }

  /** A run on flat memory: the state it ends in, and all its answers. */
  ghost function FlatRun(f: Ems, ops: seq<Op>): (Ems, seq<(nat, nat)>)
    requires IsFlat(f) && forall op :: op in ops ==> Possible(op)
    decreases |ops|
  {
    if ops == [] then (f, [])
    else
      var (next, answer) := FlatStep(f, ops[0]);
      var (end, answers) := FlatRun(next, ops[1..]);
      (end, [answer] + answers)
  }

  // ---- the refinement ----

  /** The two states have the same windows, counts, and handles but for the pages' contents. */
  ghost predicate SameShape(e: Ems, f: Ems) {
    && f.windows == e.windows && f.total == e.total && f.used == e.used && |f.handles| == |e.handles|
    && forall h :: 0 <= h < |e.handles| ==>
         && f.handles[h].inUse == e.handles[h].inUse && f.handles[h].isMapSaved == e.handles[h].isMapSaved
         && f.handles[h].savedMap == e.handles[h].savedMap && |f.handles[h].pages| == |e.handles[h].pages|
  }

  lemma FlattenShape(e: Ems)
    requires Valid(e)
    ensures IsFlat(Flatten(e)) && SameShape(e, Flatten(e))
    ensures forall h: nat :: Flatten(e).Owns(h) == e.Owns(h)
    ensures forall h: nat, p: nat :: Flatten(e).Live(h, p) == e.Live(h, p)
    ensures forall h: nat, p: nat :: e.Live(h, p) ==> Flatten(e).Backing(h, p) == Logical(e, h, p)
  {
  }

  lemma FlattenIs(e: Ems, f: Ems)
    requires Valid(e) && SameShape(e, f) && f.frame == []
    requires forall h: nat, p: nat :: e.Live(h, p) ==> f.Live(h, p) && f.Backing(h, p) == Logical(e, h, p)
    ensures Flatten(e) == f
  {
    var g := Flatten(e);
    forall h | 0 <= h < HANDLES
      ensures g.handles[h] == f.handles[h]
    {
      forall p | 0 <= p < |e.handles[h].pages|
        ensures g.handles[h].pages[p] == f.handles[h].pages[p]
      {
        assert e.Live(h, p);
        assert f.Backing(h, p) == Logical(e, h, p);
      }
      assert g.handles[h].pages == f.handles[h].pages;
    }
    assert g.handles == f.handles;
  }

  lemma MapIsFlat(e: Ems, w: nat, page: Word, h: Word)
    requires Valid(e) && NoAlias(e.windows) && Fit(e, Map(w, page, h))
    ensures var after := MapPage(e, w, page, h).0;
            Valid(after) && NoAlias(after.windows) && Flatten(after) == FlatMap(Flatten(e), w, page, h).0
  {
    hide Flatten, FlatPages, Logical, Source, WriteBack;
    var after := MapPage(e, w, page, h).0;
    FlattenShape(e);
    MapValid(e, w, page, h);
    MapSavesNothing(e, w, page, h);
    if MapPage(e, w, page, h).1 == OK {
      MapKeepsContents(e, w, page, h);
      WriteBackStep(e, w);
      WriteBackSizes(e, w);
      FlattenIs(after, FlatMap(Flatten(e), w, page, h).0);
    }
  }

  ghost predicate SameSizes(e: Ems, r: Ems) {
    && r.total == e.total && r.used == e.used && |r.handles| == |e.handles|
    && forall a :: 0 <= a < |e.handles| ==> |r.handles[a].pages| == |e.handles[a].pages|
  }

  lemma WriteBackSizes(e: Ems, w: nat)
    requires Valid(e) && w < WINDOWS
    ensures SameSizes(e, WriteBack(e, w))
  {
  }

  /** A fit mapping is flat memory's; an unfit one puts a page in two windows. */
  lemma MapIsFlatIff(e: Ems, w: nat, page: Word, h: Word)
    requires Valid(e) && NoAlias(e.windows)
    ensures var after := MapPage(e, w, page, h).0;
            NoAlias(after.windows) && Flatten(after) == FlatMap(Flatten(e), w, page, h).0 <==> Fit(e, Map(w, page, h))
  {
    if Fit(e, Map(w, page, h)) {
      MapIsFlat(e, w, page, h);
    } else {
      MapAliasesIff(e, w, page, h);
    }
  }

  lemma WriteIsFlat(e: Ems, w: nat, content: Page)
    requires Valid(e) && NoAlias(e.windows) && w < WINDOWS
    ensures Valid(GuestWrite(e, w, content)) && Flatten(GuestWrite(e, w, content)) == FlatWrite(Flatten(e), w, content)
  {
    FlattenShape(e);
    GuestWriteChangesShownPage(e, w, content);
    FlattenIs(GuestWrite(e, w, content), FlatWrite(Flatten(e), w, content));
  }

  lemma OutsideTheFrame(e: Ems, w: nat, content: Page)
    requires Valid(e) && w >= WINDOWS
    ensures FlatWrite(Flatten(e), w, content) == Flatten(e)
  {
  }

  lemma {:induction false} FirstFreeAlike(a: seq<Handle>, b: seq<Handle>)
    requires |a| == |b| && forall h :: 0 <= h < |a| ==> a[h].inUse == b[h].inUse
    ensures FirstFree(a) == FirstFree(b)
  {
    if a != [] && a[0].inUse {
      FirstFreeAlike(a[1..], b[1..]);
    }
  }

  lemma AllocateIsFlat(e: Ems, pages: nat, buffer: Option<seq<Page>>)
    requires Valid(e) && NoAlias(e.windows) && (buffer.Some? ==> |buffer.value| == pages)
    ensures var after := AllocatePages(e, pages, buffer).0;
            && Valid(after) && NoAlias(after.windows)
            && Flatten(after) == AllocatePages(Flatten(e), pages, buffer).0
            && AllocatePages(Flatten(e), pages, buffer).1 == AllocatePages(e, pages, buffer).1
            && AllocatePages(Flatten(e), pages, buffer).2 == AllocatePages(e, pages, buffer).2
  {
    hide Flatten, FlatPages, Logical, Source;
    var (after, code, h) := AllocatePages(e, pages, buffer);
    var f := AllocatePages(Flatten(e), pages, buffer).0;
    FlattenShape(e);
    FirstFreeAlike(e.handles, Flatten(e).handles);
    AllocateValid(e, pages, buffer);
    if code == OK {
      AllocateKeepsContents(e, pages, buffer);
      forall a: nat, p: nat | after.Live(a, p)
        ensures f.Live(a, p) && f.Backing(a, p) == Logical(after, a, p)
      {
        if a == h {
          LogicalIs(after, a, p);
        } else {
          assert e.Live(a, p);
        }
      }
      FlattenIs(after, f);
    }
  }

  lemma DeallocateIsFlat(e: Ems, h: nat)
    requires Valid(e) && NoAlias(e.windows)
    ensures var after := DeallocatePages(e, h).0;
            Valid(after) && NoAlias(after.windows) && Flatten(after) == DeallocatePages(Flatten(e), h).0
  {
    FlattenShape(e);
    if e.Owns(h) {
      DeallocateValid(e, h);
      DeallocateKeepsContents(e, h);
      FlattenIs(DeallocatePages(e, h).0, DeallocatePages(Flatten(e), h).0);
    }
  }

  lemma FlushIsFlat(e: Ems, h: nat)
    requires Valid(e) && NoAlias(e.windows)
    ensures Valid(Flush(e, h, WINDOWS)) && Flatten(Flush(e, h, WINDOWS)) == Flatten(e)
  {
    FlattenShape(e);
    FlushValid(e, h, WINDOWS);
    FlushKeepsContents(e, h);
    FlushSavesNothing(e, h, WINDOWS);
    FlushKeepsSizes(e, h, WINDOWS);
    FlattenIs(Flush(e, h, WINDOWS), Flatten(e));
  }

  lemma {:induction false} FlushKeepsSizes(e: Ems, h: nat, k: nat)
    requires Valid(e) && k <= WINDOWS
    ensures SameSizes(e, Flush(e, h, k))
  {
    if k > 0 {
      FlushKeepsSizes(e, h, k - 1);
      FlushValid(e, h, k - 1);
    }
  }

  lemma ReplacedIsFlat(e: Ems, h: nat, newPages: nat, buffer: Option<seq<Page>>)
    requires Valid(e) && NoAlias(e.windows) && e.Owns(h)
    requires newPages > 0 ==> buffer.Some? && |buffer.value| == newPages
    requires Valid(Replaced(e, h, newPages, buffer))
    ensures var after := Replaced(e, h, newPages, buffer);
            NoAlias(after.windows) && Flatten(after) == Replaced(Flatten(e), h, newPages, buffer)
  {
    hide Flatten, FlatPages, Logical, Source, SameContents;
    var after, f := Replaced(e, h, newPages, buffer), Replaced(Flatten(e), h, newPages, buffer);
    FlattenShape(e);
    ReplacedKeepsContents(e, h, newPages, buffer);
    forall a: nat, p: nat | after.Live(a, p)
      ensures f.Live(a, p) && f.Backing(a, p) == Logical(after, a, p)
    {
      if a == h && |e.handles[h].pages| <= p {
        LogicalIs(after, a, p);
      } else {
        assert e.Live(a, p);
      }
    }
    FlattenIs(after, f);
  }

  lemma ReallocateIsFlat(e: Ems, h: nat, newPages: nat, buffer: Option<seq<Page>>)
    requires Valid(e) && NoAlias(e.windows) && newPages <= 0xFFFF && (buffer.Some? ==> |buffer.value| == newPages)
    ensures var after := ReallocatePages(e, h, newPages, buffer).0;
            && Valid(after) && NoAlias(after.windows)
            && Flatten(after) == FlatReallocate(Flatten(e), h, newPages, buffer).0
  {
    FlattenShape(e);
    ReallocateValid(e, h, newPages, buffer);
    FlushIsFlat(e, h);
    FlushKeepsSizes(e, h, WINDOWS);
    if ReallocatePages(e, h, newPages, buffer).1 == OK && newPages != |e.handles[h].pages| {
      ReplacedIsFlat(Flush(e, h, WINDOWS), h, newPages, buffer);
    }
  }

  lemma SaveIsFlat(e: Ems, h: nat)
    requires Valid(e) && NoAlias(e.windows)
    ensures var after := SavePageMap(e, h).0;
            Valid(after) && NoAlias(after.windows) && Flatten(after) == SavePageMap(Flatten(e), h).0
  {
    var after := SavePageMap(e, h).0;
    FlattenShape(e);
    SaveValid(e, h);
    forall a: nat, p: nat | after.Live(a, p)
      ensures e.Live(a, p) && Logical(e, a, p) == Logical(after, a, p)
    {
      SameLogical(e, after, a, p);
    }
    FlattenIs(after, SavePageMap(Flatten(e), h).0);
  }

  lemma RestoreIsFlatIff(e: Ems, h: nat)
    requires Valid(e) && NoAlias(e.windows)
    ensures var after := RestorePageMap(e, h).0;
            && Valid(after) && IsFlat(Flatten(e))
            && (NoAlias(after.windows) && Flatten(after) == FlatRestore(Flatten(e), h).0 <==> Fit(e, Restore(h)))
  {
    hide Flatten, FlatPages, Logical, Source, NoAlias, Targets, RestoreWindows;
    FlattenShape(e);
    if e.Owns(h) && e.handles[h].isMapSaved {
      var after := RestorePageMap(e, h).0;
      RestoreGivesBackMapIff(e, h);
      RestoreShape(e, h);
      RestoreKeepsContentsIff(e, e.handles[h].savedMap);
      ClearSavedSame(e, h);
      if NoAlias(after.windows) && SameContents(e, after) {
        SameLive(e, h);
        FlattenIs(after, FlatRestore(Flatten(e), h).0);
      }
      if Flatten(after) == FlatRestore(Flatten(e), h).0 {
        FlatSameContents(e, after, h);
      }
    }
  }

  lemma SameLive(e: Ems, h: nat)
    requires Valid(e) && e.Owns(h) && e.handles[h].isMapSaved
    ensures forall a: nat, p: nat :: RestorePageMap(e, h).0.Live(a, p) == e.Live(a, p)
  {
    RestoreLoop(e, e.handles[h].savedMap, WINDOWS);
  }

  lemma {:induction false} RestoreKeepsSizes(e: Ems, saved: seq<Window>, k: nat)
    requires Valid(e) && k <= |saved| == WINDOWS
    ensures SameSizes(e, RestoreWindows(e, saved, k))
  {
    hide RestoreWindow;
    if k > 0 {
      RestoreKeepsSizes(e, saved, k - 1);
      RestoreWindowsValid(e, saved, k - 1);
      RestoreWindowKeepsSizes(RestoreWindows(e, saved, k - 1), saved[k - 1], k - 1);
    }
  }

  lemma RestoreWindowKeepsSizes(e: Ems, saved: Window, w: nat)
    requires Valid(e) && w < WINDOWS
    ensures SameSizes(e, RestoreWindow(e, saved, w))
  {
    hide WriteBack;
    WriteBackSizes(e, w);
    WriteBackStep(e, w);
  }

  lemma TargetsAlike(e: Ems, f: Ems, saved: seq<Window>)
    requires |saved| == |e.windows| == WINDOWS && f.windows == e.windows
    requires forall h: nat :: f.Owns(h) == e.Owns(h)
    requires forall h: nat, p: nat :: f.Live(h, p) == e.Live(h, p)
    ensures Targets(f, saved) == Targets(e, saved)
  {
    SkipsAlike(e, f, saved);
  }

  lemma RestoreShape(e: Ems, h: nat)
    requires Valid(e) && NoAlias(e.windows) && e.Owns(h) && e.handles[h].isMapSaved
    ensures SameShape(RestorePageMap(e, h).0, FlatRestore(Flatten(e), h).0)
  {
    hide Flatten, FlatPages, Logical, Source, RestoreWindows, Targets, NoAlias;
    var saved := e.handles[h].savedMap;
    FlattenShape(e);
    RestoreReachesTargets(e, saved);
    RestoreWindowsValid(e, saved, WINDOWS);
    RestoreWindowsSavesNothing(e, saved, WINDOWS);
    RestoreKeepsSizes(e, saved, WINDOWS);
    TargetsAlike(e, Flatten(e), saved);
  }

  /** The two flat memories' pages are the same, so the contents are. */
  lemma FlatSameContents(e: Ems, after: Ems, h: nat)
    requires Valid(e) && Valid(after) && e.Owns(h) && e.handles[h].isMapSaved
    requires Flatten(after) == FlatRestore(Flatten(e), h).0
    ensures SameContents(e, after)
  {
    hide Flatten, FlatPages, Logical, Source;
    FlattenShape(e);
    FlattenShape(after);
    forall a: nat, p: nat | e.Live(a, p)
      ensures after.Live(a, p) && Logical(after, a, p) == Logical(e, a, p)
    {
      assert Flatten(e).Live(a, p) && Flatten(after).Live(a, p);
      assert Flatten(after).Backing(a, p) == Flatten(e).Backing(a, p);
    }
  }

  /** Every call, fit or not: the guest is told what flat memory would tell it. */
  lemma AnswersAgree(e: Ems, op: Op)
    requires Valid(e) && NoAlias(e.windows) && Possible(op)
    ensures IsFlat(Flatten(e)) && FlatStep(Flatten(e), op).1 == Answer(e, op)
  {
    hide Flatten, FlatPages, Logical, Source, NoAlias, Targets, RestoreWindows, WriteBack, Flush, Replaced;
    FlattenShape(e);
    match op {
      case Allocate(pages, buffer) => AllocateIsFlat(e, pages, buffer);
      case _ =>
    }
  }

  /**
   * For every call: no page is in two windows after it and flat
   * memory's step is matched, exactly when the call is fit.
   */
  lemma StepIsFlatIff(e: Ems, op: Op)
    requires Valid(e) && NoAlias(e.windows) && Possible(op)
    ensures Valid(Step(e, op)) && IsFlat(Flatten(e))
    ensures NoAlias(Step(e, op).windows) && Flatten(Step(e, op)) == FlatStep(Flatten(e), op).0 <==> Fit(e, op)
  {
    hide Flatten, NoAlias, Valid, AllocatePages, DeallocatePages, SavePageMap, RestorePageMap, ReallocatePages,
         FlatMap, FlatWrite, FlatReallocate, FlatRestore, Harmless;
    StepValid(e, op);
    FlattenShape(e);
    match op {
      case Map(w, page, h) => MapIsFlatIff(e, w, page, h);
      case Write(w, content) =>
        if w < WINDOWS {
          WriteIsFlat(e, w, content);
        } else {
          OutsideTheFrame(e, w, content);
        }
      case Allocate(pages, buffer) => AllocateIsFlat(e, pages, buffer);
      case Deallocate(h) => DeallocateIsFlat(e, h);
      case Reallocate(h, newPages, buffer) => ReallocateIsFlat(e, h, newPages, buffer);
      case Save(h) => SaveIsFlat(e, h);
      case Restore(h) => RestoreIsFlatIff(e, h);
    }
  }

  /** Every op of the run is fit when its turn comes. */
  ghost predicate RunFits(e: Ems, ops: seq<Op>)
    requires Valid(e) && forall op :: op in ops ==> Possible(op)
    decreases |ops|
  {
    ops != [] ==> Fit(e, ops[0]) && (StepValid(e, ops[0]); RunFits(Step(e, ops[0]), ops[1..]))
  }

  /** The answers of a run. */
  ghost function Answers(e: Ems, ops: seq<Op>): seq<(nat, nat)>
    requires Valid(e) && forall op :: op in ops ==> Possible(op)
    decreases |ops|
  {
    if ops == [] then [] else StepValid(e, ops[0]); [Answer(e, ops[0])] + Answers(Step(e, ops[0]), ops[1..])
  }

  /**
   * Over every fit run the driver's memory is flat memory's: what the guest can tell after the run on
   * windows, frame and backing pages, and every answer on the way, is what it could tell and was told
   * on pages alone.
   */
  lemma {:induction false} RunIsFlat(e: Ems, ops: seq<Op>)
    requires Valid(e) && NoAlias(e.windows)
    requires (forall op :: op in ops ==> Possible(op)) && RunFits(e, ops)
    ensures IsFlat(Flatten(e)) && NoAlias(Run(e, ops).windows)
    ensures FlatRun(Flatten(e), ops) == (Flatten(Run(e, ops)), Answers(e, ops))
    decreases |ops|
  {
    hide Flatten, NoAlias, Valid, Fit, Step, FlatStep, Answer;
    FlattenShape(e);
    if ops != [] {
      StepIsFlatIff(e, ops[0]);
      AnswersAgree(e, ops[0]);
      RunIsFlat(Step(e, ops[0]), ops[1..]);
    }
  }
}
