/** Expanded memory by the page: four windows in front of each handle's backing pages, and what each call does. */
module EmsModel {
  import opened Machine

  const WINDOWS := 4
  const HANDLES := 64
  const UNMAP := 0xFFFF

  const OK := 0
  const INVALID_HANDLE := 0x83
  const NO_HANDLES := 0x85
  const TOO_MANY_PAGES := 0x87
  const NOT_ENOUGH_PAGES := 0x88
  const ZERO_PAGES := 0x89
  const INVALID_LOGICAL_PAGE := 0x8A
  const INVALID_PHYSICAL_PAGE := 0x8B
  const MAP_ALREADY_SAVED := 0x8D
  const MAP_NOT_SAVED := 0x8E

  type Page = seq<Byte>

  /** The state of one window: mapped or not, and to a page of a handle. */
  datatype Window = Window(handle: Word, page: Word, isMapped: bool) {
    predicate Shows(h: nat, p: nat) {
      isMapped && handle == h && page == p
    }

    /** The mapping without the fields an unmapped window leaves behind. */
    function View(): Option<(nat, nat)> {
      if isMapped then Some((handle, page)) else None
    }
  }

  datatype Handle = Handle(inUse: bool, pages: seq<Page>, isMapSaved: bool, savedMap: seq<Window>)

  datatype Ems = Ems(total: nat, used: int, windows: seq<Window>, frame: seq<Page>, handles: seq<Handle>) {
    predicate Owns(h: nat) {
      h < |handles| && handles[h].inUse
    }

    /** Logical page p of handle h exists. */
    predicate Live(h: nat, p: nat) {
      Owns(h) && p < |handles[h].pages|
    }

    function Backing(h: nat, p: nat): Page
      requires Live(h, p)
    {
      handles[h].pages[p]
    }

    function SetBacking(h: nat, p: nat, content: Page): Ems
      requires Live(h, p)
    {
      this.(handles := handles[h := handles[h].(pages := handles[h].pages[p := content])])
    }
  }

  /** The pages live handles own, added up. */
  function Sum(handles: seq<Handle>): nat {
    if handles == [] then 0 else |handles[0].pages| + Sum(handles[1..])
  }

  ghost predicate Valid(e: Ems) {
    && |e.windows| == WINDOWS && |e.frame| == WINDOWS && |e.handles| == HANDLES
    && (forall w :: 0 <= w < WINDOWS && e.windows[w].isMapped ==> e.Live(e.windows[w].handle, e.windows[w].page))
    && (forall h :: 0 <= h < HANDLES && !e.handles[h].inUse ==> e.handles[h].pages == [])
    && (forall h :: 0 <= h < HANDLES ==> |e.handles[h].pages| <= UNMAP)
    && (forall h :: 0 <= h < HANDLES ==> |e.handles[h].savedMap| == WINDOWS)
    && e.used == Sum(e.handles) <= e.total <= 0xFFFF
  }

  /** No logical page is in two windows at once. */
  ghost predicate NoAlias(windows: seq<Window>) {
    forall i, j :: 0 <= i < j < |windows| && windows[i].isMapped && windows[j].isMapped ==>
      windows[i].handle != windows[j].handle || windows[i].page != windows[j].page
  }

  /** The page as the windows below k and the backing store have it. */
  function Source(e: Ems, h: nat, p: nat, k: nat): Page
    requires e.Live(h, p) && k <= |e.windows| <= |e.frame|
  {
    if k == 0 then e.Backing(h, p)
    else if e.windows[k - 1].Shows(h, p) then e.frame[k - 1]
    else Source(e, h, p, k - 1)
  }

  /** The contents of logical page p: its window's bytes while it is in one, else its backing bytes. */
  function Logical(e: Ems, h: nat, p: nat): Page
    requires e.Live(h, p) && |e.windows| <= |e.frame|
  {
    Source(e, h, p, |e.windows|)
  }

  /** Every page of `was` is in `now` with the same contents. */
  ghost predicate SameContents(was: Ems, now: Ems)
    requires |was.windows| <= |was.frame| && |now.windows| <= |now.frame|
  {
    forall h: nat, p: nat :: was.Live(h, p) ==> now.Live(h, p) && Logical(now, h, p) == Logical(was, h, p)
  }

  // ---- the calls ----

  function WriteBack(e: Ems, w: nat): Ems
    requires w < |e.windows| <= |e.frame|
  {
    var window := e.windows[w];
    if window.isMapped && e.Live(window.handle, window.page)
    then e.SetBacking(window.handle, window.page, e.frame[w])
    else e
  }

  function Unmap(e: Ems, w: nat): Ems
    requires w < |e.windows| <= |e.frame|
  {
    var flushed := WriteBack(e, w);
    flushed.(windows := flushed.windows[w := flushed.windows[w].(isMapped := false)])
  }

  function MapPage(e: Ems, physical: nat, logical: Word, handle: Word): (r: (Ems, nat))
    requires |e.windows| == |e.frame| == WINDOWS
  {
    if physical >= WINDOWS then (e, INVALID_PHYSICAL_PAGE)
    else if !e.Owns(handle) then (e, INVALID_HANDLE)
    else if logical == UNMAP then (Unmap(e, physical), OK)
    else if logical >= |e.handles[handle].pages| then (e, INVALID_LOGICAL_PAGE)
    else
      var flushed := WriteBack(e, physical);
      (flushed.(frame := flushed.frame[physical := flushed.Backing(handle, logical)],
                windows := flushed.windows[physical := Window(handle, logical, true)]), OK)
  }

  /** The lowest handle not in use, or |handles|. */
  function FirstFree(handles: seq<Handle>): (h: nat)
    ensures h <= |handles|
    ensures h < |handles| ==> !handles[h].inUse
    ensures forall i :: 0 <= i < h ==> handles[i].inUse
  {
    if handles == [] || !handles[0].inUse then 0 else 1 + FirstFree(handles[1..])
  }

  /** `buffer` is the allocator's answer: fresh pages of any contents, or nothing. */
  function AllocatePages(e: Ems, pages: nat, buffer: Option<seq<Page>>): (Ems, nat, nat)
    requires buffer.Some? ==> |buffer.value| == pages
  {
    var h := FirstFree(e.handles);
    if pages == 0 then (e, ZERO_PAGES, 0)
    else if pages > e.total then (e, TOO_MANY_PAGES, 0)
    else if e.used + pages > e.total then (e, NOT_ENOUGH_PAGES, 0)
    else if h == |e.handles| then (e, NO_HANDLES, 0)
    else if buffer.None? then (e, NOT_ENOUGH_PAGES, 0)
    else (e.(handles := e.handles[h := Handle(true, buffer.value, false, e.handles[h].savedMap)],
             used := e.used + pages), OK, h)
  }

  /** The windows that show pages of handle h from page `from` up are dropped. */
  function Drop(windows: seq<Window>, h: nat, from: nat): (r: seq<Window>)
    ensures |r| == |windows|
    ensures forall w :: 0 <= w < |windows| ==>
              r[w] == if windows[w].isMapped && windows[w].handle == h && windows[w].page >= from
                      then windows[w].(isMapped := false) else windows[w]
  {
    seq(|windows|, w requires 0 <= w < |windows| =>
      if windows[w].isMapped && windows[w].handle == h && windows[w].page >= from
      then windows[w].(isMapped := false) else windows[w])
  }

  function DeallocatePages(e: Ems, h: nat): (Ems, nat) {
    if !e.Owns(h) then (e, INVALID_HANDLE)
    else (e.(windows := Drop(e.windows, h, 0),
             used := e.used - |e.handles[h].pages|,
             handles := e.handles[h := Handle(false, [], false, e.handles[h].savedMap)]), OK)
  }

  /** The windows below k that show handle h, written back. */
  function Flush(e: Ems, h: nat, k: nat): Ems
    requires k <= |e.windows| <= |e.frame|
    ensures var f := Flush(e, h, k); f.windows == e.windows && f.frame == e.frame && |f.handles| == |e.handles|
  {
    if k == 0 then e
    else
      var before := Flush(e, h, k - 1);
      if before.windows[k - 1].isMapped && before.windows[k - 1].handle == h then WriteBack(before, k - 1) else before
  }

  function ReallocatePages(e: Ems, h: nat, newPages: nat, buffer: Option<seq<Page>>): (Ems, nat)
    requires |e.windows| == |e.frame| == WINDOWS
    requires buffer.Some? ==> |buffer.value| == newPages
  {
    if !e.Owns(h) then (e, INVALID_HANDLE)
    else
      var pages := |e.handles[h].pages|;
      if newPages == pages then (e, OK)
      else if newPages > pages && e.used - pages + newPages > e.total then (e, NOT_ENOUGH_PAGES)
      else
        var flushed := Flush(e, h, WINDOWS);
        if newPages > 0 && buffer.None? then (flushed, NOT_ENOUGH_PAGES)
        else (Replaced(flushed, h, newPages, buffer), OK)
  }

  /** The handle's pages moved into the new buffer: as many as both sizes have, then the buffer's own. */
  function Replaced(e: Ems, h: nat, newPages: nat, buffer: Option<seq<Page>>): Ems
    requires h < |e.handles| && (newPages > 0 ==> buffer.Some? && |buffer.value| == newPages)
  {
    var pages := e.handles[h].pages;
    var kept := Min(|pages|, newPages);
    e.(windows := Drop(e.windows, h, newPages),
       used := e.used - |pages| + newPages,
       handles := e.handles[h := e.handles[h].(pages :=
                    if newPages == 0 then [] else pages[..kept] + buffer.value[kept..])])
  }

  function SavePageMap(e: Ems, h: nat): (Ems, nat) {
    if !e.Owns(h) then (e, INVALID_HANDLE)
    else if e.handles[h].isMapSaved then (e, MAP_ALREADY_SAVED)
    else (e.(handles := e.handles[h := e.handles[h].(savedMap := e.windows, isMapSaved := true)]), OK)
  }

  /** One window put back as `saved` has it; a mapping that is refused leaves the window alone. */
  function RestoreWindow(e: Ems, saved: Window, w: nat): Ems
    requires w < |e.windows| == |e.frame| == WINDOWS
  {
    if saved.isMapped then MapPage(e, w, saved.page, saved.handle).0 else Unmap(e, w)
  }

  /** The windows below k restored, in order. */
  function RestoreWindows(e: Ems, saved: seq<Window>, k: nat): (r: Ems)
    requires k <= |saved| == |e.windows| == |e.frame| == WINDOWS
    ensures |r.windows| == |r.frame| == WINDOWS && |r.handles| == |e.handles|
  {
    if k == 0 then e else RestoreWindow(RestoreWindows(e, saved, k - 1), saved[k - 1], k - 1)
  }

  function RestorePageMap(e: Ems, h: nat): (Ems, nat)
    requires |e.windows| == |e.frame| == WINDOWS
    requires e.Owns(h) && e.handles[h].isMapSaved ==> |e.handles[h].savedMap| == WINDOWS
  {
    if !e.Owns(h) then (e, INVALID_HANDLE)
    else if !e.handles[h].isMapSaved then (e, MAP_NOT_SAVED)
    else
      var restored := RestoreWindows(e, e.handles[h].savedMap, WINDOWS);
      (restored.(handles := restored.handles[h := restored.handles[h].(isMapSaved := false)]), OK)
  }

  /** The guest's own store into window w of the frame. */
  function GuestWrite(e: Ems, w: nat, content: Page): Ems
    requires w < |e.frame|
  {
    e.(frame := e.frame[w := content])
  }
}
