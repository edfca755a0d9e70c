/**
 * DOS_EMS_STATE over real buffers: each call's byte copies do to the
 * page frame and backing store what EmsModel says.
 */
module EmsState {
  import opened Machine
  import opened EmsModel
  import EmsTheorems

  const PAGE := 0x4000

  /** The first n pages of a buffer of n pages. */
  function PagesIn(memory: seq<Byte>, n: nat): (pages: seq<Page>)
    requires |memory| == 0x4000 * n
    ensures |pages| == n
  {
    seq(n, p requires 0 <= p < n => memory[0x4000 * p..0x4000 * (p + 1)])
  }

  /** The memory with page p replaced. */
  ghost function WithPage(memory: seq<Byte>, p: nat, content: Page): seq<Byte>
    requires 0x4000 * (p + 1) <= |memory|
  {
    memory[..0x4000 * p] + content + memory[0x4000 * (p + 1)..]
  }

  lemma WithPagePages(memory: seq<Byte>, n: nat, p: nat, content: Page)
    requires |memory| == 0x4000 * n && p < n && |content| == 0x4000
    ensures |WithPage(memory, p, content)| == 0x4000 * n
    ensures PagesIn(WithPage(memory, p, content), n) == PagesIn(memory, n)[p := content]
  {
    var after := WithPage(memory, p, content);
    forall q | 0 <= q < n
      ensures after[0x4000 * q..0x4000 * (q + 1)] == if q == p then content else memory[0x4000 * q..0x4000 * (q + 1)]
    {
    }
  }

  /** DosEmsCopyPage: 16 KB from one buffer to another. */
  method DosEmsCopyPage(destination: array<Byte>, to: nat, source: array<Byte>, from: nat)
    requires destination != source
    requires 0x4000 * (to + 1) <= destination.Length && 0x4000 * (from + 1) <= source.Length
    modifies destination
    ensures destination[..] == WithPage(old(destination[..]), to, source[0x4000 * from..0x4000 * (from + 1)])
  {
    var byteIndex := 0;
    while byteIndex < 0x4000
      invariant 0 <= byteIndex <= 0x4000
      invariant destination[..0x4000 * to] == old(destination[..0x4000 * to])
      invariant destination[0x4000 * to..0x4000 * to + byteIndex] == source[0x4000 * from..0x4000 * from + byteIndex]
      invariant destination[0x4000 * to + byteIndex..] == old(destination[0x4000 * to + byteIndex..])
    {
      destination[0x4000 * to + byteIndex] := source[0x4000 * from + byteIndex];
      byteIndex := byteIndex + 1;
    }
    assert destination[..] == destination[..0x4000 * to] + destination[0x4000 * to..0x4000 * (to + 1)]
                            + destination[0x4000 * (to + 1)..];
  }

  /** One handle's entry; `Memory` is its backing buffer. */
  datatype Entry = Entry(InUse: bool, Pages: Word, Memory: array?<Byte>, IsMapSaved: bool, SavedMap: seq<Window>) {
    /** The buffer has room for exactly the handle's pages. */
    ghost predicate Fits() {
      && (Pages == 0 <==> Memory == null)
      && (Memory != null ==> Memory.Length == 0x4000 * Pages)
      && (!InUse ==> Pages == 0)
    }

    ghost function Abs(): Handle
      requires Fits()
      reads Memory
    {
      Handle(InUse, if Memory == null then [] else PagesIn(Memory[..], Pages), IsMapSaved, SavedMap)
    }
  }

  const UNMAPPED := Window(0, 0, false)
  const UNUSED := Entry(false, 0, null, false, [UNMAPPED, UNMAPPED, UNMAPPED, UNMAPPED])

  class DosEmsState {
    var TotalPages: Word
    var UsedPages: Word
    var PhysicalPages: seq<Window>
    const Frame: array<Byte>
    var Handles: seq<Entry>
    /** The backing buffers the handles may hold. */
    ghost var Buffers: set<array<Byte>>

    /** The buffers fit their handles, and no two share one. */
    ghost predicate Separate()
      reads this
    {
      && Frame.Length == 0x4000 * WINDOWS && Frame !in Buffers
      && |PhysicalPages| == WINDOWS && |Handles| == HANDLES
      && (forall h :: 0 <= h < HANDLES ==> Handles[h].Fits())
      && (forall h :: 0 <= h < HANDLES && Handles[h].Memory != null ==> Handles[h].Memory in Buffers)
      && (forall g, h :: 0 <= g < h < HANDLES && Handles[g].Memory != null ==> Handles[g].Memory != Handles[h].Memory)
    }

    ghost function Abs(): Ems
      requires Separate()
      reads this, Frame, Buffers
    {
      Ems(TotalPages, UsedPages, PhysicalPages, PagesIn(Frame[..], WINDOWS),
          seq(HANDLES, h requires 0 <= h < HANDLES reads this, Frame, Buffers requires Separate() => Handles[h].Abs()))
    }

    ghost predicate Valid()
      reads this, Frame, Buffers
    {
      Separate() && EmsModel.Valid(Abs())
    }

    /** DosEmsInitialize: no window mapped, no handle in use, nothing spent of the pool. */
    constructor DosEmsInitialize(totalPages: Word, frame: array<Byte>)
      requires frame.Length == 0x4000 * WINDOWS
      ensures Valid() && Frame == frame && TotalPages == totalPages && UsedPages == 0
      ensures forall h: nat :: !Abs().Owns(h)
    {
      TotalPages, UsedPages := totalPages, 0;
      PhysicalPages := [UNMAPPED, UNMAPPED, UNMAPPED, UNMAPPED];
      Frame := frame;
      Handles := seq(HANDLES, _ => UNUSED);
      Buffers := {};
      new;
      EmsTheorems.SumOfNone(Abs().handles);
    }

    /** Whatever sits in window `w` goes back to its backing page. */
    method DosEmsWriteBackWindow(w: nat)
      requires Valid() && w < WINDOWS
      modifies Buffers
      ensures Valid()
      ensures Abs() == WriteBack(old(Abs()), w)
    {
      var window := PhysicalPages[w];
      if !window.isMapped {
        return;
      }
      ghost var before := Abs();
      EmsTheorems.WriteBackValid(before, w);
      var entry := Handles[window.handle];
      assert before.handles[window.handle] == entry.Abs();
      if entry.InUse && entry.Memory != null && window.page < entry.Pages {
        ghost var content := Frame[0x4000 * w..0x4000 * (w + 1)];
        WithPagePages(entry.Memory[..], entry.Pages, window.page, content);
        DosEmsCopyPage(entry.Memory, window.page, Frame, w);
        forall h | 0 <= h < HANDLES
          ensures Abs().handles[h] == WriteBack(before, w).handles[h]
        {
          if h != window.handle {
            assert Handles[h].Memory != null ==> Handles[h].Memory != entry.Memory;
            assert Handles[h].Abs() == old(Handles[h].Abs());
          }
        }
        assert Abs().handles == WriteBack(before, w).handles;
      }
    }

    function GetHandle(handle: Word): Option<Entry>
      requires |Handles| == HANDLES
      reads this
    {
      if handle >= HANDLES || !Handles[handle].InUse then None else Some(Handles[handle])
    }

    /** One window's mapping replaced. */
    method SetWindow(w: nat, window: Window)
      requires Separate() && w < WINDOWS
      modifies this`PhysicalPages
      ensures Separate()
      ensures Abs() == old(Abs()).(windows := old(Abs()).windows[w := window])
      ensures PhysicalPages == old(PhysicalPages)[w := window]
    {
      ghost var before := Abs();
      PhysicalPages := PhysicalPages[w := window];
      assert forall h :: 0 <= h < HANDLES ==> Handles[h].Abs() == before.handles[h];
      assert Abs().handles == before.handles;
    }

    method SetUsed(pages: Word)
      requires Separate()
      modifies this`UsedPages
      ensures Separate()
      ensures Abs() == old(Abs()).(used := pages)
    {
      ghost var before := Abs();
      UsedPages := pages;
      assert forall h :: 0 <= h < HANDLES ==> Handles[h].Abs() == before.handles[h];
      assert Abs().handles == before.handles;
    }

    /** Function 44h: a logical page into a window, or 0xFFFF to unmap it. */
    method DosEmsMapPage(physicalPage: Byte, logicalPage: Word, handle: Word) returns (code: nat)
      requires Valid()
      modifies this`PhysicalPages, Frame, Buffers
      ensures Valid()
      ensures (Abs(), code) == MapPage(old(Abs()), physicalPage, logicalPage, handle)
    {
      if physicalPage >= WINDOWS {
        return INVALID_PHYSICAL_PAGE;
      }
      var entry := GetHandle(handle);
      if entry.None? {
        return INVALID_HANDLE;
      }
      assert Abs().handles[handle] == entry.value.Abs();
      EmsTheorems.MapValid(Abs(), physicalPage, logicalPage, handle);
      if logicalPage == UNMAP {
        DosEmsWriteBackWindow(physicalPage);
        SetWindow(physicalPage, PhysicalPages[physicalPage].(isMapped := false));
        return OK;
      }
      if logicalPage >= entry.value.Pages {
        return INVALID_LOGICAL_PAGE;
      }
      DosEmsWriteBackWindow(physicalPage);
      ReadIn(physicalPage, logicalPage, handle);
      SetWindow(physicalPage, Window(handle, logicalPage, true));
      code := OK;
    }

    /** A backing page copied into its window's bytes. */
    method ReadIn(physicalPage: Byte, logicalPage: Word, handle: Word)
      requires Separate() && physicalPage < WINDOWS && Abs().Live(handle, logicalPage)
      modifies Frame
      ensures Separate()
      ensures Abs() == old(Abs()).(frame := old(Abs()).frame[physicalPage := old(Abs()).Backing(handle, logicalPage)])
    {
      ghost var before := Abs();
      var entry := Handles[handle];
      assert before.handles[handle] == entry.Abs();
      ghost var content := entry.Memory[0x4000 * logicalPage..0x4000 * (logicalPage + 1)];
      WithPagePages(Frame[..], WINDOWS, physicalPage, content);
      DosEmsCopyPage(Frame, physicalPage, entry.Memory, logicalPage);
      assert forall h :: 0 <= h < HANDLES ==> Handles[h].Abs() == before.handles[h];
      assert Abs().handles == before.handles;
    }

    /** Function 43h. `granted` is the allocation hook's answer; its buffer comes with any contents. */
    method DosEmsAllocatePages(pages: Word, granted: bool)
      returns (code: nat, newHandle: Word, ghost buffer: Option<seq<Page>>)
      requires Valid()
      modifies this`UsedPages, this`Handles, this`Buffers
      ensures Valid()
      ensures buffer.Some? ==> |buffer.value| == pages
      ensures (Abs(), code, newHandle) == AllocatePages(old(Abs()), pages, buffer)
      ensures buffer.Some? ==> granted
      ensures granted && code == NOT_ENOUGH_PAGES ==> old(UsedPages) + pages > TotalPages
      ensures fresh(Buffers - old(Buffers))
    {
      buffer := None;
      newHandle := 0;
      ghost var before := Abs();
      if pages == 0 {
        return ZERO_PAGES, 0, None;
      }
      if pages > TotalPages {
        return TOO_MANY_PAGES, 0, None;
      }
      if UsedPages as int + pages > TotalPages {
        return NOT_ENOUGH_PAGES, 0, None;
      }
      var handleIndex := FindFreeHandle();
      if handleIndex == HANDLES {
        return NO_HANDLES, 0, None;
      }
      if !granted {
        return NOT_ENOUGH_PAGES, 0, None;
      }
      buffer := Grant(handleIndex, pages);
      return OK, handleIndex, buffer;
    }

    /** A fresh buffer of `pages` pages becomes the free handle's. */
    method Grant(handleIndex: Word, pages: Word) returns (ghost buffer: Option<seq<Page>>)
      requires Valid() && handleIndex == FirstFree(Abs().handles) && handleIndex < HANDLES
      requires 0 < pages && UsedPages as int + pages <= TotalPages
      modifies this`UsedPages, this`Handles, this`Buffers
      ensures Valid() && fresh(Buffers - old(Buffers))
      ensures buffer.Some? && |buffer.value| == pages
      ensures (Abs(), OK, handleIndex) == AllocatePages(old(Abs()), pages, buffer)
    {
      hide PagesIn;
      ghost var before := Abs();
      var memory := new Byte[0x4000 * pages];
      buffer := Some(PagesIn(memory[..], pages));
      assert before.handles[handleIndex] == Handles[handleIndex].Abs();
      var entry := Handles[handleIndex].(InUse := true, Pages := pages, Memory := memory, IsMapSaved := false);
      assert entry.Abs() == Handle(true, buffer.value, false, before.handles[handleIndex].savedMap);
      SetEntry(handleIndex, entry, memory);
      SetUsed(UsedPages + pages);
      assert Abs() == AllocatePages(before, pages, buffer).0;
      EmsTheorems.AllocateValid(before, pages, buffer);
    }

    /** The lowest handle not in use, or HANDLES. */
    method FindFreeHandle() returns (handleIndex: Word)
      requires Valid()
      ensures handleIndex == FirstFree(Abs().handles)
    {
      handleIndex := 0;
      while handleIndex < HANDLES && Handles[handleIndex].InUse
        invariant 0 <= handleIndex <= HANDLES
        invariant forall i :: 0 <= i < handleIndex ==> Handles[i].InUse
      {
        handleIndex := handleIndex + 1;
      }
      assert forall i :: 0 <= i < HANDLES ==> Abs().handles[i].inUse == Handles[i].InUse;
    }

    /** One handle's entry replaced, with a buffer of its own or none. */
    method SetEntry(h: Word, entry: Entry, memory: array?<Byte>)
      requires Separate() && h < HANDLES
      requires entry.Memory == memory && entry.Fits()
      requires memory != null ==> memory !in Buffers && memory != Frame
      modifies this`Handles, this`Buffers
      ensures Separate()
      ensures Abs() == old(Abs()).(handles := old(Abs()).handles[h := entry.Abs()])
      ensures Buffers == old(Buffers) + (if memory == null then {} else {memory})
    {
      ghost var before := Abs();
      Handles := Handles[h := entry];
      if memory != null {
        Buffers := Buffers + {memory};
      }
      forall g | 0 <= g < HANDLES
        ensures Abs().handles[g] == before.handles[h := entry.Abs()][g]
      {
        assert g != h ==> Handles[g].Abs() == old(Handles[g].Abs());
      }
      assert Abs().handles == before.handles[h := entry.Abs()];
    }

    /** Function 45h: live windows are dropped and the handle is free. */
    method DosEmsDeallocatePages(handle: Word) returns (code: nat)
      requires Valid()
      modifies this`PhysicalPages, this`UsedPages, this`Handles, this`Buffers
      ensures Valid() && Buffers == old(Buffers)
      ensures (Abs(), code) == DeallocatePages(old(Abs()), handle)
    {
      var entry := GetHandle(handle);
      if entry.None? {
        return INVALID_HANDLE;
      }
      ghost var before := Abs();
      assert before.handles[handle] == entry.value.Abs();
      EmsTheorems.DeallocateValid(before, handle);
      EmsTheorems.SumAtLeast(before.handles, handle);
      DropWindows(handle, 0);
      SetUsed(UsedPages - entry.value.Pages);
      SetEntry(handle, Handles[handle].(InUse := false, Pages := 0, Memory := null, IsMapSaved := false), null);
      code := OK;
    }

    /** The windows showing pages of `handle` from `from` up are unmapped. */
    method DropWindows(handle: Word, from: Word)
      requires Separate()
      modifies this`PhysicalPages
      ensures Separate()
      ensures Abs() == old(Abs()).(windows := Drop(old(Abs()).windows, handle, from))
    {
      ghost var before := Abs();
      var windowIndex := 0;
      while windowIndex < WINDOWS
        invariant 0 <= windowIndex <= WINDOWS && |PhysicalPages| == WINDOWS
        invariant forall w :: 0 <= w < windowIndex ==> PhysicalPages[w] == Drop(old(PhysicalPages), handle, from)[w]
        invariant forall w :: windowIndex <= w < WINDOWS ==> PhysicalPages[w] == old(PhysicalPages)[w]
      {
        var window := PhysicalPages[windowIndex];
        if window.isMapped && window.handle == handle && window.page >= from {
          PhysicalPages := PhysicalPages[windowIndex := window.(isMapped := false)];
        }
        windowIndex := windowIndex + 1;
      }
      assert PhysicalPages == Drop(before.windows, handle, from);
      assert forall h :: 0 <= h < HANDLES ==> Handles[h].Abs() == before.handles[h];
      assert Abs().handles == before.handles;
    }

    /** Function 51h: the handle's pages moved to a buffer of the new size, after its windows are written back. */
    method DosEmsReallocatePages(handle: Word, newPages: Word, granted: bool)
      returns (code: nat, ghost buffer: Option<seq<Page>>)
      requires Valid()
      modifies this`PhysicalPages, this`UsedPages, this`Handles, this`Buffers, Buffers
      ensures Valid()
      ensures buffer.Some? ==> |buffer.value| == newPages
      ensures (Abs(), code) == ReallocatePages(old(Abs()), handle, newPages, buffer)
      ensures buffer.Some? && newPages > 0 ==> granted
      ensures granted && code == NOT_ENOUGH_PAGES ==>
                var pages := |old(Abs()).handles[handle].pages|;
                newPages > pages && old(UsedPages) - pages + newPages > TotalPages
      ensures fresh(Buffers - old(Buffers))
    {
      buffer := None;
      var entry := GetHandle(handle);
      if entry.None? {
        return INVALID_HANDLE, None;
      }
      ghost var before := Abs();
      assert before.handles[handle] == entry.value.Abs();
      var pages := entry.value.Pages;
      if newPages == pages {
        return OK, None;
      }
      if newPages > pages && UsedPages - pages + newPages > TotalPages {
        return NOT_ENOUGH_PAGES, None;
      }
      FlushWindows(handle);
      EmsTheorems.FlushValid(before, handle, WINDOWS);
      EmsTheorems.FlushKeepsSize(before, handle, WINDOWS);
      if newPages > 0 && !granted {
        return NOT_ENOUGH_PAGES, None;
      }
      EmsTheorems.SumAtLeast(Abs().handles, handle);
      buffer := Replace(handle, newPages);
      code := OK;
    }

    /** The windows that show `handle`, written back. */
    method FlushWindows(handle: Word)
      requires Valid()
      modifies Buffers
      ensures Valid()
      ensures Abs() == Flush(old(Abs()), handle, WINDOWS)
    {
      ghost var before := Abs();
      var windowIndex := 0;
      while windowIndex < WINDOWS
        invariant Valid() && 0 <= windowIndex <= WINDOWS
        invariant Abs() == Flush(before, handle, windowIndex)
      {
        if PhysicalPages[windowIndex].isMapped && PhysicalPages[windowIndex].handle == handle {
          DosEmsWriteBackWindow(windowIndex);
        }
        windowIndex := windowIndex + 1;
      }
    }

    /** The handle's new buffer filled and put in place of the old one. */
    method Replace(handle: Word, newPages: Word) returns (ghost buffer: Option<seq<Page>>)
      requires Valid() && handle < HANDLES && Handles[handle].InUse
      requires 0 <= UsedPages - Handles[handle].Pages
      requires UsedPages - Handles[handle].Pages + newPages <= TotalPages
      modifies this`PhysicalPages, this`UsedPages, this`Handles, this`Buffers
      ensures Valid() && fresh(Buffers - old(Buffers))
      ensures buffer.Some? ==> |buffer.value| == newPages
      ensures newPages > 0 ==> buffer.Some?
      ensures Abs() == Replaced(old(Abs()), handle, newPages, buffer)
    {
      ghost var before := Abs();
      buffer := None;
      var entry := Handles[handle];
      assert before.handles[handle] == entry.Abs();
      hide EmsModel.Valid, Drop, PagesIn;
      var memory: array?<Byte> := null;
      if newPages > 0 {
        memory, buffer := CopyPages(entry, newPages);
      }
      EmsTheorems.ReplacedValid(before, handle, newPages, buffer);
      var moved := entry.(Memory := memory, Pages := newPages);
      assert moved.Abs() == Replaced(before, handle, newPages, buffer).handles[handle];
      Install(handle, moved, memory, UsedPages - entry.Pages + newPages);
    }

    /** The handle's windows on pages it no longer has dropped, and its entry put in place. */
    method Install(handle: Word, moved: Entry, memory: array?<Byte>, used: Word)
      requires Separate() && handle < HANDLES
      requires moved.Memory == memory && moved.Fits()
      requires memory != null ==> memory !in Buffers && memory != Frame
      modifies this`PhysicalPages, this`UsedPages, this`Handles, this`Buffers
      ensures Separate()
      ensures Abs() == old(Abs()).(windows := Drop(old(Abs()).windows, handle, moved.Pages), used := used,
                                   handles := old(Abs()).handles[handle := moved.Abs()])
      ensures Buffers == old(Buffers) + (if memory == null then {} else {memory})
    {
      hide EmsModel.Valid, Drop, PagesIn;
      DropWindows(handle, moved.Pages);
      SetUsed(used);
      SetEntry(handle, moved, memory);
    }

    /** A buffer of `newPages` pages holding the pages both sizes have. */
    method CopyPages(entry: Entry, newPages: Word) returns (memory: array<Byte>, ghost buffer: Option<seq<Page>>)
      requires entry.Fits() && newPages > 0
      ensures fresh(memory) && memory.Length == 0x4000 * newPages
      ensures buffer.Some? && |buffer.value| == newPages
      ensures var pages, kept := entry.Abs().pages, Min(entry.Pages, newPages);
              PagesIn(memory[..], newPages) == pages[..kept] + buffer.value[kept..]
    {
      memory := new Byte[0x4000 * newPages];
      ghost var initial := memory[..];
      buffer := Some(PagesIn(initial, newPages));
      var kept := if newPages < entry.Pages then newPages else entry.Pages;
      var bytesToKeep := 0x4000 * kept;
      var byteIndex := 0;
      while byteIndex < bytesToKeep
        invariant 0 <= byteIndex <= bytesToKeep
        invariant forall k :: 0 <= k < byteIndex ==> memory[k] == entry.Memory[k]
        invariant forall k :: byteIndex <= k < memory.Length ==> memory[k] == initial[k]
      {
        memory[byteIndex] := entry.Memory[byteIndex];
        byteIndex := byteIndex + 1;
      }
      ghost var pages := entry.Abs().pages;
      forall p | 0 <= p < newPages
        ensures PagesIn(memory[..], newPages)[p] == (pages[..kept] + buffer.value[kept..])[p]
      {
        ghost var content := memory[0x4000 * p..0x4000 * (p + 1)];
        if p < kept {
          assert content == entry.Memory[..][0x4000 * p..0x4000 * (p + 1)];
        } else {
          assert content == initial[0x4000 * p..0x4000 * (p + 1)];
        }
      }
    }

    /** Function 47h: the four mappings are kept with the handle. */
    method DosEmsSavePageMap(handle: Word) returns (code: nat)
      requires Valid()
      modifies this`Handles, this`Buffers
      ensures Valid() && Buffers == old(Buffers)
      ensures (Abs(), code) == SavePageMap(old(Abs()), handle)
    {
      var entry := GetHandle(handle);
      if entry.None? {
        return INVALID_HANDLE;
      }
      ghost var before := Abs();
      assert before.handles[handle] == entry.value.Abs();
      if entry.value.IsMapSaved {
        return MAP_ALREADY_SAVED;
      }
      KeepEntry(handle, entry.value.(SavedMap := PhysicalPages, IsMapSaved := true));
      EmsTheorems.SumUpdate(before.handles, handle,
                            before.handles[handle].(savedMap := before.windows, isMapSaved := true));
      code := OK;
    }

    /** One handle's entry replaced by one over the same buffer. */
    method KeepEntry(h: Word, entry: Entry)
      requires Separate() && h < HANDLES
      requires entry.Memory == Handles[h].Memory && entry.Fits()
      modifies this`Handles
      ensures Separate()
      ensures Abs() == old(Abs()).(handles := old(Abs()).handles[h := entry.Abs()])
    {
      ghost var before := Abs();
      Handles := Handles[h := entry];
      forall g | 0 <= g < HANDLES
        ensures Abs().handles[g] == before.handles[h := entry.Abs()][g]
      {
        assert g != h ==> Handles[g].Abs() == old(Handles[g].Abs());
      }
      assert Abs().handles == before.handles[h := entry.Abs()];
    }

    /** Function 48h: the saved mappings put back window by window, a refused one skipped. */
    method DosEmsRestorePageMap(handle: Word) returns (code: nat)
      requires Valid()
      modifies this`PhysicalPages, this`Handles, Frame, Buffers
      ensures Valid()
      ensures (Abs(), code) == RestorePageMap(old(Abs()), handle)
    {
      var entry := GetHandle(handle);
      if entry.None? {
        return INVALID_HANDLE;
      }
      ghost var before := Abs();
      assert before.handles[handle] == entry.value.Abs();
      if !entry.value.IsMapSaved {
        return MAP_NOT_SAVED;
      }
      var windowIndex := 0;
      while windowIndex < WINDOWS
        invariant Valid() && 0 <= windowIndex <= WINDOWS
        invariant Handles == old(Handles)
        invariant Abs() == RestoreWindows(before, entry.value.SavedMap, windowIndex)
      {
        RestoreOne(windowIndex, entry.value.SavedMap[windowIndex]);
        windowIndex := windowIndex + 1;
      }
      ClearSaved(handle);
      code := OK;
    }

    method ClearSaved(handle: Word)
      requires Valid() && handle < HANDLES
      modifies this`Handles
      ensures Valid()
      ensures Abs() == old(Abs()).(handles :=
                                   old(Abs()).handles[handle := old(Abs()).handles[handle].(isMapSaved := false)])
    {
      ghost var before := Abs();
      assert before.handles[handle] == Handles[handle].Abs();
      EmsTheorems.SumUpdate(before.handles, handle, before.handles[handle].(isMapSaved := false));
      KeepEntry(handle, Handles[handle].(IsMapSaved := false));
    }

    method RestoreOne(windowIndex: Byte, saved: Window)
      requires Valid() && windowIndex < WINDOWS
      modifies this`PhysicalPages, Frame, Buffers
      ensures Valid()
      ensures Abs() == RestoreWindow(old(Abs()), saved, windowIndex)
    {
      if saved.isMapped {
        var _ := DosEmsMapPage(windowIndex, saved.page, saved.handle);
      } else {
        EmsTheorems.UnmapValid(Abs(), windowIndex);
        DosEmsWriteBackWindow(windowIndex);
        SetWindow(windowIndex, PhysicalPages[windowIndex].(isMapped := false));
      }
    }
  }
}
