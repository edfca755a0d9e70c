/** DOS_MACHINE's handle fields and the routines that update them, closing Win32 handles as they go. */
module HandleMachine {
  import opened Machine
  import opened HandleTables
  import opened HandleTheorems

  class DosMachine {
    var FileHandles: seq<Host>
    var StdOpen: set<nat>
    var DeviceKind: seq<Byte>
    var JftKnown: seq<Byte>
    var SftHost: seq<Host>
    var HandleStack: seq<Frame>
    var HandleDepth: nat

    /** The Win32 handles this process has open. */
    ghost var HostOpen: set<Host>

    function Now(): Frame
      reads this
    {
      Frame(FileHandles, StdOpen, DeviceKind, JftKnown)
    }

    ghost function Abs(): State
      requires |HandleStack| == STACK_DEPTH
      reads this
    {
      State(Now(), HandleStack[..Min(HandleDepth, STACK_DEPTH)], HandleDepth, SftHost, HostOpen)
    }

    ghost predicate Valid()
      reads this
    {
      |HandleStack| == STACK_DEPTH && Inv(Abs())
    }

    /** DosInt21Initialize's share: nothing bound, the five standard devices open, nothing saved. */
    constructor DosInt21Initialize()
      ensures Valid() && Abs() == Initial() && HandleDepth == 0 && HostOpen == {}
      ensures forall slot :: 0 <= slot < MAX_FILES ==> FileHandles[slot] == 0
      ensures forall slot :: 0 <= slot < STANDARD_HANDLES ==> IsDevice(FileHandles, StdOpen, slot)
    {
      FileHandles := seq(MAX_FILES, _ => 0);
      StdOpen := {0, 1, 2, 3, 4};
      DeviceKind := seq(DEVICE_SLOTS, slot => if slot == 3 then 0 else if slot == 4 then 2 else DEVICE_CON);
      JftKnown := seq(JFT_HANDLES,
          slot => if slot < 3 then DEVICE_CON else if slot == 3 then 0 else if slot == 4 then 2 else JFT_CLOSED);
      SftHost := seq(256, _ => 0);
      HandleStack := seq(STACK_DEPTH, _ => Frame([], {}, [], []));
      HandleDepth := 0;
      HostOpen := {};
    }

    /** Win32's CloseHandle: only an open handle may be closed. */
    ghost method CloseHandle(handle: Host)
      requires handle in HostOpen
      modifies this`HostOpen
      ensures HostOpen == old(HostOpen) - {handle}
    {
      HostOpen := HostOpen - {handle};
    }

    method DosHandleIsHeldByParent(handle: Host) returns (isHeld: bool)
      requires |HandleStack| == STACK_DEPTH && StateOk(Abs())
      ensures isHeld <==> handle != 0 && Held(Abs().saved, handle)
    {
      if handle == 0 {
        return false;
      }
      ghost var saved := Abs().saved;
      var depth := 0;
      while depth < HandleDepth && depth < STACK_DEPTH
        invariant 0 <= depth <= |saved|
        invariant forall d :: 0 <= d < depth ==> handle !in saved[d].files
      {
        assert HandleStack[depth] == saved[depth] && FrameOk(saved[depth]);
        var index := 0;
        while index < MAX_FILES
          invariant 0 <= index <= MAX_FILES
          invariant forall i :: 0 <= i < index ==> HandleStack[depth].files[i] != handle
        {
          if HandleStack[depth].files[index] == handle {
            assert handle in saved[depth].files;
            return true;
          }
          index := index + 1;
        }
        depth := depth + 1;
      }
      isHeld := false;
    }

    method DosHandleRelease(slot: nat)
      requires Valid()
      modifies this`FileHandles, this`HostOpen
      ensures Valid()
      ensures Abs() == Release(old(Abs()), slot)
    {
      ReleaseKeeps(Abs(), slot);
      if slot >= MAX_FILES || FileHandles[slot] == 0 {
        return;
      }
      var isHeld := DosHandleIsHeldByParent(FileHandles[slot]);
      if !isHeld {
        CloseHandle(FileHandles[slot]);
      }
      FileHandles := FileHandles[slot := 0];
    }

    /** The first slot that holds no file and is no open device; MAX_FILES when there is none. */
    method DosHandleAllocate() returns (slot: nat)
      requires FrameOk(Now())
      ensures slot == LowestFree(Now(), 0)
    {
      slot := 0;
      while slot < MAX_FILES
        invariant slot <= MAX_FILES
        invariant LowestFree(Now(), 0) == LowestFree(Now(), slot)
      {
        if FileHandles[slot] == 0 && !IsDevice(FileHandles, StdOpen, slot) {
          break;
        }
        slot := slot + 1;
      }
    }

    method DosHandleSetDevice(handle: nat, isDevice: bool) returns (ok: bool)
      modifies this`StdOpen
      ensures ok <==> handle < DEVICE_SLOTS
      ensures StdOpen == if !ok then old(StdOpen)
                         else if isDevice then old(StdOpen) + {handle} else old(StdOpen) - {handle}
    {
      if handle >= DEVICE_SLOTS {
        return false;
      }
      StdOpen := if isDevice then StdOpen + {handle} else StdOpen - {handle};
      ok := true;
    }

    /** The open and create arms, once CreateFile has given `file`. */
    method FileOpened(file: Host) returns (slot: nat)
      requires Valid() && file != 0 && file !in HostOpen
      modifies this`FileHandles, this`HostOpen
      ensures Valid()
      ensures (Abs(), slot) == OpenFile(old(Abs()), file)
    {
      hide AllOpen, SharedOnlyAbove, Held, IsFreeSlot;
      OpenKeeps(Abs(), file);
      HostOpen := HostOpen + {file};
      slot := DosHandleAllocate();
      if slot < MAX_FILES {
        FileHandles := FileHandles[slot := file];
      } else {
        CloseHandle(file);
        assert HostOpen == old(HostOpen);
      }
    }

    /** AH=3Eh. */
    method CloseArm(handle: nat)
      requires Valid()
      modifies this`FileHandles, this`StdOpen, this`HostOpen
      ensures Valid()
      ensures Abs() == CloseFile(old(Abs()), handle)
    {
      CloseKeeps(Abs(), handle);
      if IsFile(FileHandles, handle) {
        DosHandleRelease(handle);
      } else {
        var _ := DosHandleSetDevice(handle, false);
      }
    }

    /** AH=45h; `copy` is DuplicateHandle's answer for a file, 0 for failure. */
    method DupArm(source: nat, copy: Host) returns (code: nat, target: nat)
      requires Valid() && copy !in HostOpen
      modifies this`FileHandles, this`StdOpen, this`DeviceKind, this`HostOpen
      ensures Valid()
      ensures (Abs(), code, target) == Dup(old(Abs()), source, copy)
    {
      DupKeeps(Abs(), source, copy);
      var isDevice := IsDevice(FileHandles, StdOpen, source);
      if !isDevice && !IsFile(FileHandles, source) {
        return INVALID_HANDLE, 0;
      }
      if !isDevice && copy == 0 {
        return INVALID_HANDLE, 0;
      }
      if !isDevice {
        HostOpen := HostOpen + {copy};
      }
      target := DosHandleAllocate();
      if target >= MAX_FILES {
        if !isDevice {
          CloseHandle(copy);
        }
        assert HostOpen == old(HostOpen);
        return TOO_MANY_OPEN_FILES, 0;
      }
      if isDevice {
        var ok := DosHandleSetDevice(target, true);
        if !ok {
          return TOO_MANY_OPEN_FILES, 0;
        }
        FileHandles := FileHandles[target := 0];
        DeviceKind := DeviceKind[target := if source < DEVICE_SLOTS then DeviceKind[source] else DEVICE_CON];
      } else {
        FileHandles := FileHandles[target := copy];
      }
      code := 0;
    }

    /** AH=46h. */
    method Dup2Arm(source: nat, target: nat, copy: Host) returns (code: nat)
      requires Valid() && copy !in HostOpen
      modifies this`FileHandles, this`StdOpen, this`DeviceKind, this`HostOpen
      ensures Valid()
      ensures (Abs(), code) == Dup2(old(Abs()), source, target, copy)
    {
      Dup2Keeps(Abs(), source, target, copy);
      var isDevice := IsDevice(FileHandles, StdOpen, source);
      if !isDevice && !IsFile(FileHandles, source) {
        return INVALID_HANDLE;
      }
      if !isDevice && copy == 0 {
        return INVALID_HANDLE;
      }
      if target >= MAX_FILES {
        // A file's copy is opened and closed again.
        return INVALID_HANDLE;
      }
      if isDevice {
        var ok := DosHandleSetDevice(target, true);
        if !ok {
          return TOO_MANY_OPEN_FILES;
        }
        SameHandlesKeep(old(Abs()), Abs());
        DosHandleRelease(target);
        FileHandles := FileHandles[target := 0];
        DeviceKind := DeviceKind[target := if source < DEVICE_SLOTS then DeviceKind[source] else DEVICE_CON];
        assert Abs() == Dup2(old(Abs()), source, target, copy).0;
      } else {
        CopyOver(target, copy);
        var ok := DosHandleSetDevice(target, false);
        assert !ok ==> StdOpen - {} == StdOpen;
        assert Abs() == Dup2(old(Abs()), source, target, copy).0;
      }
      code := 0;
    }

    /** The target's own file released, then the fresh copy bound in its place. */
    method CopyOver(target: nat, copy: Host)
      requires Valid() && target < MAX_FILES && copy != 0 && copy !in HostOpen
      modifies this`FileHandles, this`HostOpen
      ensures |HandleStack| == STACK_DEPTH
      ensures Abs() == Bind(Release(old(Abs()).(open := old(Abs()).open + {copy}), target), target, copy)
    {
      ReleaseCommutes(Abs(), target, copy);
      DosHandleRelease(target);
      HostOpen := HostOpen + {copy};
      FileHandles := FileHandles[target := copy];
    }

    method DosHandlesPush()
      requires Valid()
      modifies this`HandleStack, this`HandleDepth
      ensures |HandleStack| == STACK_DEPTH
      ensures Abs() == Push(old(Abs()))
    {
      if HandleDepth >= STACK_DEPTH {
        HandleDepth := HandleDepth + 1;
        return;
      }
      HandleStack := HandleStack[HandleDepth := Frame(FileHandles, StdOpen, DeviceKind, JftKnown)];
      HandleDepth := HandleDepth + 1;
      assert HandleStack[..HandleDepth] == old(HandleStack)[..old(HandleDepth)] + [old(Now())];
    }

    /** The parent's JFT edits applied to the child's standard slots, and the JFT copied into the child's PSP. */
    method DosJftExec(jft: Option<seq<Byte>>, childJft: Option<seq<Byte>>) returns (childAfter: Option<seq<Byte>>)
      requires |HandleStack| == STACK_DEPTH && StateOk(Abs())
      requires (jft.Some? ==> |jft.value| <= JFT_HANDLES) && (childJft.Some? ==> |childJft.value| <= JFT_HANDLES)
      modifies this`FileHandles, this`StdOpen, this`DeviceKind, this`JftKnown
      ensures |HandleStack| == STACK_DEPTH
      ensures Abs() == JftExec(old(Abs()), jft, JftKnown)
      ensures jft.None? ==> Abs() == old(Abs()) && childAfter == childJft
      ensures jft.Some? && childJft.Some? ==>
                && childAfter.Some? && |childAfter.value| == |childJft.value|
                && (forall h :: 0 <= h < |childJft.value| ==>
                      childAfter.value[h] == if h < |jft.value| then jft.value[h] else childJft.value[h])
                && |JftKnown| == JFT_HANDLES
                && forall h :: 0 <= h < JFT_HANDLES ==>
                     JftKnown[h] == if h < |childJft.value| then childAfter.value[h] else JFT_CLOSED
    {
      childAfter := childJft;
      if jft.None? {
        return;
      }
      var count := |jft.value|;
      ghost var f := Now();
      var handle := 0;
      while handle < count && handle < STANDARD_HANDLES
        invariant 0 <= handle <= Min(count, STANDARD_HANDLES)
        invariant FrameOk(Now()) && Now() == ApplyEdits(f, SftHost, jft.value, handle)
      {
        var value := jft.value[handle];
        if value == JftKnown[handle] {
        } else if value == JFT_CLOSED {
          FileHandles := FileHandles[handle := 0];
          StdOpen := StdOpen - {handle};
        } else if value <= JFT_PRN {
          FileHandles := FileHandles[handle := 0];
          StdOpen := StdOpen + {handle};
          DeviceKind := DeviceKind[handle := value];
        } else if SftHost[value] != 0 {
          FileHandles := FileHandles[handle := SftHost[value]];
        }
        handle := handle + 1;
      }
      if childJft.Some? {
        var child := childJft.value;
        handle := 0;
        while handle < count && handle < |child|
          invariant 0 <= handle <= Min(count, |childJft.value|) && |child| == |childJft.value|
          invariant forall h :: 0 <= h < |child| ==> child[h] == if h < handle then jft.value[h] else childJft.value[h]
        {
          child := child[handle := jft.value[handle]];
          handle := handle + 1;
        }
        childAfter := Some(child);
      }
      var after := childAfter;
      JftKnown := seq(JFT_HANDLES, h requires 0 <= h < JFT_HANDLES =>
        if after.Some? && h < |after.value| then after.value[h] else JFT_CLOSED);
    }

    /** Terminate: the child's leftovers closed, each once, and the parent's table put back. */
    method DosHandlesPop(isTsr: bool)
      requires Valid()
      modifies this`FileHandles, this`StdOpen, this`DeviceKind, this`JftKnown, this`HandleDepth, this`HostOpen
      ensures Valid()
      ensures Abs() == Pop(old(Abs()), isTsr)
    {
      hide AllOpen, SharedOnlyAbove, Held;
      if HandleDepth == 0 {
        return;
      }
      if HandleDepth > STACK_DEPTH {
        DeepPopKeeps(Abs(), isTsr);
        HandleDepth := HandleDepth - 1;
        return;
      }
      PopKeeps(Abs(), isTsr);
      if !isTsr {
        CloseLeftovers();
      }
      var depth := HandleDepth - 1;
      assert HandleStack[depth] == old(Abs()).saved[depth];
      HandleDepth := depth;
      FileHandles := HandleStack[depth].files;
      StdOpen := HandleStack[depth].std;
      DeviceKind := HandleStack[depth].kind;
      JftKnown := HandleStack[depth].known;
      assert HandleStack[..depth] == old(Abs()).saved[..depth];
    }

    method CloseLeftovers()
      requires Valid() && 0 < HandleDepth <= STACK_DEPTH
      modifies this`HostOpen
      ensures HostOpen == old(HostOpen) - Leftovers(old(Abs()))
    {
      ghost var s := Abs();
      ghost var closed: set<Host> := {};
      var index := 0;
      while index < MAX_FILES
        invariant 0 <= index <= MAX_FILES
        invariant closed == set h | h in FileHandles[..index] && h != 0 && !Held(s.saved, h)
        invariant HostOpen == old(HostOpen) - closed
      {
        var handle := FileHandles[index];
        assert FileHandles[..index + 1] == FileHandles[..index] + [handle];
        var isHeld := DosHandleIsHeldByParent(handle);
        if handle != 0 && !isHeld {
          var isDuplicate := false;
          var index2 := 0;
          while index2 < index && !isDuplicate
            invariant 0 <= index2 <= index
            invariant isDuplicate <==> exists i :: 0 <= i < index2 && FileHandles[i] == handle
          {
            if FileHandles[index2] == handle {
              isDuplicate := true;
            }
            index2 := index2 + 1;
          }
          assert isDuplicate <==> handle in FileHandles[..index];
          if !isDuplicate {
            CloseHandle(handle);
            closed := closed + {handle};
          }
        }
        index := index + 1;
      }
      assert FileHandles[..index] == FileHandles;
    }

    /** DosSftValue: the JFT value for a slot, remembered in the host table. */
    method DosSftValue(handle: nat) returns (value: Byte)
      requires Valid()
      modifies this`SftHost
      ensures Valid()
      ensures (value, SftHost) == SftValue(old(Abs()), handle)
      ensures Abs() == old(Abs()).(sft := SftHost)
    {
      hide FindSft, AllOpen, SharedOnlyAbove, Held;
      SameHandlesKeep(Abs(), Abs().(sft := SftValue(Abs(), handle).1));
      if handle < MAX_FILES && FileHandles[handle] != 0 {
        var host := FileHandles[handle];
        var freeValue := 0;
        var v := SFT_FIRST_HOST;
        while v < SFT_LAST
          invariant SFT_FIRST_HOST <= v <= SFT_LAST && SftHost == old(SftHost)
          invariant FindSft(SftHost, host, SFT_FIRST_HOST) == FindSft(SftHost, host, v)
          invariant freeValue == 0 ==> FindSft(SftHost, 0, SFT_FIRST_HOST) == FindSft(SftHost, 0, v)
          invariant freeValue != 0 ==> freeValue == FindSft(SftHost, 0, SFT_FIRST_HOST) < v
        {
          FindSftStep(SftHost, host, v);
          FindSftStep(SftHost, 0, v);
          if SftHost[v] == host {
            return v;
          }
          if SftHost[v] == 0 && freeValue == 0 {
            freeValue := v;
          }
          v := v + 1;
        }
        FindSftStep(SftHost, host, v);
        FindSftStep(SftHost, 0, v);
        if freeValue == 0 {
          SftHost := ForgetAll(SftHost);
          freeValue := SFT_FIRST_HOST;
        }
        SftHost := SftHost[freeValue := host];
        return freeValue;
      }
      if handle < DEVICE_SLOTS && handle in StdOpen {
        return DeviceKind[handle];
      }
      value := JFT_CLOSED;
    }
  }
}
