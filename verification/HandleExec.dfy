/** The table EXEC hands a child, slot by slot: what the parent's edits of its JFT make of the standard handles. */
module HandleExec {
  import opened Machine
  import opened HandleTables
  import opened HandleTheorems

  /** The parent wrote another value over one of its five standard entries. */
  predicate IsEdited(s: State, jft: seq<Byte>, slot: nat)
    requires StateOk(s)
  {
    slot < 5 && slot < |jft| && jft[slot] != s.now.known[slot]
  }

  /** The slot is bound to what it was, and is the device it was, if it was one. */
  ghost predicate SameSlot(f: Frame, child: Frame, slot: nat)
    requires FrameOk(f) && FrameOk(child) && slot < MAX_FILES
  {
    && child.files[slot] == f.files[slot]
    && (slot in child.std <==> slot in f.std)
    && (slot < 32 ==> child.kind[slot] == f.kind[slot])
  }

  /** What an edit to `value` makes of the slot: closed for FFh, the device for 0, 1 and 2, else the host entry's file. */
  ghost predicate EditedSlot(s: State, child: Frame, slot: nat, value: Byte)
    requires StateOk(s) && FrameOk(child) && slot < 5
  {
    if value == 0xFF then
      && !IsFile(child.files, slot) && !IsDevice(child.files, child.std, slot)
      && child.kind[slot] == s.now.kind[slot]
    else if value <= 2 then IsDevice(child.files, child.std, slot) && DeviceOf(child, slot) == value
    else if s.sft[value] == 0 then SameSlot(s.now, child, slot)
    else
      && IsFile(child.files, slot) && child.files[slot] == s.sft[value]
      && (slot in child.std <==> slot in s.now.std) && child.kind[slot] == s.now.kind[slot]
  }

  lemma EditOfSlot(s: State, f: Frame, slot: nat, value: Byte, other: nat)
    requires StateOk(s) && FrameOk(f) && f.known == s.now.known && slot < 5 && other < MAX_FILES
    requires SameSlot(s.now, f, slot)
    ensures var after := ApplyEdit(f, s.sft, slot, value);
            && (other != slot ==> SameSlot(f, after, other))
            && (if value == f.known[slot] then SameSlot(s.now, after, slot) else EditedSlot(s, after, slot, value))
  {
  }

  lemma {:induction false} EditsOfSlot(s: State, jft: seq<Byte>, n: nat, slot: nat)
    requires StateOk(s) && n <= |jft| && n <= 5 && slot < MAX_FILES
    ensures var after := ApplyEdits(s.now, s.sft, jft, n);
            if slot < n && IsEdited(s, jft, slot) then EditedSlot(s, after, slot, jft[slot])
            else SameSlot(s.now, after, slot)
  {
    hide ApplyEdit;
    if n > 0 {
      EditsOfSlot(s, jft, n - 1, slot);
      EditsOfSlot(s, jft, n - 1, n - 1);
      EditOfSlot(s, ApplyEdits(s.now, s.sft, jft, n - 1), n - 1, jft[n - 1], slot);
    }
  }

  /** EXEC: an edited standard slot is what its new value says, and every other slot is the parent's. */
  lemma ExecHandsOver(s: State, jft: seq<Byte>, childKnown: seq<Byte>, slot: nat)
    requires StateOk(s) && |childKnown| == JFT_HANDLES && slot < MAX_FILES
    ensures var child := Exec(s, Some(jft), childKnown);
            && FrameOk(child.now) && child.now.known == childKnown && child.sft == s.sft
            && if IsEdited(s, jft, slot) then EditedSlot(s, child.now, slot, jft[slot])
               else SameSlot(s.now, child.now, slot)
  {
    hide ApplyEdits;
    EditsOfSlot(s, jft, Min(|jft|, STANDARD_HANDLES), slot);
  }

  /**
   * A child asked what its standard handles are answers what its parent wrote: the value shown for a slot
   * edited to a device or to closed is that value.
   */
  lemma ChildShowsEdit(s: State, jft: seq<Byte>, childKnown: seq<Byte>, slot: nat)
    requires StateOk(s) && |childKnown| == JFT_HANDLES && IsEdited(s, jft, slot)
    requires jft[slot] <= 2 || jft[slot] == 0xFF
    ensures StateOk(Exec(s, Some(jft), childKnown))
    ensures SftValue(Exec(s, Some(jft), childKnown), slot) == (jft[slot], s.sft)
  {
    hide ApplyEdits;
    ExecHandsOver(s, jft, childKnown, slot);
  }

  /** A machine just started: CON three times, AUX and PRN, shown as that; every other handle shows as closed. */
  lemma StandardDevices(slot: nat)
    requires slot < MAX_FILES
    ensures StateOk(Initial())
    ensures SftValue(Initial(), slot).0 == if slot < 3 then 1 else if slot == 3 then 0 else if slot == 4 then 2 else 0xFF
    ensures slot < JFT_HANDLES ==> SftValue(Initial(), slot).0 == Initial().now.known[slot]
    ensures IsDevice(Initial().now.files, Initial().now.std, slot) <==> slot < 5
  {
  }
}
