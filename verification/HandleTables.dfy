/** One handle table made to look like one per process: the table, its saved frames, and the calls on them. */
module HandleTables {
  import opened Machine

  const MAX_FILES := 128
  const DEVICE_SLOTS := 32
  const STACK_DEPTH := 8
  const JFT_HANDLES := 20
  const STANDARD_HANDLES := 5
  const SFT_FIRST_HOST := 3
  const SFT_LAST := 255
  const JFT_CLOSED: Byte := 0xFF
  const JFT_PRN: Byte := 2
  const DEVICE_CON: Byte := 1

  const INVALID_HANDLE := 6
  const TOO_MANY_OPEN_FILES := 4

  /** A Win32 handle; 0 is no handle. */
  type Host = nat

  /** A whole table: what each slot is bound to, which slots are devices and which device, the JFT last written. */
  datatype Frame = Frame(files: seq<Host>, std: set<nat>, kind: seq<Byte>, known: seq<Byte>)

  /** `saved` are the frames pushed and really saved; `depth` also counts those too deep to save. */
  datatype State = State(now: Frame, saved: seq<Frame>, depth: nat, sft: seq<Host>, open: set<Host>)

  predicate FrameOk(f: Frame) {
    && |f.files| == MAX_FILES && |f.kind| == DEVICE_SLOTS && |f.known| == JFT_HANDLES
    && forall slot :: slot in f.std ==> slot < DEVICE_SLOTS
  }

  predicate StateOk(s: State) {
    && FrameOk(s.now) && |s.saved| == Min(s.depth, STACK_DEPTH) && |s.sft| == 256
    && forall d :: 0 <= d < |s.saved| ==> FrameOk(s.saved[d])
  }

  /** DosInt21Initialize's share: nothing bound, the five standard devices open, nothing saved. */
  function Initial(): State {
    var kind := seq(DEVICE_SLOTS, slot => if slot == 3 then 0 else if slot == 4 then 2 else DEVICE_CON);
    var known := [DEVICE_CON, DEVICE_CON, DEVICE_CON, 0, 2] + seq(JFT_HANDLES - 5, _ => JFT_CLOSED);
    State(Frame(seq(MAX_FILES, _ => 0), {0, 1, 2, 3, 4}, kind, known), [], 0, seq(256, _ => 0), {})
  }

  /** Some frame has the handle in its table. */
  predicate Held(frames: seq<Frame>, h: Host) {
    exists d :: 0 <= d < |frames| && h in frames[d].files
  }

  predicate IsFile(files: seq<Host>, slot: nat) {
    slot < MAX_FILES <= |files| && files[slot] != 0
  }

  predicate IsDevice(files: seq<Host>, std: set<nat>, slot: nat) {
    slot < DEVICE_SLOTS && MAX_FILES <= |files| && files[slot] == 0 && slot in std
  }

  /** Neither bound nor a device. */
  predicate IsFreeSlot(f: Frame, slot: nat) {
    slot < MAX_FILES && !IsFile(f.files, slot) && !IsDevice(f.files, f.std, slot)
  }

  /** The lowest free slot from `slot` up, or MAX_FILES. */
  function LowestFree(f: Frame, slot: nat): (r: nat)
    requires slot <= MAX_FILES
    ensures slot <= r <= MAX_FILES
    ensures r < MAX_FILES ==> IsFreeSlot(f, r)
    ensures forall i :: slot <= i < r ==> !IsFreeSlot(f, i)
    decreases MAX_FILES - slot
  {
    if slot == MAX_FILES || IsFreeSlot(f, slot) then slot else LowestFree(f, slot + 1)
  }

  function DeviceOf(f: Frame, slot: nat): Byte
    requires FrameOk(f)
  {
    if slot < DEVICE_SLOTS then f.kind[slot] else DEVICE_CON
  }

  /** CloseHandle. */
  function Closed(s: State, h: Host): State {
    s.(open := s.open - {h})
  }

  function Bind(s: State, slot: nat, h: Host): State
    requires FrameOk(s.now) && slot < MAX_FILES
  {
    s.(now := s.now.(files := s.now.files[slot := h]))
  }

  // ---- the calls ----

  /** Slot unbound; its handle is closed for real only when no parent holds it. */
  function Release(s: State, slot: nat): State
    requires FrameOk(s.now)
  {
    if slot >= MAX_FILES || s.now.files[slot] == 0 then s
    else Bind(if Held(s.saved, s.now.files[slot]) then s else Closed(s, s.now.files[slot]), slot, 0)
  }

  /** A file the host has just opened as `h` gets the lowest free slot, or is closed again. */
  function OpenFile(s: State, h: Host): (State, nat)
    requires FrameOk(s.now)
  {
    var slot := LowestFree(s.now, 0);
    if slot < MAX_FILES then (Bind(s.(open := s.open + {h}), slot, h), slot) else (s, MAX_FILES)
  }

  function CloseFile(s: State, handle: nat): State
    requires FrameOk(s.now)
  {
    if IsFile(s.now.files, handle) then Release(s, handle)
    else s.(now := s.now.(std := s.now.std - (if handle < DEVICE_SLOTS then {handle} else {})))
  }

  /** AH=45h; `copy` is DuplicateHandle's fresh handle, 0 when it failed. */
  function Dup(s: State, source: nat, copy: Host): (State, nat, nat)
    requires FrameOk(s.now)
  {
    var isDevice := IsDevice(s.now.files, s.now.std, source);
    var target := LowestFree(s.now, 0);
    if !isDevice && (!IsFile(s.now.files, source) || copy == 0) then (s, INVALID_HANDLE, 0)
    else if target >= MAX_FILES || (isDevice && target >= DEVICE_SLOTS) then (s, TOO_MANY_OPEN_FILES, 0)
    else if isDevice then
      (s.(now := s.now.(files := s.now.files[target := 0], std := s.now.std + {target},
                        kind := s.now.kind[target := DeviceOf(s.now, source)])), 0, target)
    else (Bind(s.(open := s.open + {copy}), target, copy), 0, target)
  }

  /** AH=46h: the target slot is released and becomes the source's file or device. */
  function Dup2(s: State, source: nat, target: nat, copy: Host): (State, nat)
    requires FrameOk(s.now)
  {
    var isDevice := IsDevice(s.now.files, s.now.std, source);
    if !isDevice && (!IsFile(s.now.files, source) || copy == 0) then (s, INVALID_HANDLE)
    else if target >= MAX_FILES then (s, INVALID_HANDLE)
    else if isDevice && target >= DEVICE_SLOTS then (s, TOO_MANY_OPEN_FILES)
    else if isDevice then
      var marked := s.(now := s.now.(std := s.now.std + {target}));
      var released := Release(marked, target);
      (released.(now := released.now.(files := released.now.files[target := 0],
                                      kind := released.now.kind[target := DeviceOf(released.now, source)])), 0)
    else
      var released := Release(s.(open := s.open + {copy}), target);
      var bound := Bind(released, target, copy);
      (bound.(now := bound.now.(std := bound.now.std - (if target < DEVICE_SLOTS then {target} else {}))), 0)
  }

  /** EXEC's half: the parent's table saved, eight deep. */
  function Push(s: State): State {
    if s.depth >= STACK_DEPTH then s.(depth := s.depth + 1)
    else s.(saved := s.saved + [s.now], depth := s.depth + 1)
  }

  /** One standard slot as the program's own edit of its JFT has it. */
  function ApplyEdit(f: Frame, sft: seq<Host>, slot: nat, value: Byte): Frame
    requires FrameOk(f) && |sft| == 256 && slot < STANDARD_HANDLES
  {
    if value == f.known[slot] then f
    else if value == JFT_CLOSED then f.(files := f.files[slot := 0], std := f.std - {slot})
    else if value <= JFT_PRN then
      f.(files := f.files[slot := 0], std := f.std + {slot}, kind := f.kind[slot := value])
    else if sft[value] != 0 then f.(files := f.files[slot := sft[value]])
    else f
  }

  function ApplyEdits(f: Frame, sft: seq<Host>, jft: seq<Byte>, n: nat): (r: Frame)
    requires FrameOk(f) && |sft| == 256 && n <= |jft| && n <= STANDARD_HANDLES
    ensures FrameOk(r) && r.known == f.known
  {
    if n == 0 then f else ApplyEdit(ApplyEdits(f, sft, jft, n - 1), sft, n - 1, jft[n - 1])
  }

  /** DosJftExec: `jft` is the parent's, `childKnown` the child's once the parent's is copied into it. */
  function JftExec(s: State, jft: Option<seq<Byte>>, childKnown: seq<Byte>): State
    requires StateOk(s)
  {
    if jft.None? then s
    else
      var f := ApplyEdits(s.now, s.sft, jft.value, Min(|jft.value|, STANDARD_HANDLES));
      s.(now := f.(known := childKnown))
  }

  function Exec(s: State, jft: Option<seq<Byte>>, childKnown: seq<Byte>): State
    requires StateOk(s)
  {
    JftExec(Push(s), jft, childKnown)
  }

  /** Terminate: what the child alone still has open is closed (a TSR's is not), and the parent's table is back. */
  function Pop(s: State, isTsr: bool): State
    requires StateOk(s)
  {
    if s.depth == 0 then s
    else if s.depth > STACK_DEPTH then s.(depth := s.depth - 1)
    else
      var d := s.depth - 1;
      s.(open := if isTsr then s.open else s.open - Leftovers(s),
         now := s.saved[d], saved := s.saved[..d], depth := d)
  }

  /** The child's handles that no saved frame holds. */
  function Leftovers(s: State): set<Host> {
    set h | h in s.now.files && h != 0 && !Held(s.saved, h)
  }

  // ---- the numbers a program sees in its JFT ----

  /** The first entry from `value` up that holds h, or SFT_LAST. */
  function FindSft(sft: seq<Host>, h: Host, value: nat): (r: nat)
    requires |sft| == 256 && value <= SFT_LAST
    ensures value <= r <= SFT_LAST
    ensures r < SFT_LAST ==> sft[r] == h
    ensures forall v :: value <= v < r ==> sft[v] != h
    decreases SFT_LAST - value
  {
    if value == SFT_LAST || sft[value] == h then value else FindSft(sft, h, value + 1)
  }

  lemma FindSftStep(sft: seq<Host>, h: Host, value: nat)
    requires |sft| == 256 && value <= SFT_LAST
    ensures SFT_FIRST_HOST <= value ==> FindSft(sft, h, value) >= SFT_FIRST_HOST
    ensures FindSft(sft, h, value) == if value == SFT_LAST || sft[value] == h then value else FindSft(sft, h, value + 1)
  {
  }

  /** Every host entry forgotten. */
  function ForgetAll(sft: seq<Host>): (r: seq<Host>)
    ensures |r| == |sft|
    ensures forall v :: 0 <= v < |sft| ==> r[v] == if SFT_FIRST_HOST <= v < SFT_LAST then 0 else sft[v]
  {
    seq(|sft|, v requires 0 <= v < |sft| => if SFT_FIRST_HOST <= v < SFT_LAST then 0 else sft[v])
  }

  /** DosSftValue: the JFT value for what `slot` is bound to, and the host table that makes it mean that. */
  function SftValue(s: State, slot: nat): (Byte, seq<Host>)
    requires StateOk(s)
  {
    if IsFile(s.now.files, slot) then
      var h := s.now.files[slot];
      var found := FindSft(s.sft, h, SFT_FIRST_HOST);
      var empty := FindSft(s.sft, 0, SFT_FIRST_HOST);
      if found < SFT_LAST then (found, s.sft)
      else if empty < SFT_LAST then (empty, s.sft[empty := h])
      else (SFT_FIRST_HOST, ForgetAll(s.sft)[SFT_FIRST_HOST := h])
    else if slot < DEVICE_SLOTS && slot in s.now.std then (DeviceOf(s.now, slot), s.sft)
    else (JFT_CLOSED, s.sft)
  }

  /** After a call that opened or duplicated: the JFT entry of `target` shows what `source` is bound to. */
  function Show(s: State, source: nat, target: nat): State
    requires StateOk(s)
  {
    var (value, sft) := SftValue(s, source);
    s.(sft := sft, now := if target < JFT_HANDLES then s.now.(known := s.now.known[target := value]) else s.now)
  }

  /** After a close: the JFT entry says closed. */
  function ShowClosed(s: State, slot: nat): State
    requires StateOk(s)
  {
    if slot < JFT_HANDLES then s.(now := s.now.(known := s.now.known[slot := JFT_CLOSED])) else s
  }
}
