/** The file handles a program sees in its PSP: when an entry names the slot's own handle, and what copying it does. */
module HandleJft {
  import opened Machine
  import opened HandleTables
  import opened HandleTheorems

  // ---- calls as a program makes them: the handle table first, then the entry that shows the result ----

  datatype GuestCall =
    | OpenCall(host: Host)
    | CloseCall(slot: nat)
    | DupCall(source: nat, copy: Host)
    | Dup2Call(source2: nat, target: nat, copy2: Host)
    | ExecCall(jft: seq<Byte>)
    | TerminateCall(isTsr: bool)

  lemma StepOk(s: State, op: Op)
    requires StateOk(s) && (op.Execute? ==> |op.childKnown| == JFT_HANDLES)
    ensures StateOk(Step(s, op))
  {
    match op {
      case Duplicate2(source, target, copy) => Dup2Ok(s, source, target, copy);
      case _ =>
    }
  }

  lemma Dup2Ok(s: State, source: nat, target: nat, copy: Host)
    requires StateOk(s)
    ensures StateOk(Dup2(s, source, target, copy).0)
  {
  }

  /** The slot whose entry a call fills, and the slot whose value it fills it with. */
  function Shows(s: State, call: GuestCall): Option<(nat, nat)>
    requires StateOk(s)
  {
    match call
    case OpenCall(h) =>
      var slot := LowestFree(s.now, 0);
      if slot < MAX_FILES then Some((slot, slot)) else None
    case DupCall(source, copy) =>
      if Dup(s, source, copy).1 == 0 then Some((source, Dup(s, source, copy).2)) else None
    case Dup2Call(source, target, copy) =>
      if Dup2(s, source, target, copy).1 == 0 then Some((source, target)) else None
    case _ => None
  }

  function TableOp(call: GuestCall): Op {
    match call
    case OpenCall(h) => Open(h)
    case CloseCall(slot) => Close(slot)
    case DupCall(source, copy) => Duplicate(source, copy)
    case Dup2Call(source, target, copy) => Duplicate2(source, target, copy)
    case ExecCall(jft) => Execute(Some(jft), jft)
    case TerminateCall(isTsr) => Terminate(isTsr)
  }

  predicate FairCall(s: State, call: GuestCall)
    requires StateOk(s)
  {
    Fair(s, TableOp(call))
  }

  function After(s: State, call: GuestCall): (after: State)
    requires StateOk(s) && FairCall(s, call)
    ensures StateOk(after)
  {
    hide Step;
    StepOk(s, TableOp(call));
    var after := Step(s, TableOp(call));
    if call.CloseCall? then ShowClosed(after, call.slot)
    else
      match Shows(s, call)
      case Some((source, target)) => Show(after, source, target)
      case None => after
  }

  /** A call is one or two of the ops of a fair run, so it keeps what those keep. */
  lemma AfterKeeps(s: State, call: GuestCall)
    requires Inv(s) && FairCall(s, call)
    ensures Inv(After(s, call))
    ensures NoLeak(s) && call != TerminateCall(true) ==> NoLeak(After(s, call))
  {
    hide AllOpen, SharedOnlyAbove, Show, ShowClosed, Fair, OpenFile, CloseFile, Dup, Dup2, Exec, Pop, Shows;
    var op := TableOp(call);
    StepKeeps(s, op);
    var after := Step(s, op);
    if call.CloseCall? {
      FairShow(after, ShowClosedInJft(call.slot));
      StepKeeps(after, ShowClosedInJft(call.slot));
    } else if Shows(s, call).Some? {
      var (source, target) := Shows(s, call).value;
      FairShow(after, ShowInJft(source, target));
      StepKeeps(after, ShowInJft(source, target));
    }
  }

  lemma FairShow(s: State, op: Op)
    requires StateOk(s) && (op.ShowInJft? || op.ShowClosedInJft?)
    ensures Fair(s, op)
  {
  }

  // ---- what copying an entry does ----

  predicate IsHostValue(value: Byte) {
    JFT_PRN < value && value != JFT_CLOSED
  }

  /** The entry of a bound slot is a host value, and the host table has the slot's own handle for it. */
  predicate NamesOwn(f: Frame, sft: seq<Host>, slot: nat)
    requires FrameOk(f) && |sft| == 256 && slot < JFT_HANDLES
  {
    IsHostValue(f.known[slot]) && sft[f.known[slot]] == f.files[slot]
  }

  /** The child started after the program has copied entry `from` over standard entry `to`. */
  function Redirected(s: State, from: nat, to: nat, childKnown: seq<Byte>): State
    requires StateOk(s) && from < JFT_HANDLES && to < STANDARD_HANDLES
  {
    Exec(s, Some(s.now.known[to := s.now.known[from]]), childKnown)
  }

  /**
   * Redirection by copying an entry, in every state: no other slot changes; and where the two entries differ and
   * `to` is not bound to the file already, `to` is bound to it exactly when the entry names its own slot's handle.
   * Where the entries are equal nothing changes.
   */
  lemma RedirectsIff(s: State, from: nat, to: nat, childKnown: seq<Byte>)
    requires StateOk(s) && |childKnown| == JFT_HANDLES
    requires from < JFT_HANDLES && IsFile(s.now.files, from) && to < STANDARD_HANDLES
    ensures var child := Redirected(s, from, to, childKnown);
            && StateOk(child)
            && (forall slot :: 0 <= slot < MAX_FILES && slot != to ==> child.now.files[slot] == s.now.files[slot])
            && (s.now.known[from] != s.now.known[to] && s.now.files[to] != s.now.files[from] ==>
                  (child.now.files[to] == s.now.files[from] <==> NamesOwn(s.now, s.sft, from)))
            && (s.now.known[from] == s.now.known[to] ==> child.now.files[to] == s.now.files[to])
            && (s.now.known[from] != s.now.known[to] && NamesOwn(s.now, s.sft, from) ==>
                  child.now.files[to] == s.now.files[from])
  {
    hide ApplyEdits;
    var jft := s.now.known[to := s.now.known[from]];
    forall slot | 0 <= slot < MAX_FILES
      ensures Redirected(s, from, to, childKnown).now.files[slot]
           == if slot == to then EditedHost(s.now, s.sft, to, s.now.known[from]) else s.now.files[slot]
    {
      ExecAt(s, jft, childKnown, slot);
    }
  }

  // ---- which calls keep the entries truthful ----

  /** Every bound slot the program can see has an entry that names its own handle. */
  ghost predicate Named(f: Frame, sft: seq<Host>) {
    && FrameOk(f) && |sft| == 256
    && forall slot :: 0 <= slot < JFT_HANDLES && f.files[slot] != 0 ==> NamesOwn(f, sft, slot)
  }

  /** In the running program's table and in all saved ones. */
  ghost predicate AllNamed(s: State) {
    Named(s.now, s.sft) && forall d :: 0 <= d < |s.saved| ==> Named(s.saved[d], s.sft)
  }

  /** The host table has the handle already, or an empty place for it. */
  predicate HasRoom(sft: seq<Host>, h: Host)
    requires |sft| == 256
  {
    FindSft(sft, h, SFT_FIRST_HOST) < SFT_LAST || FindSft(sft, 0, SFT_FIRST_HOST) < SFT_LAST
  }

  /** No slot a program can see is bound, but for `slot`. */
  ghost predicate NoneSeen(f: Frame, slot: nat)
    requires FrameOk(f)
  {
    forall k :: 0 <= k < JFT_HANDLES && k != slot ==> f.files[k] == 0
  }

  ghost predicate NoneElsewhere(s: State, slot: nat)
    requires StateOk(s)
  {
    NoneSeen(s.now, slot) && forall d :: 0 <= d < |s.saved| ==> NoneSeen(s.saved[d], MAX_FILES)
  }

  /** The edits of a program that starts a child leave each entry with what its slot will be bound to. */
  ghost predicate EditsTruthful(f: Frame, sft: seq<Host>, jft: seq<Byte>)
    requires FrameOk(f) && |sft| == 256 && |jft| == JFT_HANDLES
  {
    && (forall slot :: 0 <= slot < STANDARD_HANDLES && IsHostValue(jft[slot]) && sft[jft[slot]] == 0 ==>
          jft[slot] == f.known[slot] || f.files[slot] == 0)
    && (forall slot :: STANDARD_HANDLES <= slot < JFT_HANDLES && f.files[slot] != 0 ==>
          IsHostValue(jft[slot]) && sft[jft[slot]] == f.files[slot])
  }

  /**
   * The condition under which a call keeps all entries truthful. A duplicate of a file into a slot the program can
   * see is the exception: its entry is given the source's value, whose handle is not the copy. And the host table
   * must not be full, unless there is nothing to forget.
   */
  ghost predicate KeepsNames(s: State, call: GuestCall)
    requires StateOk(s)
  {
    match call
    case OpenCall(h) => LowestFree(s.now, 0) == MAX_FILES || HasRoom(s.sft, h) || NoneElsewhere(s, MAX_FILES)
    case CloseCall(_) => true
    case DupCall(source, copy) =>
      Dup(s, source, copy).1 == 0 && IsFile(s.now.files, source) ==>
        && Dup(s, source, copy).2 >= JFT_HANDLES
        && (HasRoom(s.sft, s.now.files[source]) || NoneElsewhere(s, MAX_FILES))
    case Dup2Call(source, target, copy) =>
      Dup2(s, source, target, copy).1 == 0 && IsFile(s.now.files, source) ==>
        if source == target then HasRoom(s.sft, copy) || NoneElsewhere(s, target)
        else target >= JFT_HANDLES && (HasRoom(s.sft, s.now.files[source]) || NoneElsewhere(s, MAX_FILES))
    case ExecCall(jft) => |jft| == JFT_HANDLES ==> EditsTruthful(s.now, s.sft, jft)
    case TerminateCall(_) => true
  }

  /** What showing a bound slot does to the host table: one place filled at most, or, when it is full, all forgotten. */
  lemma ShownTable(s: State, slot: nat)
    requires StateOk(s) && IsFile(s.now.files, slot)
    ensures var (value, sft) := SftValue(s, slot);
            var h := s.now.files[slot];
            && |sft| == 256 && IsHostValue(value) && sft[value] == h
            && (HasRoom(s.sft, h) ==> forall v :: 0 <= v < 256 && s.sft[v] != 0 ==> sft[v] == s.sft[v])
            && (!HasRoom(s.sft, h) ==>
                  value == SFT_FIRST_HOST && forall v: Byte :: IsHostValue(v) && v != SFT_FIRST_HOST ==> sft[v] == 0)
  {
  }

  lemma FoundWhenNamed(f: Frame, sft: seq<Host>, slot: nat)
    requires Named(f, sft) && slot < JFT_HANDLES && f.files[slot] != 0
    ensures HasRoom(sft, f.files[slot])
  {
    assert sft[f.known[slot]] == f.files[slot];
  }

  /** A truthful frame under the table after a slot with handle h is shown. */
  lemma NamedAfter(s: State, slot: nat, f: Frame)
    requires StateOk(s) && IsFile(s.now.files, slot) && Named(f, s.sft)
    ensures Named(f, SftValue(s, slot).1) <==> HasRoom(s.sft, s.now.files[slot]) || NoneSeen(f, MAX_FILES)
  {
    hide SftValue;
    ShownTable(s, slot);
    if !HasRoom(s.sft, s.now.files[slot]) {
      forall k | 0 <= k < JFT_HANDLES && f.files[k] != 0
        ensures f.files[k] != s.now.files[slot] && !NamesOwn(f, SftValue(s, slot).1, k)
      {
        FoundWhenNamed(f, s.sft, k);
      }
    }
  }

  lemma NoneSeenWithout(f: Frame, slot: nat)
    requires FrameOk(f) && slot < MAX_FILES
    ensures NoneSeen(f.(files := f.files[slot := 0]), MAX_FILES) <==> NoneSeen(f, slot)
  {
    var rest := f.(files := f.files[slot := 0]);
    assert forall k :: 0 <= k < JFT_HANDLES ==> rest.files[k] == if k == slot then 0 else f.files[k];
    if k :| 0 <= k < JFT_HANDLES && k != slot && f.files[k] != 0 {
      assert rest.files[k] != 0;
    }
  }

  /** The same for the running program's frame, of which slot `target` gets the value for its entry. */
  lemma NamedAfterShow(s: State, source: nat, target: nat)
    requires StateOk(s) && IsFile(s.now.files, source) && target < MAX_FILES
    requires target < JFT_HANDLES ==> s.now.files[target] != 0
    requires Named(s.now.(files := s.now.files[target := 0]), s.sft)
    ensures Named(Show(s, source, target).now, Show(s, source, target).sft)
       <==> && (HasRoom(s.sft, s.now.files[source]) || NoneSeen(s.now, target))
            && (target < JFT_HANDLES ==> s.now.files[target] == s.now.files[source])
  {
    hide SftValue;
    var rest := s.now.(files := s.now.files[target := 0]);
    var shown := Show(s, source, target);
    ShownTable(s, source);
    NamedAfter(s, source, rest);
    NoneSeenWithout(s.now, target);
    if Named(rest, shown.sft) {
      forall k | 0 <= k < JFT_HANDLES && k != target && s.now.files[k] != 0
        ensures NamesOwn(shown.now, shown.sft, k)
      {
        assert NamesOwn(rest, shown.sft, k);
      }
    } else {
      var k :| 0 <= k < JFT_HANDLES && rest.files[k] != 0 && !NamesOwn(rest, shown.sft, k);
      assert shown.now.files[k] != 0 && !NamesOwn(shown.now, shown.sft, k);
    }
  }

  /** What a call's show does to all frames: the handle's entry is truthful where it is the same handle's. */
  lemma ShowKeepsIff(s: State, source: nat, target: nat)
    requires StateOk(s) && IsFile(s.now.files, source) && target < MAX_FILES
    requires target < JFT_HANDLES ==> s.now.files[target] != 0
    requires Named(s.now.(files := s.now.files[target := 0]), s.sft)
    requires forall d :: 0 <= d < |s.saved| ==> Named(s.saved[d], s.sft)
    ensures AllNamed(Show(s, source, target))
       <==> && (HasRoom(s.sft, s.now.files[source]) || NoneElsewhere(s, target))
            && (target < JFT_HANDLES ==> s.now.files[target] == s.now.files[source])
  {
    hide SftValue, Named, NoneSeen, HasRoom;
    NamedAfterShow(s, source, target);
    forall d | 0 <= d < |s.saved|
      ensures Named(s.saved[d], SftValue(s, source).1)
         <==> HasRoom(s.sft, s.now.files[source]) || NoneSeen(s.saved[d], MAX_FILES)
    {
      NamedAfter(s, source, s.saved[d]);
    }
    if NoneElsewhere(s, target) {
      assert forall d :: 0 <= d < |s.saved| ==> NoneSeen(s.saved[d], MAX_FILES);
    }
  }

  lemma ShowDeviceKeeps(s: State, source: nat, target: nat)
    requires StateOk(s) && AllNamed(s) && !IsFile(s.now.files, source)
    requires target < JFT_HANDLES ==> s.now.files[target] == 0
    ensures AllNamed(Show(s, source, target))
  {
    var shown := Show(s, source, target);
    assert shown.sft == s.sft && shown.saved == s.saved;
    forall k | 0 <= k < JFT_HANDLES && shown.now.files[k] != 0
      ensures NamesOwn(shown.now, shown.sft, k)
    {
      assert NamesOwn(s.now, s.sft, k);
    }
  }

  /** Binding a slot to h, in the eyes of the table's entries. */
  lemma BoundNamed(f: Frame, sft: seq<Host>, slot: nat, h: Host, std: set<nat>)
    requires Named(f, sft) && slot < MAX_FILES && forall k :: k in std ==> k < DEVICE_SLOTS
    ensures var bound := f.(files := f.files[slot := h], std := std);
            && Named(bound.(files := bound.files[slot := 0]), sft)
            && (NoneSeen(bound, slot) <==> NoneSeen(f, slot))
            && (f.files[slot] == 0 || slot >= JFT_HANDLES ==> (NoneSeen(f, slot) <==> NoneSeen(f, MAX_FILES)))
  {
    var bound := f.(files := f.files[slot := h], std := std);
    var rest := bound.(files := bound.files[slot := 0]);
    assert forall k :: 0 <= k < JFT_HANDLES && k != slot ==> bound.files[k] == f.files[k];
    forall k | 0 <= k < JFT_HANDLES && rest.files[k] != 0
      ensures NamesOwn(rest, sft, k)
    {
      assert NamesOwn(f, sft, k);
    }
  }

  lemma OpenKeepsNamesIff(s: State, h: Host)
    requires Inv(s) && AllNamed(s) && FairCall(s, OpenCall(h))
    ensures AllNamed(After(s, OpenCall(h))) <==> KeepsNames(s, OpenCall(h))
  {
    hide Show, HasRoom, Named, NoneSeen, AllOpen, SharedOnlyAbove;
    var slot := LowestFree(s.now, 0);
    if slot < MAX_FILES {
      BoundNamed(s.now, s.sft, slot, h, s.now.std);
      ShowKeepsIff(OpenFile(s, h).0, slot, slot);
    }
  }

  lemma DupKeepsNamesIff(s: State, source: nat, copy: Host)
    requires Inv(s) && AllNamed(s) && FairCall(s, DupCall(source, copy))
    ensures AllNamed(After(s, DupCall(source, copy))) <==> KeepsNames(s, DupCall(source, copy))
  {
    hide Show, HasRoom, Named, NoneSeen, SharedOnlyAbove;
    var (after, code, target) := Dup(s, source, copy);
    if code == 0 {
      if IsFile(s.now.files, source) {
        BoundNamed(s.now, s.sft, target, copy, s.now.std);
        assert s.now.files[source] in s.open;
        ShowKeepsIff(after, source, target);
      } else {
        DeviceNamed(s, after);
        ShowDeviceKeeps(after, source, target);
      }
    }
  }

  /** A change of devices alone. */
  lemma DeviceNamed(s: State, after: State)
    requires StateOk(s) && AllNamed(s) && StateOk(after)
    requires after.sft == s.sft && after.saved == s.saved && after.now.known == s.now.known
    requires forall k :: 0 <= k < MAX_FILES ==> after.now.files[k] == s.now.files[k] || after.now.files[k] == 0
    ensures AllNamed(after)
  {
    forall k | 0 <= k < JFT_HANDLES && after.now.files[k] != 0
      ensures NamesOwn(after.now, after.sft, k)
    {
      assert NamesOwn(s.now, s.sft, k);
    }
  }

  lemma Dup2KeepsNamesIff(s: State, source: nat, target: nat, copy: Host)
    requires Inv(s) && AllNamed(s) && FairCall(s, Dup2Call(source, target, copy))
    ensures AllNamed(After(s, Dup2Call(source, target, copy))) <==> KeepsNames(s, Dup2Call(source, target, copy))
  {
    hide Show, HasRoom, Named, NoneSeen, SharedOnlyAbove, Held;
    var (after, code) := Dup2(s, source, target, copy);
    Dup2Ok(s, source, target, copy);
    if code == 0 {
      if IsFile(s.now.files, source) {
        BoundNamed(s.now, s.sft, target, copy, after.now.std);
        assert s.now.files[source] in s.open;
        assert after.now == s.now.(files := s.now.files[target := copy], std := after.now.std);
        ShowKeepsIff(after, source, target);
      } else {
        DeviceNamed(s, after);
        ShowDeviceKeeps(after, source, target);
      }
    }
  }

  lemma CloseKeepsNames(s: State, slot: nat)
    requires Inv(s) && AllNamed(s)
    ensures AllNamed(After(s, CloseCall(slot)))
  {
    var closed := CloseFile(s, slot);
    var after := After(s, CloseCall(slot));
    assert slot < MAX_FILES ==> closed.now.files[slot] == 0;
    DeviceNamed(s, closed);
    forall k | 0 <= k < JFT_HANDLES && after.now.files[k] != 0
      ensures NamesOwn(after.now, after.sft, k)
    {
      assert NamesOwn(closed.now, closed.sft, k);
    }
  }

  lemma ExecKeepsNamesIff(s: State, jft: seq<Byte>)
    requires Inv(s) && AllNamed(s) && FairCall(s, ExecCall(jft))
    ensures AllNamed(After(s, ExecCall(jft))) <==> KeepsNames(s, ExecCall(jft))
  {
    hide ApplyEdits, EditsFair, AllOpen, SharedOnlyAbove, Held;
    var child := Exec(s, Some(jft), jft);
    ExecFrames(s, Some(jft), jft);
    ExecSft(s, jft);
    forall slot | 0 <= slot < JFT_HANDLES
      ensures child.now.files[slot]
           == if slot < STANDARD_HANDLES then EditedHost(s.now, s.sft, slot, jft[slot]) else s.now.files[slot]
    {
      ExecAt(s, jft, jft, slot);
    }
    assert forall d :: 0 <= d < |child.saved| ==> Named(child.saved[d], child.sft);
    assert forall slot :: 0 <= slot < JFT_HANDLES && s.now.files[slot] != 0 ==> NamesOwn(s.now, s.sft, slot);
    if Named(child.now, child.sft) {
      assert forall slot :: 0 <= slot < JFT_HANDLES && child.now.files[slot] != 0 ==>
          NamesOwn(child.now, child.sft, slot);
    }
  }

  lemma ExecSft(s: State, jft: seq<Byte>)
    requires StateOk(s) && |jft| == JFT_HANDLES
    ensures Exec(s, Some(jft), jft).sft == s.sft && Exec(s, Some(jft), jft).now.known == jft
  {
  }

  lemma TerminateKeepsNames(s: State, isTsr: bool)
    requires Inv(s) && AllNamed(s) && s.depth > 0
    ensures AllNamed(After(s, TerminateCall(isTsr)))
  {
  }

  /** Every call, exactly: all entries are truthful after it when the condition holds, and in no other case. */
  lemma CallKeepsNamesIff(s: State, call: GuestCall)
    requires Inv(s) && AllNamed(s) && FairCall(s, call)
    ensures AllNamed(After(s, call)) <==> KeepsNames(s, call)
  {
    hide AllNamed, After, KeepsNames;
    match call {
      case OpenCall(h) => OpenKeepsNamesIff(s, h);
      case CloseCall(slot) => CloseKeepsNames(s, slot); KeepsAlways(s, call);
      case DupCall(source, copy) => DupKeepsNamesIff(s, source, copy);
      case Dup2Call(source, target, copy) => Dup2KeepsNamesIff(s, source, target, copy);
      case ExecCall(jft) => ExecKeepsNamesIff(s, jft);
      case TerminateCall(isTsr) => TerminateKeepsNames(s, isTsr); KeepsAlways(s, call);
    }
  }

  lemma KeepsAlways(s: State, call: GuestCall)
    requires StateOk(s) && (call.CloseCall? || call.TerminateCall?)
    ensures KeepsNames(s, call)
  {
  }

  // ---- runs ----

  ghost predicate NamingRun(s: State, calls: seq<GuestCall>)
    requires StateOk(s)
    decreases |calls|
  {
    calls != [] ==> FairCall(s, calls[0]) && KeepsNames(s, calls[0]) && NamingRun(After(s, calls[0]), calls[1..])
  }

  ghost function GuestRun(s: State, calls: seq<GuestCall>): (r: State)
    requires StateOk(s) && NamingRun(s, calls)
    ensures StateOk(r)
    decreases |calls|
  {
    if calls == [] then s else GuestRun(After(s, calls[0]), calls[1..])
  }

  /**
   * Over every run of such calls the entry of each bound slot names the slot's own handle, so that at its end
   * copying an entry over a standard handle's differing one redirects that handle to the file, which is open.
   */
  lemma {:induction false} RunRedirects(s: State, calls: seq<GuestCall>, from: nat, to: nat, childKnown: seq<Byte>)
    requires Inv(s) && AllNamed(s) && NamingRun(s, calls)
    requires from < JFT_HANDLES && to < STANDARD_HANDLES && |childKnown| == JFT_HANDLES
    ensures var end := GuestRun(s, calls);
            && Inv(end) && AllNamed(end)
            && (IsFile(end.now.files, from) && end.now.known[from] != end.now.known[to] ==>
                  && end.now.files[from] in end.open
                  && Redirected(end, from, to, childKnown).now.files[to] == end.now.files[from])
    decreases |calls|
  {
    hide KeepsNames, After, FairCall, Redirected, SharedOnlyAbove;
    if calls == [] {
      if IsFile(s.now.files, from) {
        assert NamesOwn(s.now, s.sft, from);
        RedirectsIff(s, from, to, childKnown);
      }
    } else {
      AfterKeeps(s, calls[0]);
      CallKeepsNamesIff(s, calls[0]);
      RunRedirects(After(s, calls[0]), calls[1..], from, to, childKnown);
    }
  }

  // ---- the two ways an entry lies ----

  /**
   * After a duplicate into a slot the program can see, and a close of the source: the copy's slot is bound and open,
   * but its entry stands for the source's handle, which is closed, and copying it binds the child's handle to that.
   */
  lemma DupEntryNamesSource(s: State, source: nat, copy: Host, to: nat, childKnown: seq<Byte>)
    requires Inv(s) && s.depth < STACK_DEPTH && FairCall(s, DupCall(source, copy)) && copy != 0
    requires IsFile(s.now.files, source) && !Held(s.saved, s.now.files[source]) && LowestFree(s.now, 0) < JFT_HANDLES
    requires to < STANDARD_HANDLES && |childKnown| == JFT_HANDLES
    ensures var duplicated := After(s, DupCall(source, copy));
            && FairCall(duplicated, CloseCall(source))
            && var closed, target := After(duplicated, CloseCall(source)), LowestFree(s.now, 0);
               && closed.now.files[target] == copy && copy in closed.open
               && s.now.files[source] !in closed.open
               && (closed.now.known[target] != closed.now.known[to] ==>
                     Redirected(closed, target, to, childKnown).now.files[to] == s.now.files[source])
  {
    hide After, Dup, AllOpen, SharedOnlyAbove, Held;
    AfterDup(s, source, copy);
    var duplicated := After(s, DupCall(source, copy));
    AfterKeeps(s, DupCall(source, copy));
    AfterClose(duplicated, source);
    EntryBinds(After(duplicated, CloseCall(source)), LowestFree(s.now, 0), to, childKnown);
  }

  lemma AfterDup(s: State, source: nat, copy: Host)
    requires Inv(s) && FairCall(s, DupCall(source, copy)) && copy != 0
    requires IsFile(s.now.files, source) && LowestFree(s.now, 0) < JFT_HANDLES
    ensures var after, target := After(s, DupCall(source, copy)), LowestFree(s.now, 0);
            && target != source && s.now.files[source] != copy
            && after.now.files == s.now.files[target := copy] && after.open == s.open + {copy}
            && after.saved == s.saved && after.depth == s.depth
            && (forall k :: 0 <= k < JFT_HANDLES && k != target ==> after.now.known[k] == s.now.known[k])
            && IsHostValue(after.now.known[target]) && after.sft[after.now.known[target]] == s.now.files[source]
  {
    hide SftValue, SharedOnlyAbove, Held;
    ShownTable(Dup(s, source, copy).0, source);
  }

  lemma AfterClose(s: State, slot: nat)
    requires StateOk(s) && IsFile(s.now.files, slot) && !Held(s.saved, s.now.files[slot])
    ensures FairCall(s, CloseCall(slot))
    ensures var after := After(s, CloseCall(slot));
            && after.now.files == s.now.files[slot := 0] && after.open == s.open - {s.now.files[slot]}
            && after.saved == s.saved && after.depth == s.depth && after.sft == s.sft && after.now.std == s.now.std
            && after.now.known == if slot < JFT_HANDLES then s.now.known[slot := JFT_CLOSED] else s.now.known
  {
    hide Held;
  }

  /** What `to` is bound to after an entry with a host value that the table has is copied over its differing one. */
  lemma EntryBinds(s: State, from: nat, to: nat, childKnown: seq<Byte>)
    requires StateOk(s) && from < JFT_HANDLES && to < STANDARD_HANDLES && |childKnown| == JFT_HANDLES
    ensures s.now.known[from] != s.now.known[to] && IsHostValue(s.now.known[from]) && s.sft[s.now.known[from]] != 0 ==>
              Redirected(s, from, to, childKnown).now.files[to] == s.sft[s.now.known[from]]
  {
    hide ApplyEdits;
    ExecAt(s, s.now.known[to := s.now.known[from]], childKnown, to);
  }

  /**
   * With the host table full, an open forgets all its entries and uses the first one again: the entry of a file
   * that stays open, when it is that one, stands for the new file, and copying it redirects there.
   */
  lemma ForgettingRenames(s: State, slot: nat, h: Host, to: nat, childKnown: seq<Byte>)
    requires Inv(s) && s.depth < STACK_DEPTH && FairCall(s, OpenCall(h)) && !HasRoom(s.sft, h)
    requires slot < JFT_HANDLES && IsFile(s.now.files, slot) && s.now.known[slot] == SFT_FIRST_HOST
    requires LowestFree(s.now, 0) < MAX_FILES && to < STANDARD_HANDLES && |childKnown| == JFT_HANDLES
    ensures var after := After(s, OpenCall(h));
            && after.now.files[slot] == s.now.files[slot] != h && s.now.files[slot] in after.open
            && (after.now.known[to] != SFT_FIRST_HOST ==>
                  Redirected(after, slot, to, childKnown).now.files[to] == h)
  {
    hide SftValue, SharedOnlyAbove;
    ShownTable(OpenFile(s, h).0, LowestFree(s.now, 0));
    EntryBinds(After(s, OpenCall(h)), slot, to, childKnown);
  }

  // ---- both from the state a machine starts in ----

  lemma InitialKeeps()
    ensures Inv(Initial()) && NoLeak(Initial()) && AllNamed(Initial())
    ensures LowestFree(Initial().now, 0) == STANDARD_HANDLES
  {
  }

  /** The state after the open of a first file, which gets handle 5. */
  lemma FirstOpen(h: Host)
    requires h != 0
    ensures FairCall(Initial(), OpenCall(h))
    ensures var s := After(Initial(), OpenCall(h));
            && Inv(s) && AllNamed(s) && s.saved == [] && s.depth == 0 && s.open == {h}
            && s.now.files == Initial().now.files[STANDARD_HANDLES := h] && s.now.std == Initial().now.std
            && s.now.known == Initial().now.known[STANDARD_HANDLES := SFT_FIRST_HOST]
            && s.sft == Initial().sft[SFT_FIRST_HOST := h]
  {
    InitialKeeps();
    AfterKeeps(Initial(), OpenCall(h));
    CallKeepsNamesIff(Initial(), OpenCall(h));
  }

  /**
   * A run the entries lie after: open one file, duplicate its handle 5, close
   * it. Copying the copy's entry 6 binds a closed handle.
   */
  lemma DupEntryLies(first: Host, second: Host, childKnown: seq<Byte>)
    requires first != 0 && second != 0 && first != second && |childKnown| == JFT_HANDLES
    ensures FairCall(Initial(), OpenCall(first))
    ensures var one := After(Initial(), OpenCall(first));
            && FairCall(one, DupCall(5, second))
            && var two := After(one, DupCall(5, second));
               && FairCall(two, CloseCall(5))
               && var three := After(two, CloseCall(5));
                  && three.now.files[6] == second && second in three.open && first !in three.open
                  && Redirected(three, 6, 1, childKnown).now.files[1] == first
  {
    hide After, Redirected, AllOpen, SharedOnlyAbove, AllNamed;
    FirstOpen(first);
    var one := After(Initial(), OpenCall(first));
    assert LowestFree(one.now, 0) == 6 by {
      assert IsFreeSlot(one.now, 6);
    }
    DupEntryNamesSource(one, 5, second, 1, childKnown);
    AfterDup(one, 5, second);
    var two := After(one, DupCall(5, second));
    AfterClose(two, 5);
    assert two.now.known[1] == DEVICE_CON;
  }

  /** File 1 is open in slot 5, and n more have been opened and closed since: the host table has all of them. */
  ghost predicate Filled(s: State, n: nat) {
    && Inv(s) && AllNamed(s) && s.saved == [] && s.depth == 0 && s.open == {1}
    && s.now.files == Initial().now.files[STANDARD_HANDLES := 1] && s.now.std == Initial().now.std
    && s.now.known[STANDARD_HANDLES] == SFT_FIRST_HOST && s.now.known[1] == DEVICE_CON
    && forall v :: SFT_FIRST_HOST <= v < SFT_LAST ==> s.sft[v] == if v < n + 4 then v - 2 else 0
  }

  const FULL: nat := 251

  lemma {:induction false} FillFrom(s: State, n: nat) returns (calls: seq<GuestCall>)
    requires Filled(s, n) && n <= FULL
    ensures NamingRun(s, calls) && Filled(GuestRun(s, calls), FULL)
    decreases FULL - n
  {
    hide Filled, After, FairCall, KeepsNames;
    FilledOk(s, n);
    calls := [];
    if n < FULL {
      FillStep(s, n);
      var shown := After(s, OpenCall(n + 2));
      var closed := After(shown, CloseCall(6));
      var later := FillFrom(closed, n + 1);
      calls := [OpenCall(n + 2), CloseCall(6)] + later;
      assert calls[1..] == [CloseCall(6)] + later && calls[1..][1..] == later;
    }
  }

  lemma FilledOk(s: State, n: nat)
    requires Filled(s, n)
    ensures StateOk(s)
  {
  }

  lemma FillStep(s: State, n: nat)
    requires Filled(s, n) && n < FULL
    ensures FairCall(s, OpenCall(n + 2)) && KeepsNames(s, OpenCall(n + 2))
    ensures var after := After(s, OpenCall(n + 2));
            && FairCall(after, CloseCall(6)) && KeepsNames(after, CloseCall(6))
            && Filled(After(after, CloseCall(6)), n + 1)
  {
    hide After, AllNamed, AllOpen, SharedOnlyAbove, Held;
    FillOpen(s, n);
    AfterKeeps(s, OpenCall(n + 2));
    CallKeepsNamesIff(s, OpenCall(n + 2));
    var after := After(s, OpenCall(n + 2));
    assert !Held(after.saved, n + 2) by { NothingHeld(n + 2); }
    AfterClose(after, 6);
    AfterKeeps(after, CloseCall(6));
    CallKeepsNamesIff(after, CloseCall(6));
    assert s.now.files[6 := n + 2][6 := 0] == s.now.files;
    assert {1} + {n + 2} - {n + 2} == {1};
  }

  lemma NothingHeld(h: Host)
    ensures !Held([], h)
  {
  }

  /** The open of a file the table has no entry for fills the first empty one. */
  lemma FillOpen(s: State, n: nat)
    requires Filled(s, n) && n < FULL
    ensures FairCall(s, OpenCall(n + 2)) && HasRoom(s.sft, n + 2)
    ensures var after := After(s, OpenCall(n + 2));
            && after.saved == s.saved && after.depth == s.depth && after.open == s.open + {n + 2}
            && after.now.files == s.now.files[6 := n + 2] && after.now.std == s.now.std
            && after.now.known == s.now.known[6 := n + 4]
            && after.sft == s.sft[n + 4 := n + 2]
  {
    hide AllOpen, SharedOnlyAbove, AllNamed, Held, FindSft, LowestFree;
    assert LowestFree(s.now, 0) == 6 by {
      assert IsFreeSlot(s.now, 6);
    }
    FirstEmpty(s.sft, n);
  }

  lemma FirstEmpty(sft: seq<Host>, n: nat)
    requires |sft| == 256 && n < FULL
    requires forall v :: SFT_FIRST_HOST <= v < SFT_LAST ==> sft[v] == if v < n + 4 then v - 2 else 0
    ensures FindSft(sft, n + 2, SFT_FIRST_HOST) == SFT_LAST && FindSft(sft, 0, SFT_FIRST_HOST) == n + 4
  {
    assert sft[n + 4] == 0;
  }

  /**
   * And one that fills the host table first: file 1 stays open in slot 5 while 251 others are opened and closed.
   * The next open takes over entry 3, and copying slot 5's entry redirects to that file and not to file 1.
   */
  lemma ForgottenEntryLies(childKnown: seq<Byte>)
    requires |childKnown| == JFT_HANDLES
    ensures exists calls, h ::
              && NamingRun(Initial(), calls)
              && var full := GuestRun(Initial(), calls);
                 && FairCall(full, OpenCall(h))
                 && var after := After(full, OpenCall(h));
                    && after.now.files[5] == 1 != h && 1 in after.open
                    && Redirected(after, 5, 1, childKnown).now.files[1] == h
  {
    hide Redirected;
    FirstOpen(1);
    InitialKeeps();
    var one := After(Initial(), OpenCall(1));
    CallKeepsNamesIff(Initial(), OpenCall(1));
    assert Filled(one, 0);
    var rest := FillFrom(one, 0);
    var calls := [OpenCall(1)] + rest;
    assert calls[1..] == rest;
    var full := GuestRun(Initial(), calls);
    assert full == GuestRun(one, rest);
    FullHasNoRoom(full);
    ForgettingRenames(full, 5, 253, 1, childKnown);
  }

  lemma FullHasNoRoom(s: State)
    requires Filled(s, FULL)
    ensures !HasRoom(s.sft, 253) && LowestFree(s.now, 0) == 6
    ensures var after := OpenFile(s, 253).0; FrameOk(after.now)
    ensures FairCall(s, OpenCall(253)) && After(s, OpenCall(253)).now.known[1] == DEVICE_CON
  {
    assert IsFreeSlot(s.now, 6);
  }
}
