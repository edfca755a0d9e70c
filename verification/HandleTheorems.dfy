/** Which host handles get closed, and when: nothing a table still holds, nothing twice, nothing forgotten. */
module HandleTheorems {
  import opened Machine
  import opened HandleTables

  /** Some table, current or saved, holds the handle. */
  predicate Reachable(s: State, h: Host) {
    h in s.now.files || Held(s.saved, h)
  }

  /** Every handle a frame holds is open. */
  ghost predicate AllOpen(f: Frame, open: set<Host>) {
    forall h :: h in f.files && h != 0 ==> h in open
  }

  /** A handle in two slots of the frame is held by an older frame too. */
  ghost predicate SharedOnlyAbove(f: Frame, older: seq<Frame>) {
    forall i, j :: 0 <= i < j < |f.files| && f.files[i] == f.files[j] != 0 ==> Held(older, f.files[i])
  }

  /** What every run keeps. */
  ghost predicate Inv(s: State) {
    && StateOk(s) && 0 !in s.open
    && AllOpen(s.now, s.open)
    && SharedOnlyAbove(s.now, s.saved)
    && (forall d :: 0 <= d < |s.saved| ==> AllOpen(s.saved[d], s.open))
    && (forall d :: 0 <= d < |s.saved| ==> SharedOnlyAbove(s.saved[d], s.saved[..d]))
  }

  /** Every open handle is in some table. */
  ghost predicate NoLeak(s: State) {
    forall h :: h in s.open ==> Reachable(s, h)
  }

  datatype Op =
    | Open(host: Host)
    | Close(slot: nat)
    | Duplicate(source: nat, copy: Host)
    | Duplicate2(source2: nat, target: nat, copy2: Host)
    | Execute(jft: Option<seq<Byte>>, childKnown: seq<Byte>)
    | Terminate(isTsr: bool)
    | ShowInJft(shown: nat, entry: nat)
    | ShowClosedInJft(closed: nat)

  /** A slot after its edit: what it was, unbound, or what the SFT has for the value. */
  function EditedHost(f: Frame, sft: seq<Host>, slot: nat, value: Byte): Host
    requires FrameOk(f) && |sft| == 256 && slot < STANDARD_HANDLES
  {
    if value == f.known[slot] then f.files[slot]
    else if value == JFT_CLOSED || value <= JFT_PRN then 0
    else if sft[value] != 0 then sft[value]
    else f.files[slot]
  }

  /** Every edit of the JFT names an open handle, and none binds two slots to a handle no table holds. */
  predicate EditsFair(s: State, jft: Option<seq<Byte>>)
    requires StateOk(s)
  {
    jft.Some? ==>
      && (forall slot :: 0 <= slot < Min(|jft.value|, STANDARD_HANDLES) ==>
            var h := EditedHost(s.now, s.sft, slot, jft.value[slot]); h != 0 ==> h in s.open)
      && (forall i, j :: 0 <= i < j < Min(|jft.value|, STANDARD_HANDLES) ==>
            var h := EditedHost(s.now, s.sft, i, jft.value[i]);
            h != 0 && h == EditedHost(s.now, s.sft, j, jft.value[j]) ==> Reachable(s, h))
  }

  /** Win32 hands out handles that are not open; EXEC stays within the frames and edits to open handles. */
  predicate Fair(s: State, op: Op)
    requires StateOk(s)
  {
    match op
    case Open(h) => h != 0 && h !in s.open
    case Close(_) => true
    case Duplicate(_, copy) => copy !in s.open
    case Duplicate2(_, _, copy) => copy !in s.open
    case Execute(jft, childKnown) => s.depth < STACK_DEPTH && |childKnown| == JFT_HANDLES && EditsFair(s, jft)
    case Terminate(_) => s.depth > 0
    case _ => true
  }

  function Step(s: State, op: Op): State
    requires StateOk(s)
  {
    match op
    case Open(h) => OpenFile(s, h).0
    case Close(slot) => CloseFile(s, slot)
    case Duplicate(source, copy) => Dup(s, source, copy).0
    case Duplicate2(source, target, copy) => Dup2(s, source, target, copy).0
    case Execute(jft, childKnown) => Exec(s, jft, childKnown)
    case Terminate(isTsr) => Pop(s, isTsr)
    case ShowInJft(source, target) => Show(s, source, target)
    case ShowClosedInJft(slot) => ShowClosed(s, slot)
  }

  // ---- one call ----

  lemma BindKeeps(s: State, slot: nat, h: Host)
    requires Inv(s) && slot < MAX_FILES && s.now.files[slot] == 0
    requires h != 0 ==> h in s.open && !Reachable(s, h)
    ensures Inv(Bind(s, slot, h))
    ensures forall g :: g != 0 && (g == h || Reachable(s, g)) ==> Reachable(Bind(s, slot, h), g)
  {
    var after := Bind(s, slot, h);
    assert after.now.files[slot] == h;
    forall g | g in s.now.files && g != 0
      ensures g in after.now.files
    {
      var i :| 0 <= i < MAX_FILES && s.now.files[i] == g;
      assert after.now.files[i] == g;
    }
  }

  /** Release closes at most the slot's own handle, and only when no table will still hold it. */
  lemma ReleaseKeeps(s: State, slot: nat)
    requires Inv(s)
    ensures Inv(Release(s, slot))
    ensures Release(s, slot).saved == s.saved && Release(s, slot).open <= s.open
    ensures slot < MAX_FILES ==> Release(s, slot).now == s.now.(files := s.now.files[slot := 0])
    ensures NoLeak(s) ==> NoLeak(Release(s, slot))
  {
    if slot < MAX_FILES && s.now.files[slot] != 0 {
      var h := s.now.files[slot];
      var after := Release(s, slot);
      forall g | g in after.now.files && g != 0
        ensures g in after.open
      {
        var i :| 0 <= i < MAX_FILES && after.now.files[i] == g;
        assert s.now.files[i] == g && i != slot;
      }
      forall d | 0 <= d < |after.saved|
        ensures AllOpen(after.saved[d], after.open)
      {
        assert AllOpen(s.saved[d], s.open);
      }
      forall g | g in after.open && Reachable(s, g)
        ensures Reachable(after, g)
      {
        if i :| 0 <= i < MAX_FILES && s.now.files[i] == g {
          assert i != slot ==> after.now.files[i] == g;
        }
      }
    }
  }

  lemma OpenKeeps(s: State, h: Host)
    requires Inv(s) && h != 0 && h !in s.open
    ensures Inv(OpenFile(s, h).0)
    ensures NoLeak(s) ==> NoLeak(OpenFile(s, h).0)
  {
    var slot := LowestFree(s.now, 0);
    if slot < MAX_FILES {
      BindKeeps(s.(open := s.open + {h}), slot, h);
    }
  }

  lemma CloseKeeps(s: State, slot: nat)
    requires Inv(s)
    ensures Inv(CloseFile(s, slot))
    ensures NoLeak(s) ==> NoLeak(CloseFile(s, slot))
  {
    ReleaseKeeps(s, slot);
  }

  /** The two states differ at most in which slots are devices, and which. */
  ghost predicate SameHandles(s: State, after: State) {
    && StateOk(after) && after.open == s.open && after.saved == s.saved
    && after.now.files == s.now.files
  }

  lemma SameHandlesKeep(s: State, after: State)
    requires Inv(s) && SameHandles(s, after)
    ensures Inv(after) && (NoLeak(s) ==> NoLeak(after))
  {
    assert forall h :: Reachable(s, h) ==> Reachable(after, h);
  }

  lemma DupKeeps(s: State, source: nat, copy: Host)
    requires Inv(s) && copy !in s.open
    ensures Inv(Dup(s, source, copy).0)
    ensures NoLeak(s) ==> NoLeak(Dup(s, source, copy).0)
  {
    var (after, code, target) := Dup(s, source, copy);
    if code == 0 {
      if IsDevice(s.now.files, s.now.std, source) {
        assert s.now.files[target := 0] == s.now.files;
        SameHandlesKeep(s, after);
      } else {
        OpenKeeps(s, copy);
      }
    }
  }

  lemma Dup2Keeps(s: State, source: nat, target: nat, copy: Host)
    requires Inv(s) && copy !in s.open
    ensures Inv(Dup2(s, source, target, copy).0)
    ensures NoLeak(s) ==> NoLeak(Dup2(s, source, target, copy).0)
  {
    var (after, code) := Dup2(s, source, target, copy);
    if code == 0 {
      if IsDevice(s.now.files, s.now.std, source) {
        var marked := s.(now := s.now.(std := s.now.std + {target}));
        SameHandlesKeep(s, marked);
        ReleaseKeeps(marked, target);
        SameHandlesKeep(Release(marked, target), after);
      } else {
        // The copy is open before the target is released, and bound after.
        ReleaseKeeps(s, target);
        var released := Release(s, target);
        var bound := Bind(released.(open := released.open + {copy}), target, copy);
        BindKeeps(released.(open := released.open + {copy}), target, copy);
        ReleaseCommutes(s, target, copy);
        SameHandlesKeep(bound, after);
      }
    }
  }

  lemma ReleaseCommutes(s: State, slot: nat, copy: Host)
    requires Inv(s) && copy !in s.open && slot < MAX_FILES
    ensures Release(s.(open := s.open + {copy}), slot).open == Release(s, slot).open + {copy}
    ensures Release(s.(open := s.open + {copy}), slot).now == Release(s, slot).now
    ensures Release(s.(open := s.open + {copy}), slot).saved == Release(s, slot).saved
  {
  }

  lemma {:induction false} EditsAt(f: Frame, sft: seq<Host>, jft: seq<Byte>, n: nat, slot: nat)
    requires FrameOk(f) && |sft| == 256 && n <= |jft| && n <= STANDARD_HANDLES && slot < MAX_FILES
    ensures ApplyEdits(f, sft, jft, n).files[slot]
         == if slot < n then EditedHost(f, sft, slot, jft[slot]) else f.files[slot]
  {
    if n > 0 {
      EditsAt(f, sft, jft, n - 1, slot);
      if slot < n - 1 || n <= slot {
      } else {
        EditsAt(f, sft, jft, n - 1, n - 1);
      }
    }
  }

  /** The table EXEC hands the child, slot by slot. */
  lemma ExecAt(s: State, jft: seq<Byte>, childKnown: seq<Byte>, slot: nat)
    requires StateOk(s) && |childKnown| == JFT_HANDLES && slot < MAX_FILES
    ensures Exec(s, Some(jft), childKnown).now.files[slot]
         == if slot < Min(|jft|, STANDARD_HANDLES) then EditedHost(s.now, s.sft, slot, jft[slot]) else s.now.files[slot]
  {
    EditsAt(s.now, s.sft, jft, Min(|jft|, STANDARD_HANDLES), slot);
  }

  /** The invariant comes through an EXEC exactly when its edits are fair. */
  lemma ExecInvIff(s: State, jft: Option<seq<Byte>>, childKnown: seq<Byte>)
    requires Inv(s) && s.depth < STACK_DEPTH && |childKnown| == JFT_HANDLES
    ensures Inv(Exec(s, jft, childKnown)) <==> EditsFair(s, jft)
  {
    hide EditedHost, ApplyEdits;
    var after := Exec(s, jft, childKnown);
    ExecFrames(s, jft, childKnown);
    if jft.Some? {
      var n := Min(|jft.value|, STANDARD_HANDLES);
      forall slot | 0 <= slot < MAX_FILES
        ensures after.now.files[slot]
             == if slot < n then EditedHost(s.now, s.sft, slot, jft.value[slot]) else s.now.files[slot]
      {
        ExecAt(s, jft.value, childKnown, slot);
      }
      if EditsFair(s, jft) {
        forall i, j | 0 <= i < j < MAX_FILES && after.now.files[i] == after.now.files[j] != 0
          ensures Held(after.saved, after.now.files[i])
        {
          assert n <= i ==> s.now.files[i] in s.now.files;
          assert n <= j ==> s.now.files[j] in s.now.files;
        }
      }
      if Inv(after) {
        EditsFairFrom(s, jft.value, after.now.files);
      }
    }
  }

  lemma EditsFairFrom(s: State, jft: seq<Byte>, files: seq<Host>)
    requires StateOk(s) && |files| == MAX_FILES
    requires forall slot :: 0 <= slot < Min(|jft|, STANDARD_HANDLES) ==>
               files[slot] == EditedHost(s.now, s.sft, slot, jft[slot])
    requires forall h :: h in files && h != 0 ==> h in s.open
    requires forall i, j :: 0 <= i < j < |files| && files[i] == files[j] != 0 ==> Reachable(s, files[i])
    ensures EditsFair(s, Some(jft))
  {
    hide EditedHost;
  }

  /** The frames below the child's are the parent's and the older ones, and what they hold is what was reachable. */
  lemma ExecFrames(s: State, jft: Option<seq<Byte>>, childKnown: seq<Byte>)
    requires Inv(s) && s.depth < STACK_DEPTH && |childKnown| == JFT_HANDLES
    ensures var after := Exec(s, jft, childKnown);
            && StateOk(after) && after.open == s.open && after.saved == s.saved + [s.now]
            && (forall h :: Held(after.saved, h) <==> Reachable(s, h))
            && (forall d :: 0 <= d < |after.saved| ==>
                  AllOpen(after.saved[d], after.open) && SharedOnlyAbove(after.saved[d], after.saved[..d]))
            && (jft.None? ==> after.now == s.now)
  {
    hide EditedHost, ApplyEdits;
    var after := Exec(s, jft, childKnown);
    assert after.saved[s.depth] == s.now && after.saved[..s.depth] == s.saved;
    forall d | 0 <= d < |after.saved|
      ensures AllOpen(after.saved[d], after.open) && SharedOnlyAbove(after.saved[d], after.saved[..d])
    {
      assert d < s.depth ==> after.saved[d] == s.saved[d] && after.saved[..d] == s.saved[..d];
    }
    forall h
      ensures Held(after.saved, h) <==> Reachable(s, h)
    {
      if d :| 0 <= d < |s.saved| && h in s.saved[d].files {
        assert after.saved[d] == s.saved[d];
      }
    }
  }

  /**
   * EXEC opens and closes nothing and hands the child a table of open handles. Without TSRs each of
   * them is one the parent or an older frame holds, so the child can close none of them for good.
   */
  lemma ExecKeeps(s: State, jft: Option<seq<Byte>>, childKnown: seq<Byte>)
    requires Inv(s) && Fair(s, Execute(jft, childKnown))
    ensures var child := Exec(s, jft, childKnown);
            && Inv(child) && child.open == s.open
            && (forall h :: h in child.now.files && h != 0 ==> h in s.open)
            && (NoLeak(s) ==> NoLeak(child) && forall h :: h in child.now.files && h != 0 ==> Held(child.saved, h))
  {
    hide EditsFair, Exec;
    ExecInvIff(s, jft, childKnown);
    ExecFrames(s, jft, childKnown);
  }

  /** Without TSRs an edit is fair exactly when it names an open handle: then no handle is open that no table holds. */
  lemma EditsFairIff(s: State, jft: seq<Byte>)
    requires Inv(s) && NoLeak(s)
    ensures EditsFair(s, Some(jft))
       <==> forall slot :: 0 <= slot < Min(|jft|, STANDARD_HANDLES) ==>
              EditedHost(s.now, s.sft, slot, jft[slot]) != 0 ==> EditedHost(s.now, s.sft, slot, jft[slot]) in s.open
  {
  }

  /** Every handle the child gets is open exactly when every edit names an open one. */
  lemma ExecBindsOpenIff(s: State, jft: seq<Byte>, childKnown: seq<Byte>)
    requires Inv(s) && s.depth < STACK_DEPTH && |childKnown| == JFT_HANDLES
    ensures AllOpen(Exec(s, Some(jft), childKnown).now, s.open)
       <==> forall slot :: 0 <= slot < Min(|jft|, STANDARD_HANDLES) ==>
              EditedHost(s.now, s.sft, slot, jft[slot]) != 0 ==> EditedHost(s.now, s.sft, slot, jft[slot]) in s.open
  {
    var n := Min(|jft|, STANDARD_HANDLES);
    var files := Exec(s, Some(jft), childKnown).now.files;
    forall slot | 0 <= slot < MAX_FILES
      ensures files[slot] == if slot < n then EditedHost(s.now, s.sft, slot, jft[slot]) else s.now.files[slot]
    {
      ExecAt(s, jft, childKnown, slot);
    }
  }

  /**
   * Terminate closes exactly the child's handles that no saved frame holds, none of a TSR's, and puts
   * the parent's table back.
   */
  lemma PopKeeps(s: State, isTsr: bool)
    requires Inv(s) && 0 < s.depth <= STACK_DEPTH
    ensures Inv(Pop(s, isTsr))
    ensures Pop(s, isTsr).now == s.saved[s.depth - 1] && Pop(s, isTsr).saved == s.saved[..s.depth - 1]
    ensures forall h :: h in Pop(s, isTsr).open
              <==> h in s.open && (isTsr || h !in s.now.files || Held(s.saved, h))
    ensures NoLeak(s) && !isTsr ==> NoLeak(Pop(s, isTsr))
  {
    var d := s.depth - 1;
    var after := Pop(s, isTsr);
    forall k | 0 <= k <= d
      ensures AllOpen(s.saved[k], after.open)
    {
      assert AllOpen(s.saved[k], s.open);
      assert forall h :: h in s.saved[k].files ==> Held(s.saved, h);
    }
    assert SharedOnlyAbove(s.saved[d], s.saved[..d]);
    forall k | 0 <= k < d
      ensures SharedOnlyAbove(after.saved[k], after.saved[..k])
    {
      assert SharedOnlyAbove(s.saved[k], s.saved[..k]);
      assert s.saved[..d][..k] == s.saved[..k];
    }
    forall h | Held(s.saved, h)
      ensures Reachable(after, h)
    {
      var k :| 0 <= k < |s.saved| && h in s.saved[k].files;
      assert k < d ==> h in after.saved[k].files;
    }
  }

  /** A terminate past the saved frames restores nothing and closes nothing. */
  lemma DeepPopKeeps(s: State, isTsr: bool)
    requires Inv(s) && s.depth > STACK_DEPTH
    ensures Inv(Pop(s, isTsr)) && (NoLeak(s) ==> NoLeak(Pop(s, isTsr)))
    ensures Pop(s, isTsr) == s.(depth := s.depth - 1)
  {
    assert forall h :: Reachable(s, h) ==> Reachable(Pop(s, isTsr), h);
  }

  lemma StepKeeps(s: State, op: Op)
    requires Inv(s) && Fair(s, op)
    ensures Inv(Step(s, op))
    ensures NoLeak(s) && op != Terminate(true) ==> NoLeak(Step(s, op))
  {
    match op {
      case Open(h) => OpenKeeps(s, h);
      case Close(slot) => CloseKeeps(s, slot);
      case Duplicate(source, copy) => DupKeeps(s, source, copy);
      case Duplicate2(source, target, copy) => Dup2Keeps(s, source, target, copy);
      case Execute(jft, childKnown) => ExecKeeps(s, jft, childKnown);
      case Terminate(isTsr) =>
        if s.depth <= STACK_DEPTH {
          PopKeeps(s, isTsr);
        } else {
          DeepPopKeeps(s, isTsr);
        }
      case ShowInJft(source, target) => SameHandlesKeep(s, Show(s, source, target));
      case ShowClosedInJft(slot) => SameHandlesKeep(s, ShowClosed(s, slot));
    }
  }

  // ---- runs ----

  ghost function Run(s: State, ops: seq<Op>): State
    requires Inv(s) && FairRun(s, ops)
    decreases |ops|
  {
    if ops == [] then s else StepKeeps(s, ops[0]); Run(Step(s, ops[0]), ops[1..])
  }

  ghost predicate FairRun(s: State, ops: seq<Op>)
    requires Inv(s)
    decreases |ops|
  {
    ops != [] ==> Fair(s, ops[0]) && (StepKeeps(s, ops[0]); FairRun(Step(s, ops[0]), ops[1..]))
  }

  /**
   * Safety over whole runs: a handle some table holds is open, whatever has been closed; and without
   * TSRs a handle no table holds has been closed.
   */
  lemma {:induction false} RunSafe(s: State, ops: seq<Op>)
    requires Inv(s) && FairRun(s, ops)
    ensures Inv(Run(s, ops))
    ensures forall h :: Reachable(Run(s, ops), h) && h != 0 ==> h in Run(s, ops).open
    ensures NoLeak(s) && Terminate(true) !in ops ==>
              forall h :: h in Run(s, ops).open <==> h != 0 && Reachable(Run(s, ops), h)
    decreases |ops|
  {
    if ops != [] {
      StepKeeps(s, ops[0]);
      RunSafe(Step(s, ops[0]), ops[1..]);
    }
  }

  /** What a call closes was open, and no table holds it any more. */
  lemma ClosedWasOpenAndUnheld(s: State, op: Op, h: Host)
    requires Inv(s) && Fair(s, op) && h in s.open && h !in Step(s, op).open
    ensures !Reachable(Step(s, op), h)
  {
    StepKeeps(s, op);
  }

  /** The handle of a slot that loses its binding, when no saved frame holds it. */
  function Unheld(s: State, slot: nat): set<Host> {
    if IsFile(s.now.files, slot) && !Held(s.saved, s.now.files[slot]) then {s.now.files[slot]} else {}
  }

  /** Which handles a call closes, from the table and the frames alone. */
  function Closes(s: State, op: Op): set<Host>
    requires StateOk(s)
  {
    match op
    case Close(slot) => Unheld(s, slot)
    case Duplicate2(source, target, copy) =>
      if IsDevice(s.now.files, s.now.std, source) && target < DEVICE_SLOTS then Unheld(s, target)
      else if IsFile(s.now.files, source) && copy != 0 then Unheld(s, target)
      else {}
    case Terminate(isTsr) =>
      if isTsr || !(0 < s.depth <= STACK_DEPTH) then {} else set h | h in s.now.files && h != 0 && !Held(s.saved, h)
    case _ => {}
  }

  /** Which handles are open after a call that were not before it. */
  function Opens(s: State, op: Op): set<Host>
    requires StateOk(s)
  {
    match op
    case Open(h) => if LowestFree(s.now, 0) < MAX_FILES then {h} else {}
    case Duplicate(source, copy) =>
      if IsFile(s.now.files, source) && copy != 0 && LowestFree(s.now, 0) < MAX_FILES then {copy} else {}
    case Duplicate2(source, target, copy) =>
      if IsFile(s.now.files, source) && copy != 0 && target < MAX_FILES then {copy} else {}
    case _ => {}
  }

  /**
   * What every call opens and closes, exactly: what it closes was open, and no table holds it any more;
   * what it opens is in a table. So no handle is closed twice, and none that a program still has.
   */
  lemma CallCloses(s: State, op: Op)
    requires Inv(s) && Fair(s, op)
    ensures var after := Step(s, op);
            && after.open == s.open + Opens(s, op) - Closes(s, op)
            && Closes(s, op) <= s.open && Opens(s, op) !! s.open
            && (forall h :: h in Closes(s, op) ==> !Reachable(after, h))
            && (forall h :: h in Opens(s, op) ==> Reachable(after, h))
  {
    hide Step;
    StepKeeps(s, op);
    CallOpens(s, op);
    CallOpenSet(s, op);
    forall h | h in Closes(s, op)
      ensures h in s.open && h !in Step(s, op).open && h != 0
    {
      assert h in s.now.files;
    }
  }

  lemma CallOpens(s: State, op: Op)
    requires Inv(s) && Fair(s, op)
    ensures Opens(s, op) !! s.open && Opens(s, op) !! Closes(s, op)
    ensures forall h :: h in Opens(s, op) ==> Reachable(Step(s, op), h)
  {
    match op {
      case Open(h) => assert h in Opens(s, op) ==> Step(s, op).now.files[LowestFree(s.now, 0)] == h;
      case Duplicate(_, copy) => assert copy in Opens(s, op) ==> Step(s, op).now.files[LowestFree(s.now, 0)] == copy;
      case Duplicate2(source, target, copy) => Dup2Closes(s, source, target, copy);
      case _ =>
    }
  }

  lemma CallOpenSet(s: State, op: Op)
    requires Inv(s) && Fair(s, op)
    ensures Step(s, op).open == s.open + Opens(s, op) - Closes(s, op)
  {
    match op {
      case Duplicate2(source, target, copy) => Dup2Closes(s, source, target, copy);
      case Execute(jft, childKnown) => ExecKeeps(s, jft, childKnown);
      case _ =>
    }
  }

  lemma Dup2Closes(s: State, source: nat, target: nat, copy: Host)
    requires Inv(s) && copy !in s.open
    ensures var op := Duplicate2(source, target, copy);
            && Step(s, op).open == s.open + Opens(s, op) - Closes(s, op)
            && forall h :: h in Opens(s, op) ==> Reachable(Step(s, op), h)
  {
    var op := Duplicate2(source, target, copy);
    if copy in Opens(s, op) {
      ReleaseCommutes(s, target, copy);
      assert Step(s, op).now.files[target] == copy;
    }
  }

  /** The run never terminates the program that runs at depth d + 1. */
  ghost predicate StaysAbove(s: State, ops: seq<Op>, d: nat)
    requires Inv(s) && FairRun(s, ops)
    decreases |ops|
  {
    ops != [] ==>
      && Step(s, ops[0]).depth > d
      && (StepKeeps(s, ops[0]); StaysAbove(Step(s, ops[0]), ops[1..], d))
  }

  lemma {:induction false} RunKeepsFrames(s: State, ops: seq<Op>, d: nat)
    requires Inv(s) && FairRun(s, ops) && StaysAbove(s, ops, d)
    requires d < STACK_DEPTH && d < s.depth
    ensures var after := Run(s, ops); StateOk(after) && d < |after.saved| && after.saved[..d + 1] == s.saved[..d + 1]
    ensures Run(s, ops).depth > d
    decreases |ops|
  {
    if ops != [] {
      StepKeeps(s, ops[0]);
      var next := Step(s, ops[0]);
      assert next.saved[..d + 1] == s.saved[..d + 1];
      RunKeepsFrames(next, ops[1..], d);
    }
  }

  /**
   * EXEC, anything the child and its own children do, terminate: the parent's table, device slots,
   * device kinds and JFT record are what they were, and every handle the parent had is still open.
   */
  lemma TerminateRestoresParent(s: State, jft: Option<seq<Byte>>, childKnown: seq<Byte>, ops: seq<Op>, isTsr: bool)
    requires Inv(s) && Fair(s, Execute(jft, childKnown))
    requires (StepKeeps(s, Execute(jft, childKnown)); FairRun(Exec(s, jft, childKnown), ops))
    requires StaysAbove(Exec(s, jft, childKnown), ops, s.depth)
    requires Run(Exec(s, jft, childKnown), ops).depth == s.depth + 1
    ensures (RunSafe(Exec(s, jft, childKnown), ops);
             var after := Pop(Run(Exec(s, jft, childKnown), ops), isTsr);
             && after.now == s.now && after.saved == s.saved && after.depth == s.depth
             && forall h :: Reachable(s, h) && h != 0 ==> h in after.open)
  {
    hide Run, FairRun, StaysAbove, Exec, Pop, AllOpen, SharedOnlyAbove;
    StepKeeps(s, Execute(jft, childKnown));
    var child := Exec(s, jft, childKnown);
    ExecSaves(s, jft, childKnown);
    RunSafe(child, ops);
    RunKeepsFrames(child, ops, s.depth);
    var end := Run(child, ops);
    assert end.saved == end.saved[..s.depth + 1] == s.saved + [s.now];
    PopTakes(end, isTsr);
    PopKeeps(end, isTsr);
    SameTablesOpen(s, Pop(end, isTsr));
  }

  /** EXEC and a fair run of the child's and its own children's calls, which ends with the child still running. */
  ghost predicate ChildRun(s: State, jft: Option<seq<Byte>>, childKnown: seq<Byte>, ops: seq<Op>)
    requires StateOk(s)
  {
    && |childKnown| == JFT_HANDLES && EditsFair(s, jft)
    && var child := Exec(s, jft, childKnown);
       && Inv(child) && FairRun(child, ops) && StaysAbove(child, ops, s.depth)
       && Run(child, ops).depth == s.depth + 1 && StateOk(Run(child, ops))
  }

  /**
   * Terminate gives every parent its table back exactly while the parent's frame is saved: with eight
   * frames saved already, some fair run of the child leaves the parent with another table.
   */
  lemma TerminateRestoresIff(s: State, isTsr: bool)
    requires Inv(s)
    ensures s.depth < STACK_DEPTH
       <==> forall jft, childKnown, ops :: ChildRun(s, jft, childKnown, ops) ==>
              Pop(Run(Exec(s, jft, childKnown), ops), isTsr).now == s.now
  {
    hide Run, FairRun, StaysAbove, Exec, Pop, EditsFair;
    if s.depth < STACK_DEPTH {
      forall jft, childKnown, ops | ChildRun(s, jft, childKnown, ops)
        ensures Pop(Run(Exec(s, jft, childKnown), ops), isTsr).now == s.now
      {
        TerminateRestoresParent(s, jft, childKnown, ops, isTsr);
      }
    } else {
      var childKnown, ops := DeepExecLosesTable(s, isTsr);
      assert ChildRun(s, None, childKnown, ops);
    }
  }

  /** One call of a child too deep to have its parent's frame saved: a close, or, with nothing to close, an open. */
  lemma DeepExecLosesTable(s: State, isTsr: bool) returns (childKnown: seq<Byte>, ops: seq<Op>)
    requires Inv(s) && s.depth >= STACK_DEPTH
    ensures ChildRun(s, None, childKnown, ops)
    ensures Pop(Run(Exec(s, None, childKnown), ops), isTsr).now != s.now
  {
    childKnown := seq(JFT_HANDLES, _ => 0);
    var child := Push(s);
    assert Exec(s, None, childKnown) == child && Inv(child);
    var op: Op;
    if slot :| 0 <= slot < MAX_FILES && s.now.files[slot] != 0 {
      op := Close(slot);
      assert Step(child, op).now.files[slot] == 0;
    } else {
      var h := FreshHost(s.open);
      op := Open(h);
      assert IsFreeSlot(s.now, DEVICE_SLOTS);
      assert Step(child, op).now.files[LowestFree(s.now, 0)] == h;
    }
    ops := [op];
    StepKeeps(child, op);
    var end := Step(child, op);
    assert ops[1..] == [];
    assert FairRun(end, []) && StaysAbove(end, [], s.depth) && Run(end, []) == end;
    assert FairRun(child, ops) && StaysAbove(child, ops, s.depth) && Run(child, ops) == end;
  }

  /** There is always a handle Win32 could hand out. */
  lemma FreshHost(open: set<Host>) returns (h: Host)
    ensures h != 0 && h !in open
  {
    h := HostBound(open);
  }

  lemma HostBound(open: set<Host>) returns (bound: Host)
    ensures bound > 0 && forall h :: h in open ==> h < bound
    decreases |open|
  {
    bound := 1;
    if open != {} {
      var h :| h in open;
      var rest := HostBound(open - {h});
      assert forall g :: g in open ==> g == h || g in open - {h};
      bound := Max(rest, h + 1);
    }
  }

  lemma ExecSaves(s: State, jft: Option<seq<Byte>>, childKnown: seq<Byte>)
    requires StateOk(s) && Fair(s, Execute(jft, childKnown))
    ensures Exec(s, jft, childKnown).saved == s.saved + [s.now] && Exec(s, jft, childKnown).depth == s.depth + 1
  {
  }

  lemma PopTakes(s: State, isTsr: bool)
    requires StateOk(s) && 0 < s.depth <= STACK_DEPTH
    ensures var after := Pop(s, isTsr);
            after.now == s.saved[s.depth - 1] && after.saved == s.saved[..s.depth - 1] && after.depth == s.depth - 1
  {
  }

  lemma SameTablesOpen(s: State, after: State)
    requires Inv(after) && after.now == s.now && after.saved == s.saved
    ensures forall h :: Reachable(s, h) && h != 0 ==> h in after.open
  {
  }

  /**
   * The value shown for a bound slot is a host entry that holds the slot's
   * handle; entries that change are forgotten or become that.
   */
  lemma SftValueNames(s: State, slot: nat)
    requires StateOk(s) && IsFile(s.now.files, slot)
    ensures var (value, sft) := SftValue(s, slot);
            && JFT_PRN < value && value != JFT_CLOSED
            && |sft| == 256 && sft[value] == s.now.files[slot]
            && forall v :: SFT_FIRST_HOST <= v < SFT_LAST && sft[v] != s.sft[v] ==>
                 sft[v] == 0 || sft[v] == s.now.files[slot]
  {
  }

  /**
   * Redirection by editing the JFT, right after slot `from` was itself shown: when the program copies
   * its entry over standard handle `to`, the child has `to` bound to that file. HandleJft says when an
   * entry shown earlier, or by a duplicate, still does that.
   */
  lemma JftEditRedirects(s: State, from: nat, to: nat, jft: seq<Byte>, childKnown: seq<Byte>)
    requires StateOk(s) && s.depth < STACK_DEPTH && IsFile(s.now.files, from) && from < JFT_HANDLES
    requires to < STANDARD_HANDLES && |jft| == |childKnown| == JFT_HANDLES
    requires var shown := Show(s, from, from);
             && shown.now.known[from] != shown.now.known[to]
             && jft == shown.now.known[to := shown.now.known[from]]
    ensures var child := Exec(Show(s, from, from), Some(jft), childKnown);
            && child.now.files[to] == s.now.files[from]
            && forall slot :: 0 <= slot < MAX_FILES && slot != to ==> child.now.files[slot] == s.now.files[slot]
  {
    SftValueNames(s, from);
    var shown := Show(s, from, from);
    forall slot | 0 <= slot < MAX_FILES
      ensures Exec(shown, Some(jft), childKnown).now.files[slot]
           == if slot == to then s.now.files[from] else s.now.files[slot]
    {
      EditsAt(shown.now, shown.sft, jft, STANDARD_HANDLES, slot);
    }
  }

  // ---- where the conditions of a fair run come from ----

  /**
   * A ninth nested EXEC is counted but not saved: what the child closes is closed for the parent too,
   * and terminate does not put it back.
   */
  lemma DeepExecLosesParentsFile(s: State, slot: nat, isTsr: bool)
    requires Inv(s) && s.depth >= STACK_DEPTH && IsFile(s.now.files, slot) && !Held(s.saved, s.now.files[slot])
    ensures var child := CloseFile(Push(s), slot);
            StateOk(child) && Pop(child, isTsr).now.files[slot] == 0 && s.now.files[slot] !in Pop(child, isTsr).open
  {
    assert FrameOk(CloseFile(Push(s), slot).now);
  }

  /**
   * The host table keeps the entry of a file that has been closed: a JFT edit that still names it binds
   * the child's handle to a handle that is not open.
   */
  lemma StaleEntryBindsClosedHandle(s: State, slot: nat, jft: seq<Byte>, childKnown: seq<Byte>)
    requires Inv(s) && s.depth < STACK_DEPTH && IsFile(s.now.files, slot) && !Held(s.saved, s.now.files[slot])
    requires |jft| == |childKnown| == JFT_HANDLES
    requires var closed := CloseFile(Show(s, slot, slot), slot);
             jft[1] == SftValue(s, slot).0 && closed.now.known[1] != jft[1]
    ensures var closed := CloseFile(Show(s, slot, slot), slot);
            && Inv(closed)
            && s.now.files[slot] !in closed.open
            && Exec(closed, Some(jft), childKnown).now.files[1] == s.now.files[slot]
  {
    var shown := Show(s, slot, slot);
    SftValueNames(s, slot);
    SameHandlesKeep(s, shown);
    CloseKeeps(shown, slot);
    var closed := CloseFile(shown, slot);
    EditsAt(closed.now, closed.sft, jft, STANDARD_HANDLES, 1);
  }

  /** The error codes: 6 for a handle that is not there or cannot be copied, 4 for no slot; then nothing changes. */
  lemma DupCodes(s: State, source: nat, target: nat, copy: Host)
    requires Inv(s) && copy !in s.open
    ensures var there := IsDevice(s.now.files, s.now.std, source) || (IsFile(s.now.files, source) && copy != 0);
            var (after, code, slot) := Dup(s, source, copy);
            && code in {0, 4, 6} && (code == 6 <==> !there)
            && (code == 4 <==> there && !exists free ::
                     0 <= free < (if IsFile(s.now.files, source) then 128 else 32) && IsFreeSlot(s.now, free))
            && (code != 0 ==> after == s)
    ensures var there := IsDevice(s.now.files, s.now.std, source) || (IsFile(s.now.files, source) && copy != 0);
            var (after, code) := Dup2(s, source, target, copy);
            && code in {0, 4, 6} && (code == 6 <==> !there || target >= 128)
            && (code == 4 <==> there && IsDevice(s.now.files, s.now.std, source) && 32 <= target < 128)
            && (code != 0 ==> after == s)
  {
    var lowest := LowestFree(s.now, 0);
    if lowest < MAX_FILES {
      assert IsFreeSlot(s.now, lowest);
    }
  }

  // ---- what the calls are for ----

  /**
   * An open binds the file to the lowest free slot and no other, and closing
   * that slot undoes it; with no slot nothing is left open.
   */
  lemma OpenThenClose(s: State, h: Host)
    requires Inv(s) && h != 0 && h !in s.open
    ensures var (after, slot) := OpenFile(s, h);
            && slot == LowestFree(s.now, 0)
            && (slot == MAX_FILES ==> after == s)
            && (slot < MAX_FILES ==>
                  && after.now == s.now.(files := s.now.files[slot := h]) && after.open == s.open + {h}
                  && FrameOk(after.now) && CloseFile(after, slot) == s)
  {
    var (after, slot) := OpenFile(s, h);
    if slot < MAX_FILES {
      assert !Held(s.saved, h);
      assert after.now.files[slot := 0] == s.now.files;
      assert after.open - {h} == s.open;
    }
  }

  /** A duplicate of a file is a second handle on it in the lowest free slot; closing it leaves the source as it was. */
  lemma DupThenClose(s: State, source: nat, copy: Host)
    requires Inv(s) && IsFile(s.now.files, source) && copy != 0 && copy !in s.open
    ensures var (after, code, target) := Dup(s, source, copy);
            && (code == 0 <==> LowestFree(s.now, 0) < MAX_FILES)
            && (code != 0 ==> after == s)
            && (code == 0 ==>
                  && target == LowestFree(s.now, 0) && target != source
                  && after.now == s.now.(files := s.now.files[target := copy])
                  && FrameOk(after.now) && CloseFile(after, target) == s)
  {
    var (after, code, target) := Dup(s, source, copy);
    if code == 0 {
      assert !Held(s.saved, copy);
      assert after.now.files[target := 0] == s.now.files;
      assert after.open - {copy} == s.open;
    }
  }

  /** Redirecting one slot to a file binds that slot, no longer a device, and leaves every other slot alone. */
  lemma Dup2Binds(s: State, source: nat, target: nat, copy: Host)
    requires Inv(s) && IsFile(s.now.files, source) && target < MAX_FILES && copy != 0 && copy !in s.open
    ensures var (after, code) := Dup2(s, source, target, copy);
            && code == 0
            && after.now == s.now.(files := s.now.files[target := copy],
                                   std := s.now.std - if target < DEVICE_SLOTS then {target} else {})
            && copy in after.open
  {
    ReleaseCommutes(s, target, copy);
    ReleaseKeeps(s, target);
  }

  /** Redirecting one slot to a device makes it that device, frees its own file, and leaves every other slot alone. */
  lemma Dup2MakesDevice(s: State, source: nat, target: nat, copy: Host)
    requires Inv(s) && IsDevice(s.now.files, s.now.std, source) && target < 32
    ensures var (after, code) := Dup2(s, source, target, copy);
            && code == 0 && FrameOk(after.now)
            && IsDevice(after.now.files, after.now.std, target) && DeviceOf(after.now, target) == DeviceOf(s.now, source)
            && after.open == s.open - Unheld(s, target)
            && forall k :: 0 <= k < MAX_FILES && k != target ==>
                 && after.now.files[k] == s.now.files[k] && (k in after.now.std <==> k in s.now.std)
                 && DeviceOf(after.now, k) == DeviceOf(s.now, k)
  {
    hide AllOpen, SharedOnlyAbove, Held;
  }

  /**
   * What a shell does for `program > file`: keep standard handle `slot` aside, redirect it, put it back,
   * drop the spare. When there is a slot for the spare no step can fail, and in the end the standard
   * handle is its device again, every binding is back and no handle is left open.
   */
  lemma SaveRedirectRestore(s: State, slot: nat, source: nat, copy: Host)
    requires Inv(s) && IsDevice(s.now.files, s.now.std, slot) && IsFile(s.now.files, source)
    requires copy != 0 && copy !in s.open
    ensures var (kept, code, spare) := Dup(s, slot, 0);
            && (code == 0 <==> LowestFree(s.now, 0) < DEVICE_SLOTS)
            && (code == 0 ==>
                  && StateOk(kept)
                  && var (redirected, second) := Dup2(kept, source, slot, copy);
                     && second == 0 && StateOk(redirected) && redirected.now.files[slot] == copy
                     && var (restored, third) := Dup2(redirected, spare, slot, 0);
                        && third == 0 && StateOk(restored)
                        && var after := CloseFile(restored, spare);
                           && after.now.files == s.now.files && after.now.std == s.now.std && after.open == s.open
                           && forall k :: 0 <= k < DEVICE_SLOTS && IsDevice(s.now.files, s.now.std, k) ==>
                                DeviceOf(after.now, k) == DeviceOf(s.now, k))
  {
    hide Dup, Dup2, CloseFile, LowestFree, AllOpen, SharedOnlyAbove, Held;
    DupOfDevice(s, slot);
    var (kept, code, spare) := Dup(s, slot, 0);
    if code == 0 {
      RedirectDevice(s, kept, source, slot, copy);
      RestoreDevice(s, Dup2(kept, source, slot, copy).0, spare, slot, copy);
    }
  }

  lemma DupOfDevice(s: State, slot: nat)
    requires Inv(s) && IsDevice(s.now.files, s.now.std, slot)
    ensures var (kept, code, spare) := Dup(s, slot, 0);
            && (code == 0 <==> LowestFree(s.now, 0) < DEVICE_SLOTS)
            && (code == 0 ==>
                  && spare < DEVICE_SLOTS && spare != slot && s.now.files[spare] == 0 && spare !in s.now.std
                  && kept == s.(now := s.now.(std := s.now.std + {spare},
                                              kind := s.now.kind[spare := DeviceOf(s.now, slot)])))
  {
    var target := LowestFree(s.now, 0);
    if target < MAX_FILES {
      assert s.now.files[target := 0] == s.now.files;
    }
  }

  lemma RedirectDevice(s: State, kept: State, source: nat, slot: nat, copy: Host)
    requires Inv(s) && StateOk(kept) && kept.now.files == s.now.files && slot < DEVICE_SLOTS && s.now.files[slot] == 0
    requires IsFile(s.now.files, source) && copy != 0 && copy !in s.open
    requires !IsDevice(kept.now.files, kept.now.std, source)
    ensures var (redirected, code) := Dup2(kept, source, slot, copy);
            && code == 0
            && redirected == kept.(open := kept.open + {copy},
                                   now := kept.now.(files := kept.now.files[slot := copy],
                                                    std := kept.now.std - {slot}))
  {
  }

  lemma RestoreDevice(s: State, redirected: State, spare: nat, slot: nat, copy: Host)
    requires Inv(s) && copy != 0 && copy !in s.open && slot < DEVICE_SLOTS && s.now.files[slot] == 0
               && slot in s.now.std
    requires spare < DEVICE_SLOTS && spare != slot && s.now.files[spare] == 0 && spare !in s.now.std
    requires redirected == s.(open := s.open + {copy},
                              now := s.now.(files := s.now.files[slot := copy], std := s.now.std + {spare} - {slot},
                                            kind := s.now.kind[spare := DeviceOf(s.now, slot)]))
    ensures StateOk(redirected)
    ensures var (restored, code) := Dup2(redirected, spare, slot, 0);
            && code == 0 && StateOk(restored)
            && var after := CloseFile(restored, spare);
               && after.now.files == s.now.files && after.now.std == s.now.std && after.open == s.open
               && forall k :: 0 <= k < DEVICE_SLOTS && IsDevice(s.now.files, s.now.std, k) ==>
                    DeviceOf(after.now, k) == DeviceOf(s.now, k)
  {
    assert !Held(s.saved, copy);
    hide Held, AllOpen, SharedOnlyAbove;
    assert s.now.files[slot := copy][slot := 0] == s.now.files;
    assert s.open + {copy} - {copy} == s.open;
    assert s.now.std + {spare} - {slot} + {slot} - {spare} == s.now.std;
  }
}
