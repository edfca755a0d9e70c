/** What a program can work out from the answers alone: which handles it has, and which of them have a map saved. */
module EmsSaves {
  import opened Machine
  import opened EmsModel
  import opened EmsTheorems
  import opened EmsRestore
  import opened EmsRuns
  import opened EmsFlat

  /** A handle as the answers so far tell it: not given out, or given out, with a map saved or not. */
  datatype Standing = NotOut | Out(isSaved: bool)

  /** One more call and its answer, in the codes of the specification: 0 is success. */
  function Told(h: nat, was: Standing, op: Op, answer: (nat, nat)): Standing {
    if answer.0 != 0 then was
    else match op
         case Allocate(_, _) => if answer.1 == h then Out(false) else was
         case Deallocate(a) => if a == h then NotOut else was
         case Save(a) => if a == h then Out(true) else was
         case Restore(a) => if a == h then Out(false) else was
         case _ => was
  }

  /** After the first n calls of a run that started with h not given out. */
  function After(h: nat, ops: seq<Op>, answers: seq<(nat, nat)>, n: nat): Standing
    requires n <= |ops| && n <= |answers|
  {
    if n == 0 then NotOut else Told(h, After(h, ops, answers, n - 1), ops[n - 1], answers[n - 1])
  }

  /** The handle in the state. */
  function StandingOf(e: Ems, h: nat): Standing {
    if e.Owns(h) then Out(e.handles[h].isMapSaved) else NotOut
  }

  /** What a call that names a handle is answered, by the handle's standing. */
  predicate AnsweredBy(standing: Standing, op: Op, code: nat) {
    match op
    case Map(w, _, _) => standing.NotOut? ==> code == if w >= 4 then 0x8B else 0x83
    case Deallocate(_) => code == if standing.NotOut? then 0x83 else 0
    case Reallocate(_, _, _) => standing.NotOut? <==> code == 0x83
    case Save(_) => code == if standing.NotOut? then 0x83 else if standing.isSaved then 0x8D else 0
    case Restore(_) => code == if standing.NotOut? then 0x83 else if standing.isSaved then 0 else 0x8E
    case _ => true
  }

  function Named(op: Op): Option<nat> {
    match op
    case Map(_, _, h) => Some(h)
    case Deallocate(h) => Some(h)
    case Reallocate(h, _, _) => Some(h)
    case Save(h) => Some(h)
    case Restore(h) => Some(h)
    case _ => None
  }

  /** One call: the answer follows from the standing of the handle it names, and tells every handle's new one. */
  lemma StepTells(e: Ems, op: Op, h: nat)
    requires Valid(e) && Possible(op)
    ensures StandingOf(Step(e, op), h) == Told(h, StandingOf(e, h), op, Answer(e, op))
    ensures Named(op).Some? ==> AnsweredBy(StandingOf(e, Named(op).value), op, Answer(e, op).0)
    ensures op.Allocate? && Answer(e, op).0 == 0 ==> StandingOf(e, Answer(e, op).1).NotOut?
  {
    match op {
      case Map(w, page, a) => MapSavesNothing(e, w, page, a);
      case Reallocate(a, _, _) => FlushSavesNothing(e, a, WINDOWS);
      case Restore(a) =>
        if e.Owns(a) && e.handles[a].isMapSaved {
          RestoreWindowsSavesNothing(e, e.handles[a].savedMap, WINDOWS);
        }
      case _ =>
    }
  }

  /** Answer n of a run is the answer of the state the first n calls leave. */
  lemma {:induction false} AnswerAt(e: Ems, ops: seq<Op>, n: nat)
    requires Valid(e) && (forall op :: op in ops ==> Possible(op)) && n < |ops|
    ensures |Answers(e, ops)| == |ops|
    ensures Answers(e, ops)[n] == Answer(Run(e, ops[..n]), ops[n])
    decreases |ops|
  {
    hide Valid, Step, Answer;
    StepValid(e, ops[0]);
    AnswersLength(e, ops);
    if n > 0 {
      AnswerAt(Step(e, ops[0]), ops[1..], n - 1);
      assert ops[1..][..n - 1] == ops[..n][1..];
    }
  }

  lemma {:induction false} AnswersLength(e: Ems, ops: seq<Op>)
    requires Valid(e) && forall op :: op in ops ==> Possible(op)
    ensures |Answers(e, ops)| == |ops|
    decreases |ops|
  {
    hide Valid, Step, Answer;
    if ops != [] {
      StepValid(e, ops[0]);
      AnswersLength(Step(e, ops[0]), ops[1..]);
    }
  }

  lemma {:induction false} RunOneMore(e: Ems, ops: seq<Op>, n: nat)
    requires Valid(e) && (forall op :: op in ops ==> Possible(op)) && n < |ops|
    ensures Run(e, ops[..n + 1]) == Step(Run(e, ops[..n]), ops[n])
    decreases |ops|
  {
    hide Valid, Step;
    StepValid(e, ops[0]);
    if n == 0 {
      assert ops[..1][1..] == [];
    } else {
      RunOneMore(Step(e, ops[0]), ops[1..], n - 1);
      assert ops[1..][..n] == ops[..n + 1][1..] && ops[1..][..n - 1] == ops[..n][1..];
    }
  }

  /** Over every run the answers keep the standing of every handle. */
  lemma {:induction false} AnswersTell(e: Ems, ops: seq<Op>, n: nat, h: nat)
    requires Valid(e) && (forall op :: op in ops ==> Possible(op)) && n <= |ops| && !e.Owns(h)
    ensures |Answers(e, ops)| == |ops|
    ensures StandingOf(Run(e, ops[..n]), h) == After(h, ops, Answers(e, ops), n)
  {
    hide Valid, Step, Answer;
    AnswersLength(e, ops);
    if n > 0 {
      AnswersTell(e, ops, n - 1, h);
      AnswerAt(e, ops, n - 1);
      RunOneMore(e, ops, n - 1);
      StepTells(Run(e, ops[..n - 1]), ops[n - 1], h);
    }
  }

  /** Over every run each call is answered by what the answers before it say of the handle it names. */
  lemma EveryAnswerFollows(e: Ems, ops: seq<Op>, n: nat, h: nat)
    requires Valid(e) && (forall op :: op in ops ==> Possible(op)) && n < |ops| && !e.Owns(h)
    requires Named(ops[n]) == Some(h)
    ensures |Answers(e, ops)| == |ops| && AnsweredBy(After(h, ops, Answers(e, ops), n), ops[n], Answers(e, ops)[n].0)
  {
    hide Valid, Step, Answer;
    AnswersTell(e, ops, n, h);
    AnswerAt(e, ops, n);
    StepTells(Run(e, ops[..n]), ops[n], h);
  }

  // ---- the same, said of the calls themselves ----

  /** A call of the run that was answered OK. */
  predicate WentWell(ops: seq<Op>, answers: seq<(nat, nat)>, i: int, op: Op) {
    0 <= i < |ops| && i < |answers| && ops[i] == op && answers[i].0 == 0
  }

  /** Call i was an allocation that gave h out. */
  predicate GaveOut(ops: seq<Op>, answers: seq<(nat, nat)>, i: int, h: nat) {
    0 <= i < |ops| && i < |answers| && ops[i].Allocate? && answers[i] == (0, h)
  }

  /** Call i saved a map under h, and up to n it was neither restored, nor the handle freed, nor given out anew. */
  ghost predicate StandingSave(ops: seq<Op>, answers: seq<(nat, nat)>, i: int, n: nat, h: nat) {
    && i < n && WentWell(ops, answers, i, Save(h))
    && forall j :: i < j < n ==>
         !WentWell(ops, answers, j, Restore(h)) && !WentWell(ops, answers, j, Deallocate(h)) && !GaveOut(ops, answers, j, h)
  }

  /** Call i gave h out, and up to n it was not freed. */
  ghost predicate StandingGift(ops: seq<Op>, answers: seq<(nat, nat)>, i: int, n: nat, h: nat) {
    i < n && GaveOut(ops, answers, i, h) && forall j :: i < j < n ==> !WentWell(ops, answers, j, Deallocate(h))
  }

  lemma {:induction false} SavedIffStanding(h: nat, ops: seq<Op>, answers: seq<(nat, nat)>, n: nat)
    requires n <= |ops| == |answers|
    ensures After(h, ops, answers, n) == Out(true) <==> exists i :: StandingSave(ops, answers, i, n, h)
  {
    if n > 0 {
      var m := n - 1;
      SavedIffStanding(h, ops, answers, m);
      if i :| StandingSave(ops, answers, i, m, h) {
        if After(h, ops, answers, n) == Out(true) {
          assert StandingSave(ops, answers, i, n, h);
        }
      } else if After(h, ops, answers, n) == Out(true) {
        assert StandingSave(ops, answers, m, n, h);
      }
      if i :| StandingSave(ops, answers, i, n, h) {
        if i < m {
          assert StandingSave(ops, answers, i, m, h);
          assert !WentWell(ops, answers, m, Restore(h)) && !WentWell(ops, answers, m, Deallocate(h));
          assert !GaveOut(ops, answers, m, h);
        }
      }
    }
  }

  /**
   * Over every run that starts without handle h, function 48h puts h's map back exactly when a save of h was
   * answered OK and since then h was neither restored, nor freed, nor given out anew.
   */
  lemma RestoreAnsweredIff(e: Ems, ops: seq<Op>, n: nat, h: nat)
    requires Valid(e) && (forall op :: op in ops ==> Possible(op)) && !e.Owns(h)
    requires n < |ops| && ops[n] == Restore(h)
    ensures |Answers(e, ops)| == |ops|
    ensures Answers(e, ops)[n].0 == 0 <==> exists i :: StandingSave(ops, Answers(e, ops), i, n, h)
  {
    EveryAnswerFollows(e, ops, n, h);
    SavedIffStanding(h, ops, Answers(e, ops), n);
  }

  /**
   * And function 47h saves a map under h exactly when h was given out, was not freed since, and has no such save
   * standing: so under a handle just given out it always does, whatever its last owner left behind.
   */
  lemma SaveAnsweredIff(e: Ems, ops: seq<Op>, n: nat, h: nat)
    requires Valid(e) && (forall op :: op in ops ==> Possible(op)) && !e.Owns(h)
    requires n < |ops| && ops[n] == Save(h)
    ensures |Answers(e, ops)| == |ops|
    ensures Answers(e, ops)[n].0 == 0
       <==> && (exists i :: StandingGift(ops, Answers(e, ops), i, n, h))
            && !exists i :: StandingSave(ops, Answers(e, ops), i, n, h)
    ensures n > 0 && GaveOut(ops, Answers(e, ops), n - 1, h) ==> Answers(e, ops)[n].0 == 0
  {
    EveryAnswerFollows(e, ops, n, h);
    SavedIffStanding(h, ops, Answers(e, ops), n);
    OutIffGift(e, ops, n, h);
  }

  /** A handle is out exactly when some allocation gave it out and it was not freed since. */
  lemma {:induction false} OutIffGift(e: Ems, ops: seq<Op>, n: nat, h: nat)
    requires Valid(e) && (forall op :: op in ops ==> Possible(op)) && n <= |ops| && !e.Owns(h)
    ensures |Answers(e, ops)| == |ops|
    ensures After(h, ops, Answers(e, ops), n).Out? <==> exists i :: StandingGift(ops, Answers(e, ops), i, n, h)
  {
    hide Valid, Step, Answer;
    AnswersLength(e, ops);
    var answers := Answers(e, ops);
    if n > 0 {
      OutIffGift(e, ops, n - 1, h);
      var m := n - 1;
      if i :| StandingGift(ops, answers, i, m, h) {
        if After(h, ops, answers, n).Out? {
          assert StandingGift(ops, answers, i, n, h);
        }
      } else if After(h, ops, answers, n).Out? {
        AnswersTell(e, ops, m, h);
        AnswerAt(e, ops, m);
        StepTells(Run(e, ops[..m]), ops[m], h);
        assert StandingGift(ops, answers, m, n, h);
      }
      if i :| StandingGift(ops, answers, i, n, h) {
        if i < m {
          assert StandingGift(ops, answers, i, m, h);
          assert !WentWell(ops, answers, m, Deallocate(h));
        }
      }
    }
  }
}
