/** Handing out aliases over a directory: always a free number, never a name twice, and back again. */
module AliasAssign {
  import opened Machine
  import opened AliasName

  const MAX_TAKEN := 4096
  const MAX_NEEDY := 2048
  const NAME_LENGTH := 12

  /** `alias` is one of `names`, up to case. */
  predicate Blocked(names: seq<string>, alias: string) {
    exists i :: 0 <= i < |names| && SameText(names[i], alias)
  }

  /** The name `longName` would get with number k is taken. */
  predicate NumberTaken(longName: string, names: seq<string>, k: nat) {
    Blocked(names, AliasOf(longName, k))
  }

  function TakenNumbers(longName: string, names: seq<string>): nat -> bool {
    (n: nat) => NumberTaken(longName, names, n)
  }

  /** The first number from k up that is not taken; MAX_NUMBER when the search runs out. */
  function Search(isTaken: nat -> bool, k: nat): (n: nat)
    requires k <= MAX_NUMBER
    ensures k <= n <= MAX_NUMBER
    decreases MAX_NUMBER - k
  {
    if k == MAX_NUMBER || !isTaken(k) then k else Search(isTaken, k + 1)
  }

  lemma SearchStep(isTaken: nat -> bool, k: nat)
    requires k <= MAX_NUMBER
    ensures Search(isTaken, k) == if k == MAX_NUMBER || !isTaken(k) then k else Search(isTaken, k + 1)
  {
  }

  function FirstFree(longName: string, names: seq<string>): (n: nat)
    ensures 1 <= n <= MAX_NUMBER
  {
    Search(TakenNumbers(longName, names), 1)
  }

  /** The aliases of `longs`, in listing order, past the `taken` names and one another. */
  function Assign(taken: seq<string>, longs: seq<string>): (aliases: seq<string>)
    ensures |aliases| == |longs|
  {
    if longs == [] then []
    else
      var front := Assign(taken, longs[..|longs| - 1]);
      var longName := longs[|longs| - 1];
      front + [AliasOf(longName, FirstFree(longName, taken + front))]
  }

  lemma {:induction false} SearchSkipsTaken(isTaken: nat -> bool, k: nat)
    requires k <= MAX_NUMBER
    ensures forall j :: k <= j < Search(isTaken, k) ==> isTaken(j)
    ensures var n := Search(isTaken, k); n < MAX_NUMBER ==> !isTaken(n)
    decreases MAX_NUMBER - k
  {
    if k < MAX_NUMBER && isTaken(k) {
      SearchSkipsTaken(isTaken, k + 1);
    }
  }

  /** Pigeonhole: m names at least are needed to block the numbers 1..m of one long name. */
  lemma {:induction false} BlockingNeedsNames(longName: string, names: seq<string>, isTaken: nat -> bool, m: nat)
    requires m <= MAX_NUMBER
    requires isTaken == TakenNumbers(longName, names) && forall k :: 1 <= k <= m ==> isTaken(k)
    ensures m <= |names|
  {
    if m > 0 {
      assert isTaken(m);
      var i :| 0 <= i < |names| && SameText(names[i], AliasOf(longName, m));
      var others := names[..i] + names[i + 1..];
      forall k | 1 <= k <= m - 1
        ensures TakenNumbers(longName, others)(k)
      {
        assert isTaken(k);
        var j :| 0 <= j < |names| && SameText(names[j], AliasOf(longName, k));
        if j == i {
          AliasIsShortName(longName, k);
          AliasIsShortName(longName, m);
          AliasInjective(longName, k, m);
        }
        assert others[if j < i then j else j - 1] == names[j];
      }
      BlockingNeedsNames(longName, others, TakenNumbers(longName, others), m - 1);
    }
  }

  /** The search always stops on a free number: a full table is far too small to block them all. */
  lemma FreeNumberExists(longName: string, names: seq<string>)
    requires |names| < MAX_NUMBER
    ensures var n := FirstFree(longName, names);
            && 1 <= n <= |names| + 1 && !NumberTaken(longName, names, n)
            && forall k :: 1 <= k < n ==> NumberTaken(longName, names, k)
  {
    hide AliasOf;
    var isTaken := TakenNumbers(longName, names);
    var n := Search(isTaken, 1);
    SearchSkipsTaken(isTaken, 1);
    assert forall k :: 1 <= k < n ==> isTaken(k) == NumberTaken(longName, names, k);
    BlockingNeedsNames(longName, names, isTaken, n - 1);
    if n == MAX_NUMBER && isTaken(n) {
      BlockingNeedsNames(longName, names, isTaken, n);
    }
  }

  /** Every alias is free of the taken names and of the aliases handed out before it. */
  lemma {:induction false} AssignIsFree(taken: seq<string>, longs: seq<string>, e: nat)
    requires |taken| + |longs| < MAX_NUMBER && e < |longs|
    ensures !Blocked(taken + Assign(taken, longs)[..e], Assign(taken, longs)[e])
    ensures exists n :: 1 <= n <= |taken| + e + 1 && Assign(taken, longs)[e] == AliasOf(longs[e], n)
  {
    var last := |longs| - 1;
    var front := Assign(taken, longs[..last]);
    if e == last {
      FreeNumberExists(longs[last], taken + front);
      assert Assign(taken, longs)[..e] == front;
    } else {
      AssignIsFree(taken, longs[..last], e);
      assert Assign(taken, longs)[..e] == front[..e];
    }
  }

  /** No two entries share an alias, and no alias is a taken name, in either case. */
  lemma AliasesDistinct(taken: seq<string>, longs: seq<string>)
    requires |taken| <= MAX_TAKEN && |longs| <= MAX_NEEDY
    ensures forall a, b :: 0 <= a < b < |longs| ==> !SameText(Assign(taken, longs)[a], Assign(taken, longs)[b])
    ensures forall e, t :: 0 <= e < |longs| && 0 <= t < |taken| ==> !SameText(taken[t], Assign(taken, longs)[e])
    ensures forall e :: 0 <= e < |longs| ==>
              IsShortName(Assign(taken, longs)[e]) && LooksLikeAlias(Assign(taken, longs)[e])
              && 1 <= |Assign(taken, longs)[e]| <= NAME_LENGTH
  {
    var aliases := Assign(taken, longs);
    forall e | 0 <= e < |longs|
      ensures IsShortName(aliases[e]) && LooksLikeAlias(aliases[e]) && 1 <= |aliases[e]| <= NAME_LENGTH
      ensures forall a :: 0 <= a < e ==> !SameText(aliases[a], aliases[e])
      ensures forall t :: 0 <= t < |taken| ==> !SameText(taken[t], aliases[e])
    {
      AssignIsFree(taken, longs, e);
      var n :| 1 <= n <= |taken| + e + 1 && aliases[e] == AliasOf(longs[e], n);
      AliasIsShortName(longs[e], n);
      var names := taken + aliases[..e];
      forall a | 0 <= a < e
        ensures !SameText(aliases[a], aliases[e])
      {
        assert names[|taken| + a] == aliases[a];
      }
      forall t | 0 <= t < |taken|
        ensures !SameText(taken[t], aliases[e])
      {
        assert names[t] == taken[t];
      }
    }
  }

  /** What the table keeps of an 8.3 name: twelve characters, upper case. */
  function Recorded(name: string): string {
    UpperAll(Take(name, NAME_LENGTH))
  }

  /** A recorded name stands for the whole one, however long: no alias is it. */
  lemma AliasAvoidsRecorded(taken: seq<string>, longs: seq<string>, name: string)
    requires |taken| <= MAX_TAKEN && |longs| <= MAX_NEEDY && Recorded(name) in taken
    ensures forall e :: 0 <= e < |longs| ==> !SameText(name, Assign(taken, longs)[e])
  {
    AliasesDistinct(taken, longs);
    var t :| 0 <= t < |taken| && taken[t] == Recorded(name);
    forall e | 0 <= e < |longs|
      ensures !SameText(name, Assign(taken, longs)[e])
    {
      if |name| <= NAME_LENGTH {
        assert Recorded(name) == UpperAll(name);
        UpperTwice(name);
      } else {
        assert |UpperAll(name)| != |UpperAll(Assign(taken, longs)[e])|;
      }
    }
  }

  lemma UpperTwice(s: string)
    ensures UpperAll(UpperAll(s)) == UpperAll(s)
  {
  }

  /** The alias of the first entry whose long name is `name`, up to case. */
  function FindAlias(longs: seq<string>, aliases: seq<string>, name: string): Option<string>
    requires |aliases| == |longs|
  {
    if longs == [] then None
    else if aliases[0] != "" && SameText(longs[0], name) then Some(aliases[0])
    else FindAlias(longs[1..], aliases[1..], name)
  }

  /** The long name of the first entry whose alias is `alias`, up to case. */
  function FindLong(longs: seq<string>, aliases: seq<string>, alias: string): Option<string>
    requires |aliases| == |longs|
  {
    if longs == [] then None
    else if aliases[0] != "" && SameText(alias, aliases[0]) then Some(longs[0])
    else FindLong(longs[1..], aliases[1..], alias)
  }

  /** With distinct aliases, looking up entry i's alias, in any case, finds entry i. */
  lemma {:induction false} FindLongHits(longs: seq<string>, aliases: seq<string>, i: nat, alias: string)
    requires |aliases| == |longs| && i < |longs| && aliases[i] != ""
    requires forall a, b :: 0 <= a < b < |longs| ==> !SameText(aliases[a], aliases[b])
    requires SameText(alias, aliases[i])
    ensures FindLong(longs, aliases, alias) == Some(longs[i])
  {
    if i > 0 {
      assert !SameText(aliases[0], aliases[i]);
      FindLongHits(longs[1..], aliases[1..], i - 1, alias);
    }
  }

  /** And an alias that no entry was given, in either case, finds none. */
  lemma {:induction false} FindLongMisses(longs: seq<string>, aliases: seq<string>, alias: string)
    requires |aliases| == |longs|
    ensures FindLong(longs, aliases, alias).None?
       <==> forall i :: 0 <= i < |longs| && aliases[i] != "" ==> !SameText(alias, aliases[i])
  {
    if longs != [] {
      FindLongMisses(longs[1..], aliases[1..], alias);
      assert forall i :: 1 <= i < |longs| ==> aliases[i] == aliases[1..][i - 1];
    }
  }

  lemma {:induction false} FindAliasHits(longs: seq<string>, aliases: seq<string>, name: string) returns (i: nat)
    requires |aliases| == |longs| && FindAlias(longs, aliases, name).Some?
    ensures i < |longs| && FindAlias(longs, aliases, name) == Some(aliases[i])
    ensures aliases[i] != "" && SameText(longs[i], name)
  {
    if aliases[0] != "" && SameText(longs[0], name) {
      i := 0;
    } else {
      i := FindAliasHits(longs[1..], aliases[1..], name);
      i := i + 1;
    }
  }

  /** Long name to alias and back: the same name, up to case; and every noted name has an alias to start from. */
  lemma AliasRoundTrip(taken: seq<string>, longs: seq<string>, name: string)
    requires |taken| <= MAX_TAKEN && |longs| <= MAX_NEEDY
    ensures var aliases := Assign(taken, longs);
            match FindAlias(longs, aliases, name)
            case Some(alias) =>
              var found := FindLong(longs, aliases, alias);
              found.Some? && SameText(found.value, name) && found.value in longs
            case None => forall e :: 0 <= e < |longs| ==> !SameText(longs[e], name)
  {
    var aliases := Assign(taken, longs);
    AliasesDistinct(taken, longs);
    if FindAlias(longs, aliases, name).Some? {
      var i := FindAliasHits(longs, aliases, name);
      FindLongHits(longs, aliases, i, aliases[i]);
    } else {
      FindAliasMisses(longs, aliases, name);
    }
  }

  lemma {:induction false} FindAliasMisses(longs: seq<string>, aliases: seq<string>, name: string)
    requires |aliases| == |longs| && FindAlias(longs, aliases, name).None?
    requires forall e :: 0 <= e < |longs| ==> aliases[e] != ""
    ensures forall e :: 0 <= e < |longs| ==> !SameText(longs[e], name)
  {
    if longs != [] {
      FindAliasMisses(longs[1..], aliases[1..], name);
      assert forall e :: 1 <= e < |longs| ==> longs[e] == longs[1..][e - 1];
    }
  }
}
