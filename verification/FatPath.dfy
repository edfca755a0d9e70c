/** Paths on an image: splitting them into components, and the resolver that normalises them in a fixed buffer. */
module FatPath {
  import opened Machine

  const DOT: Byte := 0x2E
  const SEPARATOR: Byte := 0x5C

  predicate IsSeparator(c: Byte) {
    c == 0x5C || c == 0x2F
  }

  function Upper(c: Byte): Byte {
    if 0x61 <= c <= 0x7A then c - 0x20 else c
  }

  function UpperAll(s: seq<Byte>): (r: seq<Byte>)
    ensures |r| == |s| && forall i :: 0 <= i < |s| ==> r[i] == Upper(s[i])
  {
    if s == [] then [] else [Upper(s[0])] + UpperAll(s[1..])
  }

  lemma UpperAllIs(s: seq<Byte>, t: seq<Byte>)
    requires |t| == |s| && forall i :: 0 <= i < |s| ==> t[i] == Upper(s[i])
    ensures t == UpperAll(s)
  {
  }

  // ---- components ----

  /** How far the path's first component goes. */
  function PartLength(path: seq<Byte>): (k: nat)
    ensures k <= |path| && (forall i :: 0 <= i < k ==> !IsSeparator(path[i])) && (k < |path| ==> IsSeparator(path[k]))
  {
    if path == [] || IsSeparator(path[0]) then 0 else 1 + PartLength(path[1..])
  }

  lemma PartLengthIs(path: seq<Byte>, k: nat)
    requires k <= |path| && (forall i :: 0 <= i < k ==> !IsSeparator(path[i])) && (k < |path| ==> IsSeparator(path[k]))
    ensures PartLength(path) == k
  {
  }

  predicate IsPart(c: seq<Byte>) {
    c != [] && forall i :: 0 <= i < |c| ==> !IsSeparator(c[i])
  }

  /** The path's components, in order; empty ones are no components. */
  function Components(path: seq<Byte>): seq<seq<Byte>>
    decreases |path|
  {
    if path == [] then []
    else
      var k := PartLength(path);
      if k == 0 then Components(path[1..]) else [path[..k]] + Components(path[k..])
  }

  lemma {:induction false} ComponentsAreParts(path: seq<Byte>)
    ensures forall i :: 0 <= i < |Components(path)| ==> IsPart(Components(path)[i])
    decreases |path|
  {
    if path != [] {
      var k := PartLength(path);
      ComponentsAreParts(if k == 0 then path[1..] else path[k..]);
    }
  }

  /** A path whose second part starts at a separator: the components of both, in order. */
  lemma {:induction false} ComponentsOfJoined(p: seq<Byte>, tail: seq<Byte>)
    requires tail != [] && IsSeparator(tail[0])
    ensures Components(p + tail) == Components(p) + Components(tail)
    decreases |p|
  {
    if p == [] {
      assert p + tail == tail;
    } else {
      var k := if PartLength(p) == 0 then 1 else PartLength(p);
      PartLengthOfConcat(p, tail);
      SliceConcat(p, tail, k);
      ComponentsOfJoined(p[k..], tail);
      ConcatAssoc([p[..k]], Components(p[k..]), Components(tail));
    }
  }

  lemma ComponentsAfterSeparator(sep: Byte, q: seq<Byte>)
    requires IsSeparator(sep)
    ensures Components([sep] + q) == Components(q)
  {
    PartLengthIs([sep] + q, 0);
    assert ([sep] + q)[1..] == q;
  }

  lemma PartLengthOfConcat(p: seq<Byte>, tail: seq<Byte>)
    requires tail != [] && IsSeparator(tail[0])
    ensures PartLength(p + tail) == PartLength(p)
  {
    var k := PartLength(p);
    assert k == |p| ==> (p + tail)[k] == tail[0];
    PartLengthIs(p + tail, k);
  }

  lemma SliceConcat(p: seq<Byte>, tail: seq<Byte>, k: nat)
    requires k <= |p|
    ensures (p + tail)[..k] == p[..k] && (p + tail)[k..] == p[k..] + tail
  {
  }

  lemma ComponentsOfPart(c: seq<Byte>)
    requires IsPart(c)
    ensures Components(c) == [c]
  {
    PartLengthIs(c, |c|);
    assert c[..|c|] == c && c[|c|..] == [];
  }

  // ---- the stack a path folds to ----

  function Join(stack: seq<seq<Byte>>): seq<Byte> {
    if |stack| == 0 then []
    else if |stack| == 1 then stack[0]
    else Join(stack[..|stack| - 1]) + ([SEPARATOR] + stack[|stack| - 1])
  }

  function Push(stack: seq<seq<Byte>>, part: seq<Byte>): seq<seq<Byte>> {
    if part == [DOT] then stack
    else if part == [DOT, DOT] then if stack == [] then [] else stack[..|stack| - 1]
    else stack + [UpperAll(part)]
  }

  function Fold(stack: seq<seq<Byte>>, parts: seq<seq<Byte>>): seq<seq<Byte>>
    decreases |parts|
  {
    if parts == [] then stack else Fold(Push(stack, parts[0]), parts[1..])
  }

  /** What resolving `path` against `current` means, with no bound on the length. */
  function Resolved(current: seq<Byte>, path: seq<Byte>): seq<Byte> {
    Join(Fold([], Parts(current, path)))
  }

  predicate IsAbsolute(path: seq<Byte>) {
    path != [] && IsSeparator(path[0])
  }

  /** The components that count: an absolute path ignores the current directory. */
  function Parts(current: seq<Byte>, path: seq<Byte>): seq<seq<Byte>> {
    if IsAbsolute(path) then Components(path) else Components(current) + Components(path)
  }

  /** Every path on the way fits below the capacity. */
  ghost predicate Fits(stack: seq<seq<Byte>>, parts: seq<seq<Byte>>, capacity: nat) {
    forall k :: 0 <= k <= |parts| ==> |Join(Fold(stack, parts[..k]))| < capacity
  }

  /** A component of a resolved path: upper-case, and neither "." nor "..". */
  ghost predicate IsNormal(c: seq<Byte>) {
    IsPart(c) && UpperAll(c) == c && c != [DOT] && c != [DOT, DOT]
  }

  ghost predicate AllNormal(stack: seq<seq<Byte>>) {
    forall i :: 0 <= i < |stack| ==> IsNormal(stack[i])
  }

  lemma UpperTwice(s: seq<Byte>)
    ensures UpperAll(UpperAll(s)) == UpperAll(s)
    ensures IsPart(s) ==> IsPart(UpperAll(s))
    ensures UpperAll(s) == [DOT] <==> s == [DOT]
    ensures UpperAll(s) == [DOT, DOT] <==> s == [DOT, DOT]
  {
    var u := UpperAll(s);
    UpperAllIs(u, u);
    if u == [DOT] {
      assert Upper(s[0]) == DOT;
    }
    if u == [DOT, DOT] {
      assert Upper(s[0]) == DOT && Upper(s[1]) == DOT;
    }
  }

  lemma PushNormal(stack: seq<seq<Byte>>, part: seq<Byte>)
    requires AllNormal(stack) && IsPart(part)
    ensures AllNormal(Push(stack, part))
  {
    UpperTwice(part);
  }

  lemma {:induction false} FoldNormal(stack: seq<seq<Byte>>, parts: seq<seq<Byte>>)
    requires AllNormal(stack) && forall i :: 0 <= i < |parts| ==> IsPart(parts[i])
    ensures AllNormal(Fold(stack, parts))
    decreases |parts|
  {
    if parts != [] {
      PushNormal(stack, parts[0]);
      FoldNormal(Push(stack, parts[0]), parts[1..]);
    }
  }

  lemma {:induction false} FoldConcat(stack: seq<seq<Byte>>, a: seq<seq<Byte>>, b: seq<seq<Byte>>)
    ensures Fold(stack, a + b) == Fold(Fold(stack, a), b)
    decreases |a|
  {
    if a == [] {
      assert a + b == b;
    } else {
      FoldConcat(Push(stack, a[0]), a[1..], b);
      assert (a + b)[1..] == a[1..] + b;
    }
  }

  /** Splitting a joined stack gives the stack back. */
  lemma {:induction false} JoinSplits(stack: seq<seq<Byte>>)
    requires AllNormal(stack)
    ensures Components(Join(stack)) == stack
    decreases |stack|
  {
    if |stack| == 1 {
      ComponentsOfPart(stack[0]);
    } else if |stack| > 1 {
      var front, last := stack[..|stack| - 1], stack[|stack| - 1];
      JoinSplits(front);
      ComponentsOfPart(last);
      ComponentsOfJoined(Join(front), [SEPARATOR] + last);
      ComponentsAfterSeparator(SEPARATOR, last);
    }
  }

  /** A normal stack folds onto the root unchanged. */
  lemma {:induction false} FoldOfNormal(stack: seq<seq<Byte>>)
    requires AllNormal(stack)
    ensures Fold([], stack) == stack
    decreases |stack|
  {
    if stack != [] {
      var front, last := stack[..|stack| - 1], stack[|stack| - 1];
      FoldOfNormal(front);
      FoldConcat([], front, [last]);
      assert stack == front + [last] && Fold(front, [last]) == Fold(Push(front, last), []);
    }
  }

  lemma PartsAreParts(current: seq<Byte>, path: seq<Byte>)
    ensures AllNormal(Fold([], Parts(current, path)))
  {
    ComponentsAreParts(current);
    ComponentsAreParts(path);
    FoldNormal([], Parts(current, path));
  }

  /** A resolved path is the join of upper-case components with no "." or ".." among them, and resolves to itself. */
  lemma ResolvedIsNormal(current: seq<Byte>, path: seq<Byte>)
    ensures var r := Resolved(current, path);
            && AllNormal(Components(r)) && Join(Components(r)) == r
            && Resolved([], r) == r
            && UpperAll(r) == r
  {
    var stack := Fold([], Parts(current, path));
    PartsAreParts(current, path);
    JoinSplits(stack);
    JoinUpper(stack);
    FoldOfNormal(stack);
    var r := Join(stack);
    assert Components([]) + Components(r) == Components(r);
  }

  lemma {:induction false} JoinUpper(stack: seq<seq<Byte>>)
    requires AllNormal(stack)
    ensures UpperAll(Join(stack)) == Join(stack)
    ensures Join(stack) != [] ==> !IsSeparator(Join(stack)[0])
    decreases |stack|
  {
    if |stack| > 0 {
      assert IsNormal(stack[0]);
    }
    if |stack| > 1 {
      var front, last := stack[..|stack| - 1], stack[|stack| - 1];
      JoinUpper(front);
      JoinNonempty(front);
      assert IsNormal(last);
      UpperAllIs(Join(stack), Join(stack));
    }
  }

  lemma JoinNonempty(stack: seq<seq<Byte>>)
    requires AllNormal(stack)
    ensures Join(stack) == [] <==> stack == []
  {
    if |stack| == 1 {
      assert IsNormal(stack[0]);
    }
  }

  /** Resolving q against resolve(c, p) is resolving p\\q against c. */
  lemma ResolveComposes(c: seq<Byte>, p: seq<Byte>, sep: Byte, q: seq<Byte>)
    requires IsSeparator(sep) && !IsAbsolute(q) && p != []
    ensures Resolved(Resolved(c, p), q) == Resolved(c, p + ([sep] + q))
  {
    var stack := Fold([], Parts(c, p));
    PartsAreParts(c, p);
    JoinSplits(stack);
    FoldOfNormal(stack);
    FoldConcat([], stack, Components(q));
    PartsOfJoined(c, p, sep, q);
    FoldConcat([], Parts(c, p), Components(q));
  }

  lemma PartsOfJoined(c: seq<Byte>, p: seq<Byte>, sep: Byte, q: seq<Byte>)
    requires IsSeparator(sep) && p != []
    ensures Parts(c, p + ([sep] + q)) == Parts(c, p) + Components(q)
  {
    ComponentsOfJoined(p, [sep] + q);
    ComponentsAfterSeparator(sep, q);
    assert (p + ([sep] + q))[0] == p[0];
    assert Components(c) + (Components(p) + Components(q)) == (Components(c) + Components(p)) + Components(q);
  }

  /** With an empty p, p\\q is an absolute path, so there the two differ: "B" against "A" is not "\\B" against "A". */
  lemma EmptyPathDoesNotCompose(sep: Byte)
    requires IsSeparator(sep)
    ensures !IsAbsolute([0x42]) && Resolved(Resolved([0x41], []), [0x42]) != Resolved([0x41], [] + ([sep] + [0x42]))
  {
    var a: seq<Byte>, b: seq<Byte>, root: seq<Byte> := [0x41], [0x42], [] + ([sep] + [0x42]);
    assert root == [sep] + b;
    assert UpperAll(a) == a && UpperAll(b) == b;
    ComponentsOfPart(a);
    ComponentsOfPart(b);
    ComponentsAfterSeparator(sep, b);
    assert Components([]) == [] && IsNormal(a) && IsNormal(b);
    hide Components, Fold, IsNormal, UpperAll;
    FoldOfNormal([a]);
    FoldOfNormal([b]);
    FoldOfNormal([a, b]);
    assert Components(a) + Components([]) == [a] && Components(a) + Components(b) == [a, b];
    assert Resolved(a, []) == a;
    JoinTwo(a, b);
    assert Resolved(a, b) == a + ([SEPARATOR] + b) && Resolved(a, root) == b;
  }

  lemma JoinTwo(a: seq<Byte>, b: seq<Byte>)
    ensures Join([a, b]) == a + ([SEPARATOR] + b) && |Join([a, b])| == |a| + 1 + |b|
  {
    assert [a, b][..1] == [a];
  }

  /**
   * Resolving in two steps is resolving the joined path, for every current
   * directory and relative q, exactly when p is not empty.
   */
  lemma ResolveComposesIff(p: seq<Byte>, sep: Byte)
    requires IsSeparator(sep)
    ensures p != [] <==> forall c, q | !IsAbsolute(q) :: Resolved(Resolved(c, p), q) == Resolved(c, p + ([sep] + q))
  {
    if p != [] {
      forall c, q | !IsAbsolute(q) ensures Resolved(Resolved(c, p), q) == Resolved(c, p + ([sep] + q)) {
        ResolveComposes(c, p, sep, q);
      }
    } else {
      EmptyPathDoesNotCompose(sep);
    }
  }

  // ---- what each kind of component does ----

  lemma ResolvedThen(c: seq<Byte>, p: seq<Byte>, sep: Byte, part: seq<Byte>)
    requires (sep == 0x5C || sep == 0x2F) && p != [] && IsPart(part)
    ensures Fold([], Parts(c, p + ([sep] + part))) == Push(Fold([], Parts(c, p)), part)
  {
    PartsOfJoined(c, p, sep, part);
    ComponentsOfPart(part);
    FoldConcat([], Parts(c, p), [part]);
    FoldOne(Fold([], Parts(c, p)), part);
  }

  /** A plain component is appended in upper case, behind a backslash unless at the root. */
  lemma PlainPartAppends(c: seq<Byte>, p: seq<Byte>, sep: Byte, part: seq<Byte>, upper: seq<Byte>)
    requires (sep == 0x5C || sep == 0x2F) && p != [] && IsPart(part) && part != [0x2E] && part != [0x2E, 0x2E]
    requires |upper| == |part|
    requires forall i :: 0 <= i < |part| ==> upper[i] == if 0x61 <= part[i] <= 0x7A then part[i] - 0x20 else part[i]
    ensures var r := Resolved(c, p);
            Resolved(c, p + ([sep] + part)) == (if r == [] then [] else r + [0x5C]) + upper
  {
    ResolvedThen(c, p, sep, part);
    PartsAreParts(c, p);
    PushLength(Fold([], Parts(c, p)), part);
    UpperAllIs(part, upper);
  }

  /** "." changes nothing, and neither does a separator at the end. */
  lemma DotChangesNothing(c: seq<Byte>, p: seq<Byte>, sep: Byte)
    requires (sep == 0x5C || sep == 0x2F) && p != []
    ensures Resolved(c, p + ([sep] + [0x2E])) == Resolved(c, p)
    ensures Resolved(c, p + ([sep] + [])) == Resolved(c, p)
  {
    ResolvedThen(c, p, sep, [0x2E]);
    PartsOfJoined(c, p, sep, []);
    assert Parts(c, p) + [] == Parts(c, p);
  }

  /** ".." undoes a plain component, whatever was there before it, and at the root it does nothing. */
  lemma DotDotGoesUp(c: seq<Byte>, p: seq<Byte>, sep: Byte, part: seq<Byte>, sep2: Byte)
    requires (sep == 0x5C || sep == 0x2F) && (sep2 == 0x5C || sep2 == 0x2F) && p != []
    requires IsPart(part) && part != [0x2E] && part != [0x2E, 0x2E]
    ensures Resolved(c, p + ([sep] + part) + ([sep2] + [0x2E, 0x2E])) == Resolved(c, p)
    ensures Resolved(c, p) == [] ==> Resolved(c, p + ([sep2] + [0x2E, 0x2E])) == []
  {
    var stack := Fold([], Parts(c, p));
    ResolvedThen(c, p, sep, part);
    ResolvedThen(c, p + ([sep] + part), sep2, [0x2E, 0x2E]);
    assert Push(stack, part)[..|stack|] == stack;
    ResolvedThen(c, p, sep2, [0x2E, 0x2E]);
    PartsAreParts(c, p);
    JoinNonempty(stack);
  }

  /** A path that starts with a separator is resolved from the root, any other from the current directory. */
  lemma StartsWhere(c: seq<Byte>, sep: Byte, q: seq<Byte>)
    requires sep == 0x5C || sep == 0x2F
    ensures Resolved(c, [sep] + q) == Resolved([], [sep] + q)
    ensures q == [] || (q[0] != 0x5C && q[0] != 0x2F) ==> Resolved(c, q) == Resolved([], c + ([sep] + q))
    ensures Resolved([], [sep]) == []
  {
    ComponentsOfJoined(c, [sep] + q);
    ComponentsAfterSeparator(sep, q);
    assert Components([]) + (Components(c) + Components(q)) == Components(c) + Components(q);
    ComponentsAfterSeparator(sep, []);
    assert [sep] + [] == [sep];
  }

  // ---- the resolver ----

  /** Where the last component of a joined stack starts. */
  lemma LastSeparator(stack: seq<seq<Byte>>)
    requires AllNormal(stack) && stack != []
    ensures var whole, front := Join(stack), stack[..|stack| - 1];
            var start := if front == [] then 0 else |Join(front)| + 1;
            && start < |whole| && (forall i :: start <= i < |whole| ==> whole[i] != SEPARATOR)
            && (start > 0 ==> whole[start - 1] == SEPARATOR && whole[..start - 1] == Join(front))
  {
    assert IsNormal(stack[|stack| - 1]);
  }

  /** "..": back over the last component and the separator before it; the root stays the root. */
  method GoUp(resolved: array<Byte>, length: nat, ghost stack: seq<seq<Byte>>) returns (now: nat)
    requires length < resolved.Length && AllNormal(stack) && resolved[..length] == Join(stack)
    modifies resolved
    ensures now <= length && resolved[now] == 0
    ensures resolved[..now] == if stack == [] then [] else Join(stack[..|stack| - 1])
    ensures forall i :: length < i < resolved.Length ==> resolved[i] == old(resolved[i])
  {
    now := length;
    ghost var whole := Join(stack);
    ghost var start := if |stack| <= 1 then 0 else |Join(stack[..|stack| - 1])| + 1;
    JoinNonempty(stack);
    if stack != [] {
      LastSeparator(stack);
      JoinNonempty(stack[..|stack| - 1]);
    }
    assert forall i :: 0 <= i < length ==> resolved[i] == whole[i];
    while now > 0 && resolved[now - 1] != SEPARATOR
      invariant start <= now <= length
    {
      now := now - 1;
    }
    if now > 0 {
      now := now - 1;
    }
    resolved[now] := 0;
    assert resolved[..now] == whole[..now];
  }

  /** A component in upper case after a separator, or at the root with none. */
  method AppendPart(component: seq<Byte>, resolved: array<Byte>, length: nat, ghost capacity: nat) returns (now: nat)
    requires length + (if length != 0 then 1 else 0) + |component| < capacity <= resolved.Length
    modifies resolved
    ensures now == length + (if length != 0 then 1 else 0) + |component| && resolved[now] == 0
    ensures resolved[..now] == (if length != 0 then old(resolved[..length]) + [SEPARATOR] else []) + UpperAll(component)
    ensures forall i :: capacity <= i < resolved.Length ==> resolved[i] == old(resolved[i])
  {
    hide UpperAll;
    now := length;
    if now != 0 {
      resolved[now] := SEPARATOR;
      now := now + 1;
    }
    ghost var start := now;
    ghost var prefix := resolved[..now];
    assert prefix == if length != 0 then old(resolved[..length]) + [SEPARATOR] else [];
    var index := 0;
    while index < |component|
      invariant 0 <= index <= |component| && now == start + index
      invariant resolved[..now] == prefix + UpperAll(component)[..index]
      invariant forall i :: capacity <= i < resolved.Length ==> resolved[i] == old(resolved[i])
    {
      resolved[now] := Upper(component[index]);
      assert resolved[..now + 1] == resolved[..now] + [Upper(component[index])];
      now := now + 1;
      index := index + 1;
    }
    resolved[now] := 0;
    assert UpperAll(component)[..index] == UpperAll(component);
  }

  /** One component: "." stays, ".." goes up unless at the root, any other is appended if it fits. */
  method FatResolveComponent(component: seq<Byte>, resolved: array<Byte>, length: nat, capacity: nat,
                             ghost stack: seq<seq<Byte>>)
    returns (ok: bool, now: nat)
    requires IsPart(component) && length < capacity <= resolved.Length
    requires AllNormal(stack) && resolved[..length] == Join(stack) && resolved[length] == 0
    modifies resolved
    ensures ok <==> |Join(Push(stack, component))| < capacity
    ensures ok ==> now < capacity && resolved[..now] == Join(Push(stack, component)) && resolved[now] == 0
    ensures forall i :: capacity <= i < resolved.Length ==> resolved[i] == old(resolved[i])
  {
    if component == [DOT] {
      return true, length;
    }
    if component == [DOT, DOT] {
      now := GoUp(resolved, length, stack);
      assert |resolved[..now]| == now;
      return true, now;
    }
    PushLength(stack, component);
    if length + (if length != 0 then 1 else 0) + |component| >= capacity {
      return false, length;
    }
    now := AppendPart(component, resolved, length, capacity);
    ok := true;
  }

  lemma PushLength(stack: seq<seq<Byte>>, part: seq<Byte>)
    requires AllNormal(stack) && part != [DOT] && part != [DOT, DOT]
    ensures Join(Push(stack, part)) == (if Join(stack) != [] then Join(stack) + [SEPARATOR] else []) + UpperAll(part)
  {
    JoinNonempty(stack);
    assert Join(stack) + [SEPARATOR] + UpperAll(part) == Join(stack) + ([SEPARATOR] + UpperAll(part));
    assert (stack + [UpperAll(part)])[..|stack|] == stack;
  }

  /** The length of the component that starts at `at`. */
  method ScanPart(path: seq<Byte>, at: nat) returns (partLength: nat)
    requires at <= |path|
    ensures at + partLength <= |path| && partLength == PartLength(path[at..])
  {
    partLength := 0;
    while at + partLength < |path| && !IsSeparator(path[at + partLength])
      invariant at + partLength <= |path|
      invariant forall i :: at <= i < at + partLength ==> !IsSeparator(path[i])
    {
      partLength := partLength + 1;
    }
    PartLengthIs(path[at..], partLength);
  }

  /** The components of `path`, one after the other. */
  method FatResolveAppend(path: seq<Byte>, resolved: array<Byte>, length: nat, capacity: nat,
                          ghost stack: seq<seq<Byte>>)
    returns (ok: bool, now: nat)
    requires length < capacity <= resolved.Length
    requires AllNormal(stack) && resolved[..length] == Join(stack) && resolved[length] == 0
    modifies resolved
    ensures ok <==> Fits(stack, Components(path), capacity)
    ensures ok ==> now < capacity && resolved[..now] == Join(Fold(stack, Components(path))) && resolved[now] == 0
    ensures forall i :: capacity <= i < resolved.Length ==> resolved[i] == old(resolved[i])
  {
    hide Push, Join, Fits, AllNormal, IsPart, PartLength, UpperAll;
    now := length;
    var at := 0;
    ghost var seen: seq<seq<Byte>> := [];
    FitsNothing(stack, capacity);
    while at < |path|
      invariant 0 <= at <= |path|
      invariant Components(path) == seen + Components(path[at..])
      invariant now < capacity && AllNormal(Fold(stack, seen)) && Fits(stack, seen, capacity)
      invariant resolved[..now] == Join(Fold(stack, seen)) && resolved[now] == 0
      invariant forall i :: capacity <= i < resolved.Length ==> resolved[i] == old(resolved[i])
    {
      var partLength := ScanPart(path, at);
      NextPart(path, at, partLength);
      if partLength > 0 {
        var part := path[at..at + partLength];
        FitsOneMore(stack, seen, part, capacity);
        FoldNormal(Fold(stack, seen), [part]);
        ConcatAssoc(seen, [part], Components(path[at + partLength..]));
        ok, now := FatResolveComponent(part, resolved, now, capacity, Fold(stack, seen));
        if !ok {
          UnfitPrefix(stack, seen + [part], Components(path[at + partLength..]), capacity);
          return false, now;
        }
        seen := seen + [part];
      }
      at := at + partLength;
      if at < |path| {
        at := at + 1;
      }
    }
    assert seen == Components(path);
    ok := true;
  }

  lemma FitsNothing(stack: seq<seq<Byte>>, capacity: nat)
    requires |Join(stack)| < capacity
    ensures Fold(stack, []) == stack && Fits(stack, [], capacity)
  {
  }

  lemma ConcatAssoc(seen: seq<seq<Byte>>, parts: seq<seq<Byte>>, rest: seq<seq<Byte>>)
    ensures seen + (parts + rest) == seen + parts + rest
  {
  }

  /** What is left after the component at `at`; the separator after it brings none of its own. */
  lemma NextPart(path: seq<Byte>, at: nat, k: nat)
    requires at < |path| && k == PartLength(path[at..])
    ensures at + k <= |path|
    ensures k > 0 ==>
              IsPart(path[at..at + k])
              && Components(path[at..]) == [path[at..at + k]] + Components(path[at + k..])
    ensures k == 0 ==> Components(path[at..]) == Components(path[at + k..])
    ensures at + k < |path| ==> Components(path[at + k..]) == Components(path[at + k + 1..])
  {
    var rest := path[at..];
    assert rest[..k] == path[at..at + k] && rest[k..] == path[at + k..];
    if at + k < |path| {
      PartLengthIs(path[at + k..], 0);
      assert path[at + k..][1..] == path[at + k + 1..];
    }
  }

  lemma FitsOneMore(stack: seq<seq<Byte>>, seen: seq<seq<Byte>>, part: seq<Byte>, capacity: nat)
    requires Fits(stack, seen, capacity)
    ensures Fold(stack, seen + [part]) == Push(Fold(stack, seen), part) == Fold(Fold(stack, seen), [part])
    ensures Fits(stack, seen + [part], capacity) <==> |Join(Push(Fold(stack, seen), part))| < capacity
  {
    FoldConcat(stack, seen, [part]);
    FoldOne(Fold(stack, seen), part);
    hide Fold, Join, Push;
    var more := seen + [part];
    assert more[..|seen| + 1] == more;
    assert forall k :: 0 <= k <= |seen| ==> more[..k] == seen[..k];
  }

  lemma FoldOne(stack: seq<seq<Byte>>, part: seq<Byte>)
    ensures Fold(stack, [part]) == Push(stack, part)
  {
    assert [part][1..] == [] && Fold(Push(stack, part), []) == Push(stack, part);
  }

  lemma UnfitPrefix(stack: seq<seq<Byte>>, seen: seq<seq<Byte>>, rest: seq<seq<Byte>>, capacity: nat)
    requires !Fits(stack, seen, capacity)
    ensures !Fits(stack, seen + rest, capacity)
  {
    var k :| 0 <= k <= |seen| && |Join(Fold(stack, seen[..k]))| >= capacity;
    assert (seen + rest)[..k] == seen[..k];
  }

  /**
   * FatImageResolvePath: succeeds exactly when every path on the way fits the buffer, and then leaves
   * the resolved path and its terminator there. Never writes at or past the capacity.
   */
  method FatImageResolvePath(current: seq<Byte>, path: seq<Byte>, resolved: array<Byte>, capacity: int)
    returns (ok: bool, length: nat)
    requires capacity <= resolved.Length
    modifies resolved
    ensures ok <==> capacity >= 1 && Fits([], Parts(current, path), capacity)
    ensures ok ==> length < capacity && resolved[..length] == Resolved(current, path) && resolved[length] == 0
    ensures forall i :: 0 <= i < resolved.Length && capacity <= i ==> resolved[i] == old(resolved[i])
  {
    length := 0;
    if capacity < 1 {
      return false, 0;
    }
    resolved[0] := 0;
    if !IsAbsolute(path) {
      ok, length := FatResolveAppend(current, resolved, 0, capacity, []);
      FoldConcat([], Components(current), Components(path));
      if !ok {
        UnfitPrefix([], Components(current), Components(path), capacity);
        return;
      }
      FitsInTurn([], Components(current), Components(path), capacity);
      ComponentsAreParts(current);
      FoldNormal([], Components(current));
      ok, length := FatResolveAppend(path, resolved, length, capacity, Fold([], Components(current)));
    } else {
      ok, length := FatResolveAppend(path, resolved, 0, capacity, []);
    }
  }

  lemma FitsInTurn(stack: seq<seq<Byte>>, a: seq<seq<Byte>>, b: seq<seq<Byte>>, capacity: nat)
    requires Fits(stack, a, capacity)
    ensures Fits(stack, a + b, capacity) <==> Fits(Fold(stack, a), b, capacity)
  {
    forall k | 0 <= k <= |b| ensures Fold(stack, (a + b)[..|a| + k]) == Fold(Fold(stack, a), b[..k]) {
      FoldConcat(stack, a, b[..k]);
      assert (a + b)[..|a| + k] == a + b[..k];
    }
    forall k | 0 <= k <= |a| ensures (a + b)[..k] == a[..k] {
    }
    if Fits(stack, a + b, capacity) {
      forall k | 0 <= k <= |b| ensures |Join(Fold(Fold(stack, a), b[..k]))| < capacity {
        assert |Join(Fold(stack, (a + b)[..|a| + k]))| < capacity;
      }
    }
    if Fits(Fold(stack, a), b, capacity) {
      forall k | 0 <= k <= |a + b| ensures |Join(Fold(stack, (a + b)[..k]))| < capacity {
        if k <= |a| {
          assert (a + b)[..k] == a[..k];
        } else {
          assert |Join(Fold(Fold(stack, a), b[..k - |a|]))| < capacity;
          assert Fold(stack, (a + b)[..|a| + (k - |a|)]) == Fold(Fold(stack, a), b[..k - |a|]);
        }
      }
    }
  }
}
