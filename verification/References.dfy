/** Chains of type definitions that name each other: following them (getTerminal) and the test
    meant to keep them free of cycles, src/blink_schema.c:1935-2030, 2227-2255. */
module References {
  import opened Base
  import opened Schema
  import opened Lookup
  import opened Definitions
  import opened Resolution
  import Orbits

  predicate IsTypeDef(nss: Namespaces, r: Ref) {
    r.ns < |nss| && r.at < |nss[r.ns].defs| && nss[r.ns].defs[r.at].TypeDef?
  }

  /** A type definition that is itself a reference. */
  predicate IsAlias(nss: Namespaces, r: Ref) {
    IsTypeDef(nss, r) && nss[r.ns].defs[r.at].ty.tag.IRef?
  }

  /** What resolveDefinitions leaves behind: no reference is null and none leads nowhere. */
  ghost predicate Linked(nss: Namespaces) {
    forall r :: IsAlias(nss, r) ==> DefAt(nss, r).ty.resolved.Some? && ValidRef(nss, DefAt(nss, r).ty.resolved.value)
  }

  lemma BoundIsLinked(nss: Namespaces)
    requires Bound(nss)
    ensures Linked(nss)
  {
    hide FindDef;
    forall r | IsAlias(nss, r)
      ensures DefAt(nss, r).ty.resolved.Some? && ValidRef(nss, DefAt(nss, r).ty.resolved.value) {
      assert DefBound(nss, DefAt(nss, r));
    }
  }

  function Target(nss: Namespaces, r: Ref): (t: Ref)
    requires Linked(nss) && IsAlias(nss, r)
    ensures ValidRef(nss, t)
  {
    DefAt(nss, r).ty.resolved.value
  }

  // ----------------------------------------------------------------- following a chain

  /** The chain from r leaves the aliases after at most n steps. */
  ghost predicate EndsIn(nss: Namespaces, r: Ref, n: nat)
    requires Linked(nss)
    decreases n
  {
    IsAlias(nss, r) ==> n > 0 && EndsIn(nss, Target(nss, r), n - 1)
  }

  ghost predicate Ends(nss: Namespaces, r: Ref)
    requires Linked(nss)
  {
    exists n: nat :: EndsIn(nss, r, n)
  }

  /** The definition at the end of the chain, and whether a reference on the way was dynamic
      or to a sequence. */
  ghost function Terminal(nss: Namespaces, r: Ref, n: nat): (t: (Ref, bool, bool))
    requires Linked(nss) && EndsIn(nss, r, n)
    ensures !IsAlias(nss, t.0) && (ValidRef(nss, r) ==> ValidRef(nss, t.0))
    decreases n
  {
    if !IsAlias(nss, r) then (r, false, false)
    else
      var ty := DefAt(nss, r).ty;
      var (t, dynamic, sequence) := Terminal(nss, Target(nss, r), n - 1);
      (t, dynamic || ty.isDynamic, sequence || ty.isSequence)
  }

  lemma {:induction false} TerminalStable(nss: Namespaces, r: Ref, m: nat, n: nat)
    requires Linked(nss) && EndsIn(nss, r, m) && EndsIn(nss, r, n)
    ensures Terminal(nss, r, m) == Terminal(nss, r, n)
    decreases m
  {
    if IsAlias(nss, r) { TerminalStable(nss, Target(nss, r), m - 1, n - 1); }
  }

  ghost function TerminalOf(nss: Namespaces, r: Ref): (t: (Ref, bool, bool))
    requires Linked(nss) && Ends(nss, r)
    ensures !IsAlias(nss, t.0) && (ValidRef(nss, r) ==> ValidRef(nss, t.0))
  {
    var n: nat :| EndsIn(nss, r, n);
    Terminal(nss, r, n)
  }

  lemma TerminalOfIs(nss: Namespaces, r: Ref, n: nat)
    requires Linked(nss) && EndsIn(nss, r, n)
    ensures TerminalOf(nss, r) == Terminal(nss, r, n)
  {
    hide Linked, EndsIn, Terminal;
    var m: nat :| EndsIn(nss, r, m) && TerminalOf(nss, r) == Terminal(nss, r, m);
    TerminalStable(nss, r, m, n);
  }

  /** The i-th definition on the chain from r. */
  function Link(nss: Namespaces, r: Ref, i: nat): Option<Ref>
    requires Linked(nss)
    decreases i
  {
    if i == 0 then Some(r) else if IsAlias(nss, r) then Link(nss, DefAt(nss, r).ty.resolved.value, i - 1) else None
  }

  /** A reference on the chain has a star. */
  ghost predicate HasStar(nss: Namespaces, r: Ref)
    requires Linked(nss)
  {
    exists i: nat :: IsStarred(nss, Link(nss, r, i))
  }

  predicate IsStarred(nss: Namespaces, p: Option<Ref>) {
    p.Some? && IsAlias(nss, p.value) && nss[p.value.ns].defs[p.value.at].ty.isDynamic
  }

  /** A reference on the chain has brackets. */
  ghost predicate HasBrackets(nss: Namespaces, r: Ref)
    requires Linked(nss)
  {
    exists i: nat :: IsBracketed(nss, Link(nss, r, i))
  }

  predicate IsBracketed(nss: Namespaces, p: Option<Ref>) {
    p.Some? && IsAlias(nss, p.value) && nss[p.value.ns].defs[p.value.at].ty.isSequence
  }

  lemma StarNext(nss: Namespaces, r: Ref)
    requires Linked(nss) && IsAlias(nss, r)
    ensures HasStar(nss, r) <==> DefAt(nss, r).ty.isDynamic || HasStar(nss, Target(nss, r))
    ensures HasBrackets(nss, r) <==> DefAt(nss, r).ty.isSequence || HasBrackets(nss, Target(nss, r))
  {
    hide Linked, IsAlias, IsStarred, IsBracketed;
    FirstLink(nss, r);
    if i: nat :| IsStarred(nss, Link(nss, r, i)) && i > 0 { assert IsStarred(nss, Link(nss, Target(nss, r), i - 1)); }
    if i: nat :| IsBracketed(nss, Link(nss, r, i)) && i > 0 {
      assert IsBracketed(nss, Link(nss, Target(nss, r), i - 1));
    }
    if i: nat :| IsStarred(nss, Link(nss, Target(nss, r), i)) { assert IsStarred(nss, Link(nss, r, i + 1)); }
    if i: nat :| IsBracketed(nss, Link(nss, Target(nss, r), i)) { assert IsBracketed(nss, Link(nss, r, i + 1)); }
  }

  lemma FirstLink(nss: Namespaces, r: Ref)
    requires Linked(nss) && IsAlias(nss, r)
    ensures Link(nss, r, 0) == Some(r) && Target(nss, r) == DefAt(nss, r).ty.resolved.value
    ensures IsStarred(nss, Some(r)) == DefAt(nss, r).ty.isDynamic
    ensures IsBracketed(nss, Some(r)) == DefAt(nss, r).ty.isSequence
  {
  }

  lemma NoLinkThere(nss: Namespaces, r: Ref)
    requires Linked(nss) && !IsAlias(nss, r)
    ensures !HasStar(nss, r) && !HasBrackets(nss, r)
  {
    hide Linked, IsAlias;
    forall i: nat ensures Link(nss, r, i) == None || Link(nss, r, i) == Some(r) {}
  }

  /** What getTerminal finds is on the chain and no reference itself, and its flags say whether
      any reference on the chain has a star, or brackets. */
  lemma TerminalMeans(nss: Namespaces, r: Ref)
    requires Linked(nss) && Ends(nss, r)
    ensures var (end, dynamic, sequence) := TerminalOf(nss, r);
            && (exists i: nat :: Link(nss, r, i) == Some(end)) && !IsAlias(nss, end)
            && (dynamic <==> HasStar(nss, r)) && (sequence <==> HasBrackets(nss, r))
  {
    hide Linked, EndsIn, Terminal, IsAlias, HasStar, HasBrackets;
    var n: nat :| EndsIn(nss, r, n);
    TerminalOfIs(nss, r, n);
    var i := FlagsMean(nss, r, n);
    assert Link(nss, r, i) == Some(Terminal(nss, r, n).0);
  }

  lemma {:induction false} FlagsMean(nss: Namespaces, r: Ref, n: nat) returns (i: nat)
    requires Linked(nss) && EndsIn(nss, r, n)
    ensures var (end, dynamic, sequence) := Terminal(nss, r, n);
            && Link(nss, r, i) == Some(end) && !IsAlias(nss, end)
            && (dynamic <==> HasStar(nss, r)) && (sequence <==> HasBrackets(nss, r))
    decreases n
  {
    hide Linked, HasStar, HasBrackets;
    if IsAlias(nss, r) {
      StarNext(nss, r);
      i := FlagsMean(nss, Target(nss, r), n - 1);
      i := i + 1;
    } else {
      NoLinkThere(nss, r);
      i := 0;
    }
  }

  /** getTerminal terminates on every chain that ends and finds its end. */
  method GetTerminal(nss: Namespaces, element: Ref) returns (ptr: Ref, dynamic: bool, sequence: bool)
    requires Linked(nss) && Ends(nss, element)
    ensures (ptr, dynamic, sequence) == TerminalOf(nss, element)
    ensures !IsAlias(nss, ptr) && (ValidRef(nss, element) ==> ValidRef(nss, ptr))
  {
    hide Linked;
    ptr, dynamic, sequence := element, false, false;
    ghost var n: nat :| EndsIn(nss, element, n);
    TerminalOfIs(nss, element, n);
    while IsAlias(nss, ptr)
      invariant EndsIn(nss, ptr, n)
      invariant var (t, d, s) := Terminal(nss, ptr, n);
                TerminalOf(nss, element) == (t, d || dynamic, s || sequence)
      decreases n
    {
      var ty := nss[ptr.ns].defs[ptr.at].ty;
      if ty.isDynamic {
        dynamic := true;
      }
      if ty.isSequence {
        sequence := true;
      }
      AliasResolved(nss, ptr);
      ptr := ty.resolved.value;
      n := n - 1;
    }
  }

  lemma AliasResolved(nss: Namespaces, r: Ref)
    requires Linked(nss) && IsAlias(nss, r)
    ensures nss[r.ns].defs[r.at].ty.resolved == Some(Target(nss, r))
  {
  }

  // ----------------------------------------------------------- the test as written

  /** How a test can come out. `Stray`: a definition is read as one of another kind, and what
      lies there is followed as a pointer. `Endless`: the source does not come back. */
  datatype Outcome = Accept | Reject | Stray | Endless

  /** When it accepts. The fast pointer always restarts at the slow one's target, so it meets
      the slow pointer on any chain of three type definitions, with or without a cycle; and
      the definition tested for being a group is always a type definition. */
  function Expected(nss: Namespaces, r: Ref): (o: Outcome)
    requires Linked(nss)
    ensures o != Endless
  {
    if !IsTypeDef(nss, r) then Accept
    else if !IsAlias(nss, r) then Stray
    else
      var x1 := Target(nss, r);
      if !IsTypeDef(nss, x1) then Accept
      else if !IsAlias(nss, x1) then Stray
      else if IsTypeDef(nss, Target(nss, x1)) then Reject
      else if DefAt(nss, r).ty.isDynamic then Reject
      else Accept
  }

  /** The type a definition's attr.resolved points to is read: what follows is a type
      definition, something else, or a stray pointer. */
  function Successor(nss: Namespaces, r: Ref): (s: Option<Ref>)
    requires Linked(nss)
    ensures s.Some? ==> ValidRef(nss, s.value)
  {
    if IsAlias(nss, r) then Some(Target(nss, r)) else None
  }

  /** testReferenceConstraint, both pointers and all flags. */
  method TestReference(nss: Namespaces, reference: Ref) returns (r: Outcome)
    requires Linked(nss)
    ensures r == Expected(nss, reference)
  {
    hide Linked;
    if !IsTypeDef(nss, reference) {
      return Accept;
    }
    var dynamic, sequence, errors := false, false, false;
    var slow, fast := reference, Some(reference);
    var cycle := false;
    ghost var steps := 0;
    while !cycle
      invariant IsTypeDef(nss, slow) && steps <= 2
      invariant steps == 0 ==>
        slow == reference && fast == Some(reference) && !dynamic && !sequence && !errors && !cycle
      invariant steps > 0 ==>
        IsAlias(nss, reference) && IsTypeDef(nss, Target(nss, reference)) && slow == Target(nss, reference)
      invariant steps > 0 ==> IsAlias(nss, slow) && cycle == IsTypeDef(nss, Target(nss, slow))
      invariant steps > 0 && !cycle ==>
        steps == 1 && fast == None && !errors && dynamic == DefAt(nss, reference).ty.isDynamic
      invariant cycle ==> errors
      decreases !cycle, 2 - steps
    {
      if fast.Some? {
        var s := Successor(nss, fast.value);
        if s.None? { return Stray; }
        fast := if IsTypeDef(nss, s.value) then Successor(nss, slow) else None;
      }
      if fast.Some? {
        var s := Successor(nss, fast.value);
        if s.None? { return Stray; }
        fast := if IsTypeDef(nss, s.value) then Successor(nss, slow) else None;
      }
      var next := Successor(nss, slow);
      if next.None? { return Stray; }
      if IsTypeDef(nss, next.value) {
        if nss[slow.ns].defs[slow.at].ty.isDynamic {
          if dynamic { errors := true; } else { dynamic := true; }
        }
        if nss[slow.ns].defs[slow.at].ty.isSequence {
          if sequence { errors := true; } else { sequence := true; }
        }
        slow := next.value;
      } else {
        if !errors && dynamic && !IsGroup(nss, slow) {
          errors := true;
        }
        return if errors then Reject else Accept;
      }
      if fast.Some? && fast.value == slow {
        errors, cycle := true, true;
      }
      steps := steps + 1;
    }
    r := Reject;
  }

  /** The first outcome other than acceptance along the walk. */
  function FirstFault(nss: Namespaces, refs: seq<Ref>): (r: Outcome)
    requires Linked(nss)
    ensures r != Endless
  {
    if refs == [] then Accept
    else if Expected(nss, refs[0]) != Accept then Expected(nss, refs[0])
    else FirstFault(nss, refs[1..])
  }

  lemma {:induction false} NoFault(nss: Namespaces, refs: seq<Ref>)
    requires Linked(nss)
    ensures FirstFault(nss, refs) == Accept <==> forall r :: r in refs ==> Expected(nss, r) == Accept
  {
    hide Linked, Expected;
    if refs != [] { NoFault(nss, refs[1..]); }
  }

  ghost predicate AllAccepted(nss: Namespaces)
    requires Linked(nss)
  {
    forall r :: ValidRef(nss, r) ==> Expected(nss, r) == Accept
  }

  /** The test is sound: where it accepts every definition, following any of them ends after
      at most two references, outside the type definitions. */
  lemma AcceptedEnds(nss: Namespaces, r: Ref)
    requires Linked(nss) && AllAccepted(nss) && ValidRef(nss, r)
    ensures EndsIn(nss, r, 2) && !IsTypeDef(nss, Terminal(nss, r, 2).0)
  {
    hide Linked;
    assert Expected(nss, r) == Accept;
    if IsAlias(nss, r) {
      var x1 := Target(nss, r);
      assert EndsIn(nss, x1, 1);
      assert Terminal(nss, r, 2).0 == Terminal(nss, x1, 1).0;
    }
  }

  /** No reference leads back to where it started. */
  lemma AcceptedHasNoCycle(nss: Namespaces, r: Ref, n: nat)
    requires Linked(nss) && AllAccepted(nss) && ValidRef(nss, r) && n > 0
    ensures Iter(nss, Some(r), n) != Some(r)
  {
    hide Linked, Expected, Move, Orbits.Iter;
    AcceptedEnds(nss, r);
    EndsIterNone(nss, r, 2);
    if Iter(nss, Some(r), n) == Some(r) {
      IterZero(nss, Some(r));
      Orbits.RoundForEver(Move(nss), Some(r), 0, n, 3);
      assert false;
    }
  }

  /** The test is not complete: wherever a chain passes three type definitions in a row it is
      rejected, whether it ends or not. */
  lemma ThreeInARow(nss: Namespaces, r: Ref)
    requires Linked(nss) && IsAlias(nss, r) && IsAlias(nss, Target(nss, r))
    requires IsTypeDef(nss, Target(nss, Target(nss, r)))
    ensures Expected(nss, r) == Reject && !(ValidRef(nss, r) && AllAccepted(nss))
  {
    hide Linked;
  }

  /** The chain from r, for r a type definition, is no longer than the test can take: it ends
      outside the type definitions, after one reference or after two of which the first has no
      star. */
  ghost predicate Short(nss: Namespaces, r: Ref)
    requires Linked(nss)
  {
    && EndsIn(nss, r, 2) && !IsTypeDef(nss, Terminal(nss, r, 2).0)
    && (EndsIn(nss, r, 1) || !DefAt(nss, r).ty.isDynamic)
  }

  /** A type definition is accepted exactly if its chain is that short; so of the chains that
      end outside the type definitions exactly the longer ones, and those of two references
      that begin with a star, are refused without being cycles. */
  lemma AcceptedIffShort(nss: Namespaces, r: Ref)
    requires Linked(nss) && ValidRef(nss, r) && IsTypeDef(nss, r)
    ensures Expected(nss, r) == Accept <==> Short(nss, r)
  {
    hide Linked;
    if IsAlias(nss, r) {
      var x1 := Target(nss, r);
      assert EndsIn(nss, r, 2) <==> EndsIn(nss, x1, 1);
      assert EndsIn(nss, r, 1) <==> !IsAlias(nss, x1);
      if IsAlias(nss, x1) {
        var x2 := Target(nss, x1);
        assert EndsIn(nss, x1, 1) <==> !IsAlias(nss, x2);
        if !IsAlias(nss, x2) { assert Terminal(nss, r, 2).0 == Terminal(nss, x1, 1).0 == x2; }
      } else {
        assert Terminal(nss, r, 2).0 == x1;
      }
    } else {
      assert Terminal(nss, r, 2).0 == r;
    }
  }

  /** A type definition of a built-in type. */
  predicate IsBuiltin(nss: Namespaces, p: Option<Ref>) {
    p.Some? && IsTypeDef(nss, p.value) && !IsAlias(nss, p.value)
  }

  /** The test goes astray exactly if the first or second definition on the chain is of a built-in
      type, which it takes for a reference. */
  lemma StrayMeans(nss: Namespaces, r: Ref)
    requires Linked(nss)
    ensures Expected(nss, r) == Stray <==> IsBuiltin(nss, Link(nss, r, 0)) || IsBuiltin(nss, Link(nss, r, 1))
  {
    hide Linked;
  }

  // ----------------------------------------------------------- the test repaired

  /** One move of a pointer along type definitions; None is NULL. */
  function Follow(nss: Namespaces, p: Option<Ref>): Option<Ref>
    requires Linked(nss)
  {
    if p.Some? && IsAlias(nss, p.value) && IsTypeDef(nss, Target(nss, p.value))
    then Some(Target(nss, p.value))
    else None
  }

  ghost function Move(nss: Namespaces): Ref -> Option<Ref>
    requires Linked(nss)
  {
    r => Follow(nss, Some(r))
  }

  /** Where n moves lead. */
  ghost function Iter(nss: Namespaces, p: Option<Ref>, n: nat): Option<Ref>
    requires Linked(nss)
  {
    Orbits.Iter(Move(nss), p, n)
  }

  lemma IterZero(nss: Namespaces, p: Option<Ref>)
    requires Linked(nss)
    ensures Iter(nss, p, 0) == p
  {
  }

  lemma IterNext(nss: Namespaces, p: Option<Ref>, n: nat)
    requires Linked(nss)
    ensures Iter(nss, p, n + 1) == Follow(nss, Iter(nss, p, n))
  {
    hide Linked;
  }

  lemma IterFirst(nss: Namespaces, r: Ref, n: nat)
    requires Linked(nss)
    ensures Iter(nss, Some(r), n + 1) == Iter(nss, Follow(nss, Some(r)), n)
  {
    hide Linked;
    Orbits.IterFirst(Move(nss), r, n);
  }

  /** A pointer comes to NULL exactly when the chain ends. */
  lemma {:induction false} EndsIterNone(nss: Namespaces, r: Ref, n: nat)
    requires Linked(nss) && EndsIn(nss, r, n)
    ensures Iter(nss, Some(r), n + 1) == None
    decreases n
  {
    hide Linked, Orbits.Iter;
    var next := Follow(nss, Some(r));
    IterFirst(nss, r, n);
    if next.None? {
      IterZero(nss, next);
      Orbits.NoneStays(Move(nss), next, 0, n);
    } else {
      EndsIterNone(nss, next.value, n - 1);
    }
  }

  lemma {:induction false} IterNoneEnds(nss: Namespaces, r: Ref, n: nat)
    requires Linked(nss) && Iter(nss, Some(r), n) == None
    ensures EndsIn(nss, r, n)
    decreases n
  {
    hide Linked, Orbits.Iter;
    IterZero(nss, Some(r));
    if IsAlias(nss, r) {
      var next := Follow(nss, Some(r));
      assert n > 0;
      IterFirst(nss, r, n - 1);
      if next.Some? {
        IterNoneEnds(nss, next.value, n - 1);
      } else {
        assert EndsIn(nss, Target(nss, r), n - 1);
      }
    }
  }

  lemma MovesStay(nss: Namespaces)
    requires Linked(nss)
    ensures Orbits.Closed(Move(nss), AllDefs(nss))
  {
    hide Linked;
    WalkIsComplete(nss);
  }

  /** A pointer that moves once and one that moves twice are at the same place some day. */
  lemma Meets(nss: Namespaces, r: Ref) returns (b: nat)
    requires Linked(nss) && ValidRef(nss, r)
    ensures b > 0 && Iter(nss, Some(r), b) == Iter(nss, Some(r), 2 * b)
  {
    hide Linked, Orbits.Iter, Orbits.Closed, Move;
    var f, all := Move(nss), AllDefs(nss);
    WalkIsComplete(nss);
    MovesStay(nss);
    if Iter(nss, Some(r), |all|) == None {
      b := |all| + 1;
      Orbits.NoneStays(f, Some(r), |all|, b);
      Orbits.NoneStays(f, Some(r), |all|, 2 * b);
    } else {
      var i, j := Orbits.LongRecurs(f, r, all);
      b := (i + 1) * (j - i);
      Orbits.AtLeast(i + 1, j - i);
      Orbits.Repeats(f, Some(r), i, j - i, b, i + 1);
    }
  }

  /** If they are at the same place, and not at NULL, the chain goes round for ever. */
  lemma MetGoesRound(nss: Namespaces, r: Ref, k: nat)
    requires Linked(nss) && k > 0
    requires Iter(nss, Some(r), k).Some? && Iter(nss, Some(r), k) == Iter(nss, Some(r), 2 * k)
    ensures !Ends(nss, r)
  {
    hide Linked, Orbits.Iter, EndsIn, Move;
    if Ends(nss, r) {
      var n: nat :| EndsIn(nss, r, n);
      EndsIterNone(nss, r, n);
      Orbits.RoundForEver(Move(nss), Some(r), k, 2 * k, n + 1);
      assert false;
    }
  }

  /** The cycle test repaired: the fast pointer moves on from where it is, and only references
      are followed. It then says "cycle" exactly when the chain never ends, so every chain that ends is let through. */
  method RepairedCycleTest(nss: Namespaces, reference: Ref) returns (cycle: bool)
    requires Linked(nss) && IsTypeDef(nss, reference)
    ensures cycle <==> !Ends(nss, reference)
  {
    hide Linked, Iter, Follow, EndsIn;
    var slow, fast := Some(reference), Some(reference);
    ghost var k := 0;
    ghost var b := Meets(nss, reference);
    IterZero(nss, slow);
    while true
      invariant k < b && slow == Iter(nss, Some(reference), k) && fast == Iter(nss, Some(reference), 2 * k)
      decreases b - k
    {
      IterNext(nss, Some(reference), k);
      IterNext(nss, Some(reference), 2 * k);
      IterNext(nss, Some(reference), 2 * k + 1);
      fast := Follow(nss, fast);
      fast := Follow(nss, fast);
      slow := Follow(nss, slow);
      k := k + 1;
      if slow.None? {
        IterNoneEnds(nss, reference, k);
        return false;
      }
      if fast.Some? && fast == slow {
        MetGoesRound(nss, reference, k);
        return true;
      }
    }
  }
}
