/** The register of exposed objects.

    Objects are kept alive by shared pointers: the one in the register, pointers held outside
    (by a caller on the stack, or by a pending callback), and pointers that live objects hold to
    one another. An object without any is destroyed, and its own pointers go with it. */
module ObjectRegister {
  import opened Common

  type Handle = nat

  type Ownership = map<Handle, set<Handle>>

  /** What an object holds pointers to */
  function Owned(owns: Ownership, x: Handle): set<Handle> {
    if x in owns then owns[x] else {}
  }

  // ----- what keeps an object alive -----

  ghost predicate OwnedIn(x: Handle, alive: set<Handle>, owns: Ownership) {
    exists y :: y in alive && x in Owned(owns, y)
  }

  ghost predicate Supported(x: Handle, alive: set<Handle>, roots: set<Handle>, owns: Ownership) {
    x in roots || OwnedIn(x, alive, owns)
  }

  ghost predicate SelfSupported(alive: set<Handle>, roots: set<Handle>, owns: Ownership) {
    forall x :: x in alive ==> Supported(x, alive, roots, owns)
  }

  /** No live object has a pointer to a destroyed one. */
  ghost predicate Closed(alive: set<Handle>, owns: Ownership) {
    forall x, y :: x in alive && y in Owned(owns, x) ==> y in alive
  }

  /** The objects that belong to some group which stays alive by itself, given the pointers in
      `roots` */
  ghost function Survivors(alive: set<Handle>, roots: set<Handle>, owns: Ownership): set<Handle> {
    set x | x in alive && InGroup(x, alive, roots, owns)
  }

  ghost predicate InGroup(x: Handle, alive: set<Handle>, roots: set<Handle>, owns: Ownership) {
    exists group: set<Handle> :: x in group && group <= alive && SelfSupported(group, roots, owns)
  }

  /** All of them together are such a group, the largest. */
  lemma SurvivorsAreGreatest(alive: set<Handle>, roots: set<Handle>, owns: Ownership)
    ensures Survivors(alive, roots, owns) <= alive
    ensures SelfSupported(Survivors(alive, roots, owns), roots, owns)
    ensures forall group: set<Handle> | group <= alive && SelfSupported(group, roots, owns) ::
              group <= Survivors(alive, roots, owns)
  {
    var survivors := Survivors(alive, roots, owns);
    forall x | x in survivors
      ensures Supported(x, survivors, roots, owns)
    {
      var group: set<Handle> :| x in group && group <= alive && SelfSupported(group, roots, owns);
      assert Supported(x, group, roots, owns);
      assert forall y :: y in group ==> InGroup(y, alive, roots, owns);
    }
  }

  /** Destroying an object nothing points to changes nothing for the others. */
  lemma RemoveUnsupported(alive: set<Handle>, roots: set<Handle>, owns: Ownership, x: Handle)
    requires x in alive && !Supported(x, alive, roots, owns)
    ensures Survivors(alive - {x}, roots, owns) == Survivors(alive, roots, owns)
  {
    SurvivorsAreGreatest(alive, roots, owns);
    SurvivorsAreGreatest(alive - {x}, roots, owns);
    var survivors := Survivors(alive, roots, owns);
    assert x in survivors ==> Supported(x, survivors, roots, owns);
    assert survivors <= alive - {x};
  }

  lemma AllSurvive(alive: set<Handle>, roots: set<Handle>, owns: Ownership)
    requires SelfSupported(alive, roots, owns)
    ensures Survivors(alive, roots, owns) == alive
  {
    SurvivorsAreGreatest(alive, roots, owns);
  }

  /** What survives with fewer pointers does not depend on first losing what more of them could
      not save. */
  lemma SurvivorsOfSurvivors(alive: set<Handle>, roots: set<Handle>, fewer: set<Handle>, owns: Ownership)
    requires fewer <= roots
    ensures Survivors(Survivors(alive, roots, owns), fewer, owns) == Survivors(alive, fewer, owns)
  {
    var survivors, least := Survivors(alive, roots, owns), Survivors(alive, fewer, owns);
    SurvivorsAreGreatest(alive, roots, owns);
    SurvivorsAreGreatest(alive, fewer, owns);
    SurvivorsAreGreatest(survivors, fewer, owns);
    assert SelfSupported(least, roots, owns) by {
      assert forall x :: x in least ==> Supported(x, least, fewer, owns);
    }
  }

  /** A live object's pointers stay good. */
  lemma SurvivorsAreClosed(alive: set<Handle>, roots: set<Handle>, owns: Ownership)
    requires Closed(alive, owns)
    ensures Closed(Survivors(alive, roots, owns), owns)
  {
    var survivors := Survivors(alive, roots, owns);
    SurvivorsAreGreatest(alive, roots, owns);
    forall x, y | x in survivors && y in Owned(owns, x)
      ensures y in survivors
    {
      var group := survivors + {y};
      forall z | z in group
        ensures Supported(z, group, roots, owns)
      {
        assert z in survivors ==> Supported(z, survivors, roots, owns);
      }
      assert SelfSupported(group, roots, owns);
    }
  }

  // ----- who survives -----

  /** A chain of live objects, each of them pointing to the next */
  ghost predicate Walk(alive: set<Handle>, owns: Ownership, p: seq<Handle>) {
    && p != [] && (forall i :: 0 <= i < |p| ==> p[i] in alive)
    && forall i :: 0 < i < |p| ==> p[i] in Owned(owns, p[i - 1])
  }

  ghost predicate OnCycle(alive: set<Handle>, owns: Ownership, x: Handle) {
    exists p :: Walk(alive, owns, p) && |p| > 1 && p[0] == x && p[|p| - 1] == x
  }

  ghost predicate Anchored(alive: set<Handle>, roots: set<Handle>, owns: Ownership, x: Handle) {
    x in roots || OnCycle(alive, owns, x)
  }

  ghost predicate ReachedFrom(alive: set<Handle>, owns: Ownership, from: Handle, x: Handle) {
    exists p :: Walk(alive, owns, p) && p[0] == from && p[|p| - 1] == x
  }

  ghost predicate Acyclic(alive: set<Handle>, owns: Ownership) {
    forall x :: !OnCycle(alive, owns, x)
  }

  function Elements(p: seq<Handle>): set<Handle> {
    set x | x in p
  }

  lemma {:induction false} DistinctFit(p: seq<Handle>, s: set<Handle>)
    requires NoDuplicates(p) && forall i :: 0 <= i < |p| ==> p[i] in s
    ensures |p| <= |s|
  {
    if p != [] {
      DistinctFit(p[1..], s - {p[0]});
    }
  }

  lemma WalkRepeats(alive: set<Handle>, owns: Ownership, p: seq<Handle>)
    requires Walk(alive, owns, p) && |p| > |alive|
    ensures exists i :: 0 <= i < |p| && OnCycle(alive, owns, p[i])
  {
    if NoDuplicates(p) {
      DistinctFit(p, alive);
    } else {
      var i, j :| 0 <= i < j < |p| && p[i] == p[j];
      var c := p[i..j + 1];
      assert Walk(alive, owns, c) && c[0] == p[i] && c[|c| - 1] == p[i];
      assert OnCycle(alive, owns, p[i]);
    }
  }

  /** From an object of a group, back along the pointers that keep it alive */
  lemma {:induction false} WalkBack(alive: set<Handle>, roots: set<Handle>, owns: Ownership, x: Handle, n: nat)
    returns (p: seq<Handle>)
    requires SelfSupported(alive, roots, owns) && x in alive
    ensures Walk(alive, owns, p) && p[|p| - 1] == x && (p[0] in roots || |p| > n)
  {
    p := [x];
    if n > 0 {
      p := WalkBack(alive, roots, owns, x, n - 1);
      if p[0] !in roots && |p| <= n {
        assert Supported(p[0], alive, roots, owns);
        var y :| y in alive && p[0] in Owned(owns, y);
        p := [y] + p;
      }
    }
  }

  lemma WalkInLarger(group: set<Handle>, alive: set<Handle>, owns: Ownership, x: Handle)
    requires group <= alive && OnCycle(group, owns, x)
    ensures OnCycle(alive, owns, x)
  {
    var p :| Walk(group, owns, p) && |p| > 1 && p[0] == x && p[|p| - 1] == x;
    assert Walk(alive, owns, p);
  }

  lemma CycleSupportsItself(alive: set<Handle>, owns: Ownership, p: seq<Handle>)
    requires Walk(alive, owns, p) && |p| > 1 && p[0] == p[|p| - 1]
    ensures SelfSupported(Elements(p), {}, owns)
  {
    forall x | x in Elements(p)
      ensures OwnedIn(x, Elements(p), owns)
    {
      var i :| 0 <= i < |p| && p[i] == x;
      var j := if i == 0 then |p| - 1 else i;
      assert p[j - 1] in Elements(p) && p[j] in Owned(owns, p[j - 1]);
    }
  }

  lemma AnchorSurvives(alive: set<Handle>, roots: set<Handle>, owns: Ownership, x: Handle)
    requires x in alive && Anchored(alive, roots, owns, x)
    ensures x in Survivors(alive, roots, owns)
  {
    SurvivorsAreGreatest(alive, roots, owns);
    if x in roots {
      assert SelfSupported({x}, roots, owns);
    } else {
      var p :| Walk(alive, owns, p) && |p| > 1 && p[0] == x && p[|p| - 1] == x;
      CycleSupportsItself(alive, owns, p);
      assert SelfSupported(Elements(p), roots, owns) by {
        assert forall y :: y in Elements(p) ==> Supported(y, Elements(p), {}, owns);
      }
      assert x in Elements(p);
    }
  }

  lemma {:induction false} WalkStaysInside(alive: set<Handle>, inside: set<Handle>, owns: Ownership, p: seq<Handle>)
    requires Walk(alive, owns, p) && p[0] in inside && Closed(inside, owns)
    ensures p[|p| - 1] in inside
  {
    if |p| > 1 {
      WalkStaysInside(alive, inside, owns, p[..|p| - 1]);
    }
  }

  /** An object survives exactly if a held object, or one on a cycle of pointers, leads to it. */
  lemma SurvivorsAreReached(alive: set<Handle>, roots: set<Handle>, owns: Ownership, x: Handle)
    requires Closed(alive, owns)
    ensures x in Survivors(alive, roots, owns) <==>
            exists y :: Anchored(alive, roots, owns, y) && ReachedFrom(alive, owns, y, x)
  {
    var survivors := Survivors(alive, roots, owns);
    SurvivorsAreGreatest(alive, roots, owns);
    if x in survivors {
      var p := WalkBack(survivors, roots, owns, x, |survivors|);
      assert Walk(alive, owns, p);
      if p[0] in roots {
        assert Anchored(alive, roots, owns, p[0]) && ReachedFrom(alive, owns, p[0], x);
      } else {
        WalkRepeats(survivors, owns, p);
        var i :| 0 <= i < |p| && OnCycle(survivors, owns, p[i]);
        WalkInLarger(survivors, alive, owns, p[i]);
        assert Walk(alive, owns, p[i..]) && p[i..][|p[i..]| - 1] == x;
        assert Anchored(alive, roots, owns, p[i]) && ReachedFrom(alive, owns, p[i], x);
      }
    }
    if y :| Anchored(alive, roots, owns, y) && ReachedFrom(alive, owns, y, x) {
      var p :| Walk(alive, owns, p) && p[0] == y && p[|p| - 1] == x;
      AnchorSurvives(alive, roots, owns, y);
      SurvivorsAreClosed(alive, roots, owns);
      WalkStaysInside(alive, survivors, owns, p);
    }
  }

  /** Without cycles, these are the objects that can be reached from outside. */
  lemma AcyclicSurvivors(alive: set<Handle>, roots: set<Handle>, owns: Ownership, x: Handle)
    requires Closed(alive, owns) && Acyclic(alive, owns)
    ensures x in Survivors(alive, roots, owns) <==> exists y :: y in roots && ReachedFrom(alive, owns, y, x)
  {
    SurvivorsAreReached(alive, roots, owns, x);
    if y :| Anchored(alive, roots, owns, y) && ReachedFrom(alive, owns, y, x) {
      assert y in roots;
    }
    if y :| y in roots && ReachedFrom(alive, owns, y, x) {
      assert Anchored(alive, roots, owns, y);
    }
  }

  /** Nothing survives exactly if nothing is held and there is no cycle. */
  lemma NoSurvivors(alive: set<Handle>, roots: set<Handle>, owns: Ownership)
    requires Closed(alive, owns) && roots <= alive
    ensures Survivors(alive, roots, owns) == {} <==> roots == {} && Acyclic(alive, owns)
  {
    if roots == {} && Acyclic(alive, owns) {
      forall x
        ensures x !in Survivors(alive, roots, owns)
      {
        AcyclicSurvivors(alive, roots, owns, x);
      }
    } else if x :| x in roots {
      AnchorSurvives(alive, roots, owns, x);
    } else {
      var x :| OnCycle(alive, owns, x);
      var p :| Walk(alive, owns, p) && |p| > 1 && p[0] == x && p[|p| - 1] == x;
      assert p[0] in alive;
      AnchorSurvives(alive, roots, owns, x);
    }
  }

  // ----- the register -----

  datatype Error = InvalidHandle | ObjectStillUsed | WrongObjectType

  datatype ObjectType = Dummy | Context | Logger | Timer | Branch | Configuration | SignalSet

  const SIZE_MAX: nat := 0xFFFF_FFFF_FFFF_FFFF

  /** The register, with the objects and the pointers around it: `alive` and `owns` are the
      objects in existence and their pointers to one another, `types` what they are, and `held` the
      pointers from outside. */
  class ObjectRegister {
    var objects_: set<Handle>
    var alive: set<Handle>
    var owns: Ownership
    var types: map<Handle, ObjectType>
    var held: multiset<Handle>

    function Held(): set<Handle>
      reads this
    {
      set h | h in held
    }

    ghost predicate Valid()
      reads this
    {
      && objects_ <= alive && Held() <= alive && |objects_| < SIZE_MAX
      && Closed(alive, owns) && SelfSupported(alive, objects_ + Held(), owns)
      && alive <= types.Keys
    }

    constructor ()
      ensures Valid() && objects_ == {} && alive == {} && Held() == {}
    {
      objects_, alive, owns, types, held := {}, {}, map[], map[], multiset{};
    }

    /** shared_ptr::unique, for a pointer in the register */
    function Unique(h: Handle): (r: bool)
      reads this
      ensures r <==> !Supported(h, alive, Held(), owns)
    {
      h !in held && forall y :: y in alive ==> h !in Owned(owns, y)
    }

    /** The objects in `lost` have just lost a pointer: those nothing in `refs` or alive points
        to are destroyed, and in turn their pointers. */
    method Collect(lost: set<Handle>, refs: set<Handle>)
      requires forall x :: x in alive - lost ==> Supported(x, alive, refs, owns)
      modifies this`alive
      ensures alive == Survivors(old(alive), refs, owns)
      ensures SelfSupported(alive, refs, owns)
    {
      var work := lost;
      while work != {}
        invariant alive <= old(alive)
        invariant Survivors(alive, refs, owns) == Survivors(old(alive), refs, owns)
        invariant forall x :: x in alive - work ==> Supported(x, alive, refs, owns)
        decreases |alive|, |work|
      {
        var x :| x in work;
        work := work - {x};
        if x in alive && x !in refs && forall y :: y in alive ==> x !in Owned(owns, y) {
          RemoveUnsupported(alive, refs, owns, x);
          ghost var before := alive;
          alive := alive - {x};
          work := work + Owned(owns, x);
          OthersStaySupported(before, refs, owns, x, work);
        }
      }
      AllSurvive(alive, refs, owns);
    }

    static lemma OthersStaySupported(before: set<Handle>, refs: set<Handle>, owns: Ownership,
                                     x: Handle, work: set<Handle>)
      requires Owned(owns, x) <= work
      requires forall z :: z in before - work && z != x ==> Supported(z, before, refs, owns)
      ensures forall z :: z in before - {x} - work ==> Supported(z, before - {x}, refs, owns)
    {
      forall z | z in before - {x} - work
        ensures Supported(z, before - {x}, refs, owns)
      {
        assert Supported(z, before, refs, owns);
        if z !in refs {
          var y :| y in before && z in Owned(owns, y);
          assert y in before - {x};
        }
      }
    }

    /** A new object, with the pointers it is given, and the pointer to it that its creator
        gets */
    method Create(h: Handle, owned: set<Handle>, objectType: ObjectType)
      requires Valid() && h !in alive && owned <= alive
      modifies this
      ensures Valid() && objects_ == old(objects_) && alive == old(alive) + {h}
      ensures Owned(owns, h) == owned && held == old(held)[h := old(held)[h] + 1]
      ensures forall x :: x != h ==> Owned(owns, x) == old(Owned(owns, x))
      ensures types == old(types)[h := objectType]
    {
      ghost var before, was := alive, owns;
      alive, owns, types, held := alive + {h}, owns[h := owned], types[h := objectType], held[h := held[h] + 1];
      forall x | x in alive
        ensures Supported(x, alive, objects_ + Held(), owns)
      {
        if x != h {
          assert Supported(x, before, objects_ + old(Held()), was);
          if OwnedIn(x, before, was) {
            var y :| y in before && x in Owned(was, y);
            assert x in Owned(owns, y);
          }
        }
      }
    }

    /** An object acquires a pointer. */
    method Hold(x: Handle, y: Handle)
      requires Valid() && x in alive && y in alive
      modifies this`owns
      ensures Valid() && owns == old(owns)[x := old(Owned(owns, x)) + {y}]
    {
      ghost var was := owns;
      owns := owns[x := Owned(owns, x) + {y}];
      forall z | z in alive
        ensures Supported(z, alive, objects_ + Held(), owns)
      {
        assert Supported(z, alive, objects_ + Held(), was);
        if OwnedIn(z, alive, was) {
          var o :| o in alive && z in Owned(was, o);
          assert z in Owned(owns, o);
        }
      }
    }

    /** A pointer from outside is given up. */
    method Release(h: Handle)
      requires Valid() && h in held
      modifies this`alive, this`held
      ensures Valid() && held == old(held)[h := old(held)[h] - 1]
      ensures alive == Survivors(old(alive), objects_ + Held(), owns)
    {
      ghost var roots := objects_ + Held();
      held := held[h := held[h] - 1];
      assert forall x :: x != h ==> (x in Held() <==> x in old(Held()));
      forall x | x in alive - {h}
        ensures Supported(x, alive, objects_ + Held(), owns)
      {
        assert Supported(x, alive, roots, owns);
      }
      SurvivorsAreClosed(alive, objects_ + Held(), owns);
      RootsSurvive(alive, objects_ + Held(), owns);
      Collect({h}, objects_ + Held());
    }

    static lemma RootsSurvive(alive: set<Handle>, roots: set<Handle>, owns: Ownership)
      requires roots <= alive
      ensures roots <= Survivors(alive, roots, owns)
    {
      SurvivorsAreGreatest(alive, roots, owns);
      assert SelfSupported(roots, roots, owns);
    }

    method Register(h: Handle)
      requires Valid() && h in held && |objects_| + 1 < SIZE_MAX
      modifies this`objects_
      ensures Valid() && objects_ == old(objects_) + {h}
    {
      ghost var roots := objects_ + Held();
      objects_ := objects_ + {h};
      assert objects_ + Held() == roots;
    }

    /** A caller gets a pointer to a registered object, which is alive then, if it is of the type
        asked for; None asks for any. */
    method Get(h: Handle, wanted: Option<ObjectType>) returns (r: Option<Error>)
      requires Valid()
      modifies this`held
      ensures Valid()
      ensures r == Some(InvalidHandle) <==> h !in objects_
      ensures r == Some(WrongObjectType) <==> h in objects_ && wanted.Some? && types[h] != wanted.value
      ensures r.None? <==> h in objects_ && (wanted.Some? ==> types[h] == wanted.value)
      ensures held == if r.None? then old(held)[h := old(held)[h] + 1] else old(held)
      ensures r.None? ==> h in alive
    {
      if h !in objects_ {
        return Some(InvalidHandle);
      }
      if wanted.Some? && types[h] != wanted.value {
        return Some(WrongObjectType);
      }
      ghost var roots := objects_ + Held();
      held := held[h := held[h] + 1];
      assert objects_ + Held() == roots;
      r := None;
    }

    /** Only what nothing else points to can be destroyed; together with it go the objects that
        only it kept alive, and no others. */
    method Destroy(h: Handle) returns (r: Option<Error>)
      requires Valid()
      modifies this`objects_, this`alive
      ensures Valid()
      ensures r == if h !in old(objects_) then Some(InvalidHandle)
                   else if Supported(h, old(alive), Held(), owns) then Some(ObjectStillUsed)
                   else None
      ensures r.Some? ==> objects_ == old(objects_) && alive == old(alive)
      ensures r.None? ==>
                && objects_ == old(objects_) - {h} && h !in alive
                && alive == Survivors(old(alive), objects_ + Held(), owns)
    {
      if h !in objects_ {
        return Some(InvalidHandle);
      }
      if !Unique(h) {
        return Some(ObjectStillUsed);
      }
      ghost var roots := objects_ + Held();
      objects_ := objects_ - {h};
      ErasedLeavesOthers(alive, objects_, Held(), owns, h);
      SurvivorsAreClosed(alive, objects_ + Held(), owns);
      RootsSurvive(alive, objects_ + Held(), owns);
      RemoveUnsupported(alive, objects_ + Held(), owns, h);
      Collect({h}, objects_ + Held());
      r := None;
    }

    static lemma ErasedLeavesOthers(alive: set<Handle>, objects: set<Handle>, held: set<Handle>,
                                    owns: Ownership, h: Handle)
      requires SelfSupported(alive, objects + {h} + held, owns)
      ensures forall x :: x in alive - {h} ==> Supported(x, alive, objects + held, owns)
    {
      forall x | x in alive - {h}
        ensures Supported(x, alive, objects + held, owns)
      {
        assert Supported(x, alive, objects + {h} + held, owns);
      }
    }

    /** Everything is destroyed except what pointers from outside, or cycles, keep alive; what is
        returned are the objects still in the map when the loop gives up. */
    method DestroyAll() returns (objs: set<Handle>)
      requires Valid()
      modifies this`objects_, this`alive
      ensures Valid() && objects_ == {}
      ensures alive == Survivors(old(alive), Held(), owns)
      ensures objs == old(objects_) * alive
    {
      objs, objects_ := objects_, {};
      var oldSize := SIZE_MAX;
      while |objs| < oldSize
        invariant Progress(objs, old(objects_), old(alive)) && |objs| <= oldSize
        invariant |objs| == oldSize ==> NoneUnique(objs)
        decreases oldSize
      {
        oldSize := |objs|;
        objs := Sweep(objs, old(objects_), old(alive));
      }
      AllSurvive(alive, Held(), owns) by {
        forall x | x in alive
          ensures Supported(x, alive, Held(), owns)
        {
          assert Supported(x, alive, objs + Held(), owns);
        }
      }
      assert {} + Held() == Held();
    }

    /** While DestroyAll is under way: `objs` is what is left in its map. */
    ghost predicate Progress(objs: set<Handle>, objects: set<Handle>, before: set<Handle>)
      reads this
    {
      && objects_ == {} && objects <= before && alive <= before && Held() <= alive && Closed(alive, owns)
      && objs == objects * alive && SelfSupported(alive, objs + Held(), owns)
      && Survivors(alive, Held(), owns) == Survivors(before, Held(), owns)
    }

    ghost predicate NoneUnique(objs: set<Handle>)
      reads this
    {
      forall h :: h in objs ==> Supported(h, alive, Held(), owns)
    }

    /** One pass over the map, in whatever order it lists its objects; an object is erased only
        while nothing else points to it. */
    method Sweep(all: set<Handle>, ghost objects: set<Handle>, ghost before: set<Handle>) returns (objs: set<Handle>)
      requires Progress(all, objects, before)
      modifies this`alive
      ensures Progress(objs, objects, before) && objs <= all
      ensures |objs| <= |all| && (|objs| == |all| ==> NoneUnique(objs))
    {
      objs := all;
      var rest := all;
      while rest != {}
        invariant Progress(objs, objects, before) && rest <= objs <= all && |objs| <= |all|
        invariant |objs| == |all| ==> NoneUnique(objs - rest)
        decreases |rest|
      {
        var it :| it in rest;
        rest := rest - {it};
        if Unique(it) {
          objs := objs - {it};
          Erase(it, objs, objects, before);
        }
      }
    }

    /** An object is erased from the map. */
    method Erase(it: Handle, objs: set<Handle>, ghost objects: set<Handle>, ghost before: set<Handle>)
      requires Progress(objs + {it}, objects, before) && it !in objs && !Supported(it, alive, Held(), owns)
      modifies this`alive
      ensures Progress(objs, objects, before)
    {
      ghost var roots := objs + Held();
      assert it in objs + {it};
      assert objs + {it} + Held() == roots + {it};
      ErasedLeavesOthers(alive, objs, Held(), owns, it);
      SurvivorsAreClosed(alive, roots, owns);
      RootsSurvive(alive, roots, owns);
      RemoveUnsupported(alive, roots, owns, it);
      SurvivorsOfSurvivors(alive, roots, Held(), owns);
      Collect({it}, objs + Held());
    }
  }

  /** The map that DestroyAll empties ends up empty, as the source asserts, exactly if no pointer
      from outside, and no cycle of pointers, leads to a registered object. */
  lemma EmptyExactly(objects: set<Handle>, alive: set<Handle>, held: set<Handle>, owns: Ownership)
    requires Closed(alive, owns) && held + objects <= alive
    ensures objects * Survivors(alive, held, owns) == {} <==>
            forall x, y :: x in objects && Anchored(alive, held, owns, y) ==> !ReachedFrom(alive, owns, y, x)
  {
    hide Survivors, Anchored, ReachedFrom, Closed;
    forall x | x in objects
      ensures x in Survivors(alive, held, owns) <==>
              exists y :: Anchored(alive, held, owns, y) && ReachedFrom(alive, owns, y, x)
    {
      SurvivorsAreReached(alive, held, owns, x);
    }
    var left := objects * Survivors(alive, held, owns);
    assert forall x :: x in left <==> x in objects && x in Survivors(alive, held, owns);
  }

  /** If all objects are registered, that is the case exactly if nothing is held from outside and
      no pointers run in a circle. */
  lemma EmptyIfAllRegistered(objects: set<Handle>, alive: set<Handle>, held: set<Handle>, owns: Ownership)
    requires Closed(alive, owns) && held <= alive <= objects
    ensures objects * Survivors(alive, held, owns) == {} <==> held == {} && Acyclic(alive, owns)
  {
    NoSurvivors(alive, held, owns);
    SurvivorsAreGreatest(alive, held, owns);
    assert objects * Survivors(alive, held, owns) == Survivors(alive, held, owns);
  }
}
