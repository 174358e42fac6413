/** A reference-counted shared-ownership handle, modelled as a sequential heap
    state machine: every operation of the handle is one atomic step over the
    handle's two fields and the counter they share.

    The imperative layer (classes Counter, Handle and Heap) follows the
    handle's code statement by statement. The ghost Store value is the
    abstract state of the free store that those objects make up; each
    operation is also a function on Store, and the ownership properties are
    proved about those functions. */
module SharedPointer {

  datatype Option<T> = None | Some(value: T)

  /** Identity of a managed object; the object itself is opaque. */
  type ObjId = nat

  /** The heap-allocated reference counter (control block) of one chain. */
  class Counter {
    var value: nat
    /** The managed object of the chain this counter was allocated for;
        None for the counter of an empty handle. */
    ghost const obj: Option<ObjId>

    constructor (n: nat, ghost obj: Option<ObjId>)
      ensures value == n && this.obj == obj
    {
      value := n;
      this.obj := obj;
    }
  }

  // ---------------------------------------------------------------------
  // The abstract store
  // ---------------------------------------------------------------------

  /** The two fields of a handle. */
  datatype Fields = Fields(ptr: Option<ObjId>, count: Counter?)

  /** The free store as the handles see it. */
  datatype Store = Store(
    handles: map<Handle, Fields>,   // live handles whose share is accounted for
    values: map<Counter, nat>,      // allocated counters and their values
    owner: map<ObjId, Counter>,     // allocated managed objects and the counter of their chain
    freedObjs: set<ObjId>,          // managed objects deleted so far
    freedCounters: set<Counter>)    // counters deleted so far

  /** The live non-empty handles that alias counter c. */
  ghost function Aliases(s: Store, c: Counter): (r: set<Handle>)
  {
    set h | h in s.handles && s.handles[h].ptr.Some? && s.handles[h].count == c
  }

  /** A handle's fields agree with the store: a handle without a counter is
      empty, and a handle with one refers to an allocated counter and
      manages that counter's object. */
  ghost predicate FieldsOk(s: Store, f: Fields)
  {
    if f.count == null then f.ptr.None? else f.count in s.values && f.ptr == f.count.obj
  }

  /** The global invariant of the store. */
  ghost predicate Inv(s: Store)
  {
    // nothing is both allocated and freed
    s.values.Keys !! s.freedCounters && s.owner.Keys !! s.freedObjs &&
    (forall h :: h in s.handles ==> FieldsOk(s, s.handles[h])) &&
    // each allocated counter's value is the number of live non-empty handles aliasing it
    (forall c :: c in s.values ==> s.values[c] == |Aliases(s, c)|) &&
    // an allocated managed object has exactly one chain
    (forall c :: c in s.values && c.obj.Some? ==> c.obj.value in s.owner && s.owner[c.obj.value] == c) &&
    // and stays allocated only while that chain's counter is positive
    (forall o :: o in s.owner ==>
       s.owner[o] in s.values && s.owner[o].obj == Some(o) && s.values[s.owner[o]] >= 1)
  }

  /** p has never been handed to a handle, so constructing a handle from it
      cannot create a second, independent chain for the same object. */
  ghost predicate Unmanaged(s: Store, p: Option<ObjId>)
  {
    p.Some? ==> p.value !in s.owner && p.value !in s.freedObjs
  }

  /** c is a newly allocated counter for object p. */
  ghost predicate FreshCounter(s: Store, c: Counter, p: Option<ObjId>)
  {
    c !in s.values && c !in s.freedCounters && c.obj == p
  }

  /** Handle h holds the last share of its chain. */
  ghost predicate HoldsLastShare(s: Store, h: Handle)
    requires h in s.handles
  {
    var f := s.handles[h];
    f.ptr.Some? && f.count != null && f.count in s.values && s.values[f.count] == 1
  }

  /** What releasing h frees: its object and counter when it held the last share. */
  ghost function FreedBy(s: Store, h: Handle): (r: (set<ObjId>, set<Counter>))
    requires h in s.handles
  {
    if HoldsLastShare(s, h) then ({s.handles[h].ptr.value}, {s.handles[h].count}) else ({}, {})
  }

  // --- the operations on the store -------------------------------------

  /** Construction (default, from a raw object, and the tail of reset): h
      gets object p and the new counter c, at one if p is non-null and at
      zero otherwise. */
  ghost function Constructed(s: Store, h: Handle, p: Option<ObjId>, c: Counter): (r: Store)
  {
    s.(handles := s.handles[h := Fields(p, c)],
       values := s.values[c := if p.Some? then 1 else 0],
       owner := if p.Some? then s.owner[p.value := c] else s.owner)
  }

  /** cleanup(): when h's counter is positive, decrement it, and when that
      reaches zero delete the object and the counter. Either way h's share is
      no longer accounted for. */
  ghost function CleanedUp(s: Store, h: Handle): (r: Store)
    requires h in s.handles
  {
    var f := s.handles[h];
    var s1 := s.(handles := s.handles - {h});
    if f.count != null && f.count in s.values && s.values[f.count] > 0 then
      if s.values[f.count] - 1 == 0 then
        s1.(values := s.values - {f.count},
            freedCounters := s.freedCounters + {f.count},
            owner := if f.ptr.Some? then s.owner - {f.ptr.value} else s.owner,
            freedObjs := if f.ptr.Some? then s.freedObjs + {f.ptr.value} else s.freedObjs)
      else
        s1.(values := s.values[f.count := s.values[f.count] - 1])
    else
      s1
  }

  /** The release step of assignment and reset: cleanup only when h is non-empty. */
  ghost function Detached(s: Store, h: Handle): (r: Store)
    requires h in s.handles
  {
    if s.handles[h].ptr.Some? then CleanedUp(s, h) else s.(handles := s.handles - {h})
  }

  /** Copy into h: alias src's chain, adding a share only when src is non-empty. */
  ghost function Copied(s: Store, h: Handle, src: Handle): (r: Store)
    requires src in s.handles
  {
    var f := s.handles[src];
    s.(handles := s.handles[h := f],
       values := if f.ptr.Some? && f.count != null && f.count in s.values
                 then s.values[f.count := s.values[f.count] + 1] else s.values)
  }

  /** Move into h: take src's fields and share as they are; src is left
      with neither object nor counter. */
  ghost function Moved(s: Store, h: Handle, src: Handle): (r: Store)
    requires src in s.handles
  {
    s.(handles := s.handles[h := s.handles[src]][src := Fields(None, null)])
  }

  /** Copy assignment dst = src. */
  ghost function CopyAssigned(s: Store, dst: Handle, src: Handle): (r: Store)
    requires dst in s.handles && src in s.handles
  {
    if dst == src then s else Copied(Detached(s, dst), dst, src)
  }

  /** Move assignment dst = move(src). */
  ghost function MoveAssigned(s: Store, dst: Handle, src: Handle): (r: Store)
    requires dst in s.handles && src in s.handles
  {
    if dst == src then s else Moved(Detached(s, dst), dst, src)
  }

  // --- what the operations preserve and promise ------------------------

  /** The handle-level invariant: a live handle is non-empty exactly when it
      holds a share of a counter whose value is at least one. */
  lemma NonEmptyIffShared(s: Store, h: Handle)
    requires Inv(s) && h in s.handles
    ensures s.handles[h].ptr.Some? <==>
      s.handles[h].count != null && s.handles[h].count in s.values && s.values[s.handles[h].count] >= 1
  {
    var f := s.handles[h];
    assert FieldsOk(s, f);
    if f.ptr.Some? {
      assert h in Aliases(s, f.count);
    }
  }

  /** No live handle refers to a deleted counter or a deleted object. */
  lemma NoDangling(s: Store, h: Handle)
    requires Inv(s) && h in s.handles
    ensures s.handles[h].count != null ==> s.handles[h].count !in s.freedCounters
    ensures s.handles[h].ptr.Some? ==> s.handles[h].ptr.value in s.owner && s.handles[h].ptr.value !in s.freedObjs
  {
    var f := s.handles[h];
    assert FieldsOk(s, f);
    if f.ptr.Some? {
      assert s.owner[f.count.obj.value] == f.count;
    }
  }

  /** No leak: an allocated managed object is held by some live handle. */
  lemma OwnedIsHeld(s: Store, o: ObjId)
    requires Inv(s) && o in s.owner
    ensures exists h :: h in s.handles && s.handles[h].ptr == Some(o)
  {
    var c := s.owner[o];
    assert |Aliases(s, c)| >= 1;
    var h :| h in Aliases(s, c);
    assert FieldsOk(s, s.handles[h]);
  }

  /** One managed object per chain and one chain per managed object: two
      live non-empty handles alias the same counter exactly when they manage
      the same object. */
  lemma OneChainPerObject(s: Store, h1: Handle, h2: Handle)
    requires Inv(s) && h1 in s.handles && h2 in s.handles
    requires s.handles[h1].ptr.Some? && s.handles[h2].ptr.Some?
    ensures s.handles[h1].count == s.handles[h2].count <==> s.handles[h1].ptr == s.handles[h2].ptr
  {
    var c1, c2 := s.handles[h1].count, s.handles[h2].count;
    assert FieldsOk(s, s.handles[h1]) && FieldsOk(s, s.handles[h2]);
    if s.handles[h1].ptr == s.handles[h2].ptr {
      assert s.owner[c1.obj.value] == c1 && s.owner[c2.obj.value] == c2;
    }
  }

  /** Construction from a fresh counter and an unmanaged object keeps the
      invariant; the new counter is shared with no other handle. */
  lemma ConstructedSpec(s: Store, h: Handle, p: Option<ObjId>, c: Counter)
    requires Inv(s) && h !in s.handles
    requires FreshCounter(s, c, p) && Unmanaged(s, p)
    ensures Inv(Constructed(s, h, p, c))
    ensures forall g :: g in s.handles ==> s.handles[g].count != c
    ensures Aliases(Constructed(s, h, p, c), c) == if p.Some? then {h} else {}
  {
    ConstructedFields(s, h, p, c);
    ConstructedCounts(s, h, p, c);
    ConstructedOwners(s, h, p, c);
  }

  /** After construction every handle agrees with the store, and no handle
      but the new one refers to the new counter. */
  lemma ConstructedFields(s: Store, h: Handle, p: Option<ObjId>, c: Counter)
    requires Inv(s) && h !in s.handles && FreshCounter(s, c, p)
    ensures var r := Constructed(s, h, p, c); forall g :: g in r.handles ==> FieldsOk(r, r.handles[g])
    ensures forall g :: g in s.handles ==> s.handles[g].count != c
  {
    var r := Constructed(s, h, p, c);
    forall g | g in s.handles ensures s.handles[g].count != c {
      assert FieldsOk(s, s.handles[g]);
    }
    forall g | g in r.handles ensures FieldsOk(r, r.handles[g]) {
      if g != h {
        assert FieldsOk(s, s.handles[g]);
      }
    }
  }

  /** After construction every allocated counter still counts its aliases;
      the new counter's only alias is the new handle when p is non-null. */
  lemma ConstructedCounts(s: Store, h: Handle, p: Option<ObjId>, c: Counter)
    requires Inv(s) && h !in s.handles && FreshCounter(s, c, p)
    ensures var r := Constructed(s, h, p, c); forall d :: d in r.values ==> r.values[d] == |Aliases(r, d)|
    ensures Aliases(Constructed(s, h, p, c), c) == if p.Some? then {h} else {}
  {
    var r := Constructed(s, h, p, c);
    forall g | g in s.handles ensures s.handles[g].count != c {
      assert FieldsOk(s, s.handles[g]);
    }
    assert Aliases(s, c) == {};
    ConstructedAliases(s, h, p, c, c);
    forall d | d in r.values ensures r.values[d] == |Aliases(r, d)| {
      ConstructedAliases(s, h, p, c, d);
    }
  }

  /** After construction, a counter's aliases are its old ones, plus the new
      handle when that handle is non-empty and the counter is its new one. */
  lemma ConstructedAliases(s: Store, h: Handle, p: Option<ObjId>, c: Counter, d: Counter)
    requires h !in s.handles
    ensures Aliases(Constructed(s, h, p, c), d) == Aliases(s, d) + if p.Some? && d == c then {h} else {}
  {
    var r := Constructed(s, h, p, c);
    assert forall g :: g in r.handles <==> g in s.handles || g == h;
  }

  /** After construction nothing is both allocated and freed, and every
      allocated object, the new one included, has its one positive chain. */
  lemma ConstructedOwners(s: Store, h: Handle, p: Option<ObjId>, c: Counter)
    requires Inv(s) && h !in s.handles && FreshCounter(s, c, p) && Unmanaged(s, p)
    ensures var r := Constructed(s, h, p, c);
      r.values.Keys !! r.freedCounters && r.owner.Keys !! r.freedObjs &&
      (forall d :: d in r.values && d.obj.Some? ==> d.obj.value in r.owner && r.owner[d.obj.value] == d) &&
      (forall o :: o in r.owner ==>
         r.owner[o] in r.values && r.owner[o].obj == Some(o) && r.values[r.owner[o]] >= 1)
  {
    var r := Constructed(s, h, p, c);
    forall o | o in r.owner
      ensures r.owner[o] in r.values && r.owner[o].obj == Some(o) && r.values[r.owner[o]] >= 1
    {
      if p != Some(o) {
        assert s.owner[o] != c;
      }
    }
  }

  /** A handle holding the last share is the only handle, empty or not,
      that refers to its counter. */
  lemma LastShareUnshared(s: Store, h: Handle)
    requires Inv(s) && h in s.handles && HoldsLastShare(s, h)
    ensures Aliases(s, s.handles[h].count) == {h}
    ensures forall g :: g in s.handles && g != h ==> s.handles[g].count != s.handles[h].count
  {
    var c: Counter := s.handles[h].count;
    assert h in Aliases(s, c);
    assert |Aliases(s, c) - {h}| == 0;
    assert Aliases(s, c) == {h};
    forall g | g in s.handles && s.handles[g].count == c ensures g == h {
      assert FieldsOk(s, s.handles[g]);
      assert g in Aliases(s, c);
    }
  }

  /** cleanup keeps the invariant for the remaining handles. */
  lemma CleanedUpKeepsInv(s: Store, h: Handle)
    requires Inv(s) && h in s.handles
    ensures Inv(CleanedUp(s, h))
  {
    CleanedUpFields(s, h);
    CleanedUpCounts(s, h);
    CleanedUpOwners(s, h);
  }

  /** After cleanup every remaining handle still agrees with the store. */
  lemma CleanedUpFields(s: Store, h: Handle)
    requires Inv(s) && h in s.handles
    ensures var r := CleanedUp(s, h); forall g :: g in r.handles ==> FieldsOk(r, r.handles[g])
  {
    var r := CleanedUp(s, h);
    if HoldsLastShare(s, h) {
      LastShareUnshared(s, h);
    }
    forall g | g in r.handles ensures FieldsOk(r, r.handles[g]) {
      assert FieldsOk(s, s.handles[g]);
    }
  }

  /** After cleanup every allocated counter still counts its aliases. */
  lemma CleanedUpCounts(s: Store, h: Handle)
    requires Inv(s) && h in s.handles
    ensures var r := CleanedUp(s, h); forall d :: d in r.values ==> r.values[d] == |Aliases(r, d)|
  {
    var r := CleanedUp(s, h);
    NonEmptyIffShared(s, h);
    assert FieldsOk(s, s.handles[h]);
    forall d | d in r.values ensures r.values[d] == |Aliases(r, d)| {
      assert Aliases(r, d) == Aliases(s, d) - {h};
    }
  }

  /** After cleanup nothing is both allocated and freed, and every
      remaining object still has its one chain, whose counter is positive. */
  lemma CleanedUpOwners(s: Store, h: Handle)
    requires Inv(s) && h in s.handles
    ensures var r := CleanedUp(s, h);
      r.values.Keys !! r.freedCounters && r.owner.Keys !! r.freedObjs &&
      (forall d :: d in r.values && d.obj.Some? ==> d.obj.value in r.owner && r.owner[d.obj.value] == d) &&
      (forall o :: o in r.owner ==>
         r.owner[o] in r.values && r.owner[o].obj == Some(o) && r.values[r.owner[o]] >= 1)
  {
    var r := CleanedUp(s, h);
    assert FieldsOk(s, s.handles[h]);
    forall d | d in r.values && d.obj.Some?
      ensures d.obj.value in r.owner && r.owner[d.obj.value] == d
    {
      assert s.owner[d.obj.value] == d;
    }
  }

  /** What cleanup does to the counters: it never takes a counter below
      zero and decrements h's counter exactly when h was non-empty. */
  lemma CleanedUpValues(s: Store, h: Handle)
    requires Inv(s) && h in s.handles
    ensures var r := CleanedUp(s, h); var f := s.handles[h];
      r.handles == s.handles - {h} &&
      (f.ptr.None? ==> r.values == s.values) &&
      (forall c :: c in r.values ==>
         c in s.values && r.values[c] + (if f.ptr.Some? && c == f.count then 1 else 0) == s.values[c])
  {
    NonEmptyIffShared(s, h);
    assert FieldsOk(s, s.handles[h]);
  }

  /** What cleanup frees: the object and the counter, neither of them freed
      before, exactly when h's counter drops from one to zero. */
  lemma CleanedUpFrees(s: Store, h: Handle)
    requires Inv(s) && h in s.handles
    ensures var f := s.handles[h];
      FreedBy(s, h).1 != {} <==> f.count != null && f.count in s.values && s.values[f.count] == 1
    ensures var r := CleanedUp(s, h);
      r.values.Keys == s.values.Keys - FreedBy(s, h).1 &&
      r.owner.Keys == s.owner.Keys - FreedBy(s, h).0 &&
      r.freedObjs == s.freedObjs + FreedBy(s, h).0 && FreedBy(s, h).0 !! s.freedObjs &&
      r.freedCounters == s.freedCounters + FreedBy(s, h).1 && FreedBy(s, h).1 !! s.freedCounters
  {
    var f := s.handles[h];
    NonEmptyIffShared(s, h);
    assert FieldsOk(s, f);
    if f.ptr.Some? {
      assert s.owner[f.count.obj.value] == f.count;
    }
  }

  /** The release step keeps the invariant for the remaining handles. */
  lemma DetachedKeepsInv(s: Store, h: Handle)
    requires Inv(s) && h in s.handles
    ensures Inv(Detached(s, h))
  {
    if s.handles[h].ptr.Some? {
      CleanedUpKeepsInv(s, h);
    } else {
      var r := Detached(s, h);
      forall g | g in r.handles ensures FieldsOk(r, r.handles[g]) {
        assert FieldsOk(s, s.handles[g]);
      }
      forall d | d in r.values ensures r.values[d] == |Aliases(r, d)| {
        assert Aliases(r, d) == Aliases(s, d);
      }
    }
  }

  /** The release step releases a share only when h was non-empty, and
      frees exactly what cleanup would. */
  lemma DetachedSpec(s: Store, h: Handle)
    requires Inv(s) && h in s.handles
    ensures var r := Detached(s, h);
      r.handles == s.handles - {h} &&
      (forall c :: c in r.values ==>
         c in s.values && r.values[c] + (if s.handles[h].ptr.Some? && c == s.handles[h].count then 1 else 0) == s.values[c]) &&
      r.values.Keys == s.values.Keys - FreedBy(s, h).1 &&
      r.owner.Keys == s.owner.Keys - FreedBy(s, h).0 &&
      r.freedObjs == s.freedObjs + FreedBy(s, h).0 &&
      r.freedCounters == s.freedCounters + FreedBy(s, h).1
  {
    if s.handles[h].ptr.Some? {
      CleanedUpValues(s, h);
      CleanedUpFrees(s, h);
    }
  }

  /** Copying keeps the invariant. */
  lemma CopiedKeepsInv(s: Store, h: Handle, src: Handle)
    requires Inv(s) && src in s.handles && h !in s.handles
    ensures Inv(Copied(s, h, src))
  {
    CopiedFields(s, h, src);
    CopiedCounts(s, h, src);
  }

  /** After a copy every handle agrees with the store. */
  lemma CopiedFields(s: Store, h: Handle, src: Handle)
    requires Inv(s) && src in s.handles && h !in s.handles
    ensures var r := Copied(s, h, src); forall g :: g in r.handles ==> FieldsOk(r, r.handles[g])
  {
    var r := Copied(s, h, src);
    forall g | g in r.handles ensures FieldsOk(r, r.handles[g]) {
      assert FieldsOk(s, s.handles[if g == h then src else g]);
    }
  }

  /** After a copy every allocated counter still counts its aliases. */
  lemma CopiedCounts(s: Store, h: Handle, src: Handle)
    requires Inv(s) && src in s.handles && h !in s.handles
    ensures var r := Copied(s, h, src); forall d :: d in r.values ==> r.values[d] == |Aliases(r, d)|
  {
    var r := Copied(s, h, src);
    assert FieldsOk(s, s.handles[src]);
    forall d | d in r.values ensures r.values[d] == |Aliases(r, d)| {
      CopiedAliases(s, h, src, d);
    }
  }

  /** After a copy, a counter's aliases are its old ones, plus the copy when
      the copy is non-empty and shares it. */
  lemma CopiedAliases(s: Store, h: Handle, src: Handle, d: Counter)
    requires src in s.handles && h !in s.handles
    ensures var f := s.handles[src];
      Aliases(Copied(s, h, src), d) ==
        if f.ptr.Some? && d == f.count then Aliases(s, d) + {h} else Aliases(s, d)
  {
    var r := Copied(s, h, src);
    var f := s.handles[src];
    assert forall g :: g in r.handles <==> g in s.handles || g == h;
  }

  /** The copy aliases src's chain, and the shared counter rises by one
      exactly when src is non-empty; nothing is allocated or freed. */
  lemma CopiedSpec(s: Store, h: Handle, src: Handle)
    requires src in s.handles
    ensures var r := Copied(s, h, src); var f := s.handles[src];
      r.handles == s.handles[h := f] &&
      r.values.Keys == s.values.Keys &&
      (forall c :: c in r.values ==>
         r.values[c] == s.values[c] + (if f.ptr.Some? && c == f.count then 1 else 0)) &&
      r.owner == s.owner && r.freedObjs == s.freedObjs && r.freedCounters == s.freedCounters
  {
  }

  /** Moving keeps the invariant. */
  lemma MovedKeepsInv(s: Store, h: Handle, src: Handle)
    requires Inv(s) && src in s.handles && h !in s.handles
    ensures Inv(Moved(s, h, src))
  {
    MovedFields(s, h, src);
    MovedCounts(s, h, src);
  }

  /** After a move every handle agrees with the store. */
  lemma MovedFields(s: Store, h: Handle, src: Handle)
    requires Inv(s) && src in s.handles && h !in s.handles
    ensures var r := Moved(s, h, src); forall g :: g in r.handles ==> FieldsOk(r, r.handles[g])
  {
    var r := Moved(s, h, src);
    forall g | g in r.handles ensures FieldsOk(r, r.handles[g]) {
      if g != src {
        assert FieldsOk(s, s.handles[if g == h then src else g]);
      }
    }
  }

  /** After a move every allocated counter still counts its aliases. */
  lemma MovedCounts(s: Store, h: Handle, src: Handle)
    requires Inv(s) && src in s.handles && h !in s.handles
    ensures var r := Moved(s, h, src); forall d :: d in r.values ==> r.values[d] == |Aliases(r, d)|
    ensures Moved(s, h, src).values == s.values
  {
    var r := Moved(s, h, src);
    forall d | d in r.values ensures r.values[d] == |Aliases(r, d)| {
      MovedAliases(s, h, src, d);
    }
  }

  /** After a move, the destination replaces the source among the aliases
      of the counter they share, and every other counter keeps its aliases. */
  lemma MovedAliases(s: Store, h: Handle, src: Handle, d: Counter)
    requires src in s.handles && h !in s.handles
    ensures var f := s.handles[src];
      Aliases(Moved(s, h, src), d) ==
        if f.ptr.Some? && d == f.count then Aliases(s, d) - {src} + {h} else Aliases(s, d)
  {
    var r := Moved(s, h, src);
    assert forall g :: g in r.handles <==> g in s.handles || g == h;
  }

  /** Copy assignment keeps the invariant, self-assignment included. */
  lemma CopyAssignedKeepsInv(s: Store, dst: Handle, src: Handle)
    requires Inv(s) && dst in s.handles && src in s.handles
    ensures Inv(CopyAssigned(s, dst, src))
  {
    if dst != src {
      DetachedKeepsInv(s, dst);
      CopiedKeepsInv(Detached(s, dst), dst, src);
    }
  }

  /** Copy assignment: self-assignment changes nothing; otherwise dst's old
      chain loses a share only if dst was non-empty and is freed exactly when
      dst held its last share, dst then aliases src, and src's chain gains a
      share only if src is non-empty. */
  lemma CopyAssignedSpec(s: Store, dst: Handle, src: Handle)
    requires Inv(s) && dst in s.handles && src in s.handles
    ensures var r := CopyAssigned(s, dst, src); var d := s.handles[dst]; var f := s.handles[src];
      (dst == src ==> r == s) &&
      (dst != src ==>
        r.handles == s.handles[dst := f] &&
        (forall c :: c in r.values ==>
           c in s.values &&
           r.values[c] + (if d.ptr.Some? && c == d.count then 1 else 0)
             == s.values[c] + (if f.ptr.Some? && c == f.count then 1 else 0)) &&
        r.values.Keys == s.values.Keys - FreedBy(s, dst).1 &&
        r.owner.Keys == s.owner.Keys - FreedBy(s, dst).0 &&
        r.freedObjs == s.freedObjs + FreedBy(s, dst).0 &&
        r.freedCounters == s.freedCounters + FreedBy(s, dst).1)
  {
    if dst != src {
      DetachedSpec(s, dst);
      CopiedSpec(Detached(s, dst), dst, src);
    }
  }

  /** Move assignment keeps the invariant, self-move included. */
  lemma MoveAssignedKeepsInv(s: Store, dst: Handle, src: Handle)
    requires Inv(s) && dst in s.handles && src in s.handles
    ensures Inv(MoveAssigned(s, dst, src))
  {
    if dst != src {
      DetachedKeepsInv(s, dst);
      MovedKeepsInv(Detached(s, dst), dst, src);
    }
  }

  /** Move assignment: self-move changes nothing; otherwise dst's old chain
      loses a share only if dst was non-empty, dst takes src's fields with no
      counter change, and src is left with neither object nor counter. */
  lemma MoveAssignedSpec(s: Store, dst: Handle, src: Handle)
    requires Inv(s) && dst in s.handles && src in s.handles
    ensures var r := MoveAssigned(s, dst, src); var d := s.handles[dst];
      (dst == src ==> r == s) &&
      (dst != src ==>
        r.handles == s.handles[dst := s.handles[src]][src := Fields(None, null)] &&
        (forall c :: c in r.values ==>
           c in s.values && r.values[c] + (if d.ptr.Some? && c == d.count then 1 else 0) == s.values[c]))
  {
    if dst != src {
      MoveAssignedHandles(s, dst, src);
      DetachedSpec(s, dst);
    }
  }

  /** Move assignment between two handles rewrites exactly their two entries. */
  lemma MoveAssignedHandles(s: Store, dst: Handle, src: Handle)
    requires dst in s.handles && src in s.handles && dst != src
    ensures MoveAssigned(s, dst, src).handles == s.handles[dst := s.handles[src]][src := Fields(None, null)]
  {
    var t := Detached(s, dst);
    assert t.handles == s.handles - {dst};
  }

  /** What move assignment frees: dst's old object and counter, exactly when
      dst held the last share of its chain. */
  lemma MoveAssignedFrees(s: Store, dst: Handle, src: Handle)
    requires Inv(s) && dst in s.handles && src in s.handles && dst != src
    ensures var r := MoveAssigned(s, dst, src);
      r.values.Keys == s.values.Keys - FreedBy(s, dst).1 &&
      r.owner.Keys == s.owner.Keys - FreedBy(s, dst).0 &&
      r.freedObjs == s.freedObjs + FreedBy(s, dst).0 &&
      r.freedCounters == s.freedCounters + FreedBy(s, dst).1
  {
    DetachedSpec(s, dst);
  }

  /** reset() and reset(p) keep the invariant, and the new counter is
      shared with no other handle. */
  lemma ResetKeepsInv(s: Store, h: Handle, p: Option<ObjId>, c: Counter)
    requires Inv(s) && h in s.handles
    requires FreshCounter(s, c, p) && Unmanaged(s, p)
    ensures Inv(Constructed(Detached(s, h), h, p, c))
    ensures Aliases(Constructed(Detached(s, h), h, p, c), c) == if p.Some? then {h} else {}
    ensures var r := Constructed(Detached(s, h), h, p, c);
      forall g :: g in r.handles && g != h ==> r.handles[g].count != c
  {
    var t := Detached(s, h);
    var r := Constructed(t, h, p, c);
    DetachedKeepsInv(s, h);
    assert FreshCounter(t, c, p) && Unmanaged(t, p) by {
      DetachedSpec(s, h);
    }
    ConstructedSpec(t, h, p, c);
    forall g | g in r.handles && g != h ensures r.handles[g].count != c {
      assert g in t.handles;
    }
  }

  /** reset() and reset(p): h then owns a brand-new counter, at one for a
      non-null p and at zero otherwise, and the old chain loses a share only
      if h was non-empty. */
  lemma ResetShares(s: Store, h: Handle, p: Option<ObjId>, c: Counter)
    requires Inv(s) && h in s.handles
    ensures var r := Constructed(Detached(s, h), h, p, c); var d := s.handles[h];
      r.handles == s.handles[h := Fields(p, c)] &&
      r.values[c] == (if p.Some? then 1 else 0) &&
      (forall e :: e in r.values && e != c ==>
         e in s.values && r.values[e] + (if d.ptr.Some? && e == d.count then 1 else 0) == s.values[e])
  {
    DetachedSpec(s, h);
  }

  /** reset() and reset(p) free exactly what releasing the old chain frees. */
  lemma ResetFrees(s: Store, h: Handle, p: Option<ObjId>, c: Counter)
    requires Inv(s) && h in s.handles
    ensures var r := Constructed(Detached(s, h), h, p, c);
      r.freedObjs == s.freedObjs + FreedBy(s, h).0 &&
      r.freedCounters == s.freedCounters + FreedBy(s, h).1
  {
    DetachedSpec(s, h);
  }

  /** reset() and reset(p) deallocate exactly what releasing the old chain
      frees, and allocate only the new counter and, for a non-null p, p. */
  lemma ResetAllocates(s: Store, h: Handle, p: Option<ObjId>, c: Counter)
    requires Inv(s) && h in s.handles
    ensures var r := Constructed(Detached(s, h), h, p, c);
      r.values.Keys == s.values.Keys - FreedBy(s, h).1 + {c} &&
      r.owner.Keys == s.owner.Keys - FreedBy(s, h).0 + (if p.Some? then {p.value} else {})
  {
    var t := Detached(s, h);
    var r := Constructed(t, h, p, c);
    assert t.values.Keys == s.values.Keys - FreedBy(s, h).1 &&
      t.owner.Keys == s.owner.Keys - FreedBy(s, h).0 by {
      DetachedSpec(s, h);
    }
    assert r.values.Keys == t.values.Keys + {c};
    assert r.owner.Keys == t.owner.Keys + (if p.Some? then {p.value} else {});
  }

  // ---------------------------------------------------------------------
  // The objects
  // ---------------------------------------------------------------------

  /** The free store: its abstract state, tied to the handles and counters
      that are allocated. */
  class Heap {
    ghost var store: Store

    /** Every handle and counter of the store holds the fields and value
        the store records for it, and the store is consistent. */
    ghost predicate Valid()
      reads this, store.handles.Keys, store.values.Keys
    {
      Inv(store) &&
      (forall h :: h in store.handles ==> h.ptr == store.handles[h].ptr && h.count == store.handles[h].count) &&
      (forall c :: c in store.values ==> c.value == store.values[c])
    }

    constructor ()
      ensures Valid() && store == Store(map[], map[], map[], {}, {})
    {
      store := Store(map[], map[], map[], {}, {});
    }
  }

  /** A shared-ownership handle: a possibly-null managed object and a
      possibly-null reference to the counter of its chain. */
  class Handle {
    var ptr: Option<ObjId>
    var count: Counter?

    /** Default construction: an empty handle that owns a fresh zero counter. */
    constructor Default(ghost heap: Heap)
      requires heap.Valid()
      modifies heap
      ensures heap.Valid()
      ensures ptr == None && fresh(count) && count.value == 0
      ensures heap.store == Constructed(old(heap.store), this, None, count)
    {
      ptr := None;
      count := new Counter(0, None);
      new;
      ghost var s := Constructed(heap.store, this, None, count);
      heap.store := s;
      forall h | h in s.handles ensures h.ptr == s.handles[h].ptr && h.count == s.handles[h].count {
        if h != this {
          assert h in old(heap.store.handles) && s.handles[h] == old(heap.store.handles[h]);
        }
      }
      forall c | c in s.values ensures c.value == s.values[c] {
        if c != count {
          assert c in old(heap.store.values) && s.values[c] == old(heap.store.values[c]);
        }
      }
      ConstructedSpec(old(heap.store), this, None, count);
    }

    /** Construction from a raw object: a fresh counter at one, or at zero
        when the object is null. */
    constructor FromRaw(p: Option<ObjId>, ghost heap: Heap)
      requires heap.Valid() && Unmanaged(heap.store, p)
      modifies heap
      ensures heap.Valid()
      ensures ptr == p && fresh(count) && count.value == if p.Some? then 1 else 0
      ensures heap.store == Constructed(old(heap.store), this, p, count)
    {
      var c := new Counter(1, p);
      if p.None? {
        c.value := 0;
      }
      ptr := p;
      count := c;
      new;
      ghost var s := Constructed(heap.store, this, p, count);
      heap.store := s;
      forall h | h in s.handles ensures h.ptr == s.handles[h].ptr && h.count == s.handles[h].count {
        if h != this {
          assert h in old(heap.store.handles) && s.handles[h] == old(heap.store.handles[h]);
        }
      }
      forall c | c in s.values ensures c.value == s.values[c] {
        if c != count {
          assert c in old(heap.store.values) && s.values[c] == old(heap.store.values[c]);
        }
      }
      ConstructedSpec(old(heap.store), this, p, count);
    }

    /** Copy construction: alias the source's chain, adding a share only when
        the source is non-empty. */
    constructor Copy(obj: Handle, ghost heap: Heap)
      requires heap.Valid() && obj in heap.store.handles
      modifies heap, obj.count
      ensures heap.Valid()
      ensures ptr == obj.ptr && count == obj.count
      ensures obj.ptr == old(obj.ptr) && obj.count == old(obj.count)
      ensures count != null ==> count.value == old(obj.count.value) + if ptr.Some? then 1 else 0
      ensures heap.store == Copied(old(heap.store), this, obj)
    {
      ptr := obj.ptr;
      count := obj.count;
      new;
      assert FieldsOk(heap.store, heap.store.handles[obj]);
      ghost var s := Copied(heap.store, this, obj);
      if obj.ptr.Some? {
        count.value := count.value + 1;
      }
      heap.store := s;
      forall h | h in s.handles ensures h.ptr == s.handles[h].ptr && h.count == s.handles[h].count {
        if h == this {
          assert s.handles[h] == old(heap.store.handles[obj]);
        } else {
          assert h in old(heap.store.handles) && s.handles[h] == old(heap.store.handles[h]);
        }
      }
      forall c | c in s.values ensures c.value == s.values[c] {
        assert c in old(heap.store.values);
      }
      CopiedKeepsInv(old(heap.store), this, obj);
    }

    /** Copy assignment. */
    method CopyAssign(obj: Handle, ghost heap: Heap)
      requires heap.Valid() && this in heap.store.handles && obj in heap.store.handles
      modifies this, heap, count, obj.count
      ensures heap.Valid()
      ensures heap.store == CopyAssigned(old(heap.store), this, obj)
      ensures this == obj ==> ptr == old(ptr) && count == old(count)
      ensures this != obj ==> ptr == old(obj.ptr) && count == old(obj.count)
      ensures obj.ptr == old(obj.ptr) && obj.count == old(obj.count)
    {
      if this != obj {
        Release(heap);
        CopyFrom(obj, heap);
      }
    }

    /** The copying half of copy assignment, once this handle's old share
        has been released. */
    method CopyFrom(obj: Handle, ghost heap: Heap)
      requires heap.Valid() && this !in heap.store.handles && obj in heap.store.handles
      modifies this, heap, obj.count
      ensures heap.Valid()
      ensures heap.store == Copied(old(heap.store), this, obj)
      ensures ptr == old(obj.ptr) && count == old(obj.count)
      ensures obj.ptr == old(obj.ptr) && obj.count == old(obj.count)
    {
      assert FieldsOk(heap.store, heap.store.handles[obj]);
      ghost var s := Copied(heap.store, this, obj);
      ptr := obj.ptr;
      count := obj.count;
      if obj.ptr.Some? {
        count.value := count.value + 1;
      }
      heap.store := s;
      forall h | h in s.handles ensures h.ptr == s.handles[h].ptr && h.count == s.handles[h].count {
        if h == this {
          assert s.handles[h] == old(heap.store.handles[obj]);
        } else {
          assert h in old(heap.store.handles) && s.handles[h] == old(heap.store.handles[h]);
        }
      }
      forall c | c in s.values ensures c.value == s.values[c] {
        assert c in old(heap.store.values);
      }
      CopiedKeepsInv(old(heap.store), this, obj);
    }

    /** Move construction: take the source's share without adding one; the
        source is left with neither object nor counter. */
    constructor Move(obj: Handle, ghost heap: Heap)
      requires heap.Valid() && obj in heap.store.handles
      modifies obj, heap
      ensures heap.Valid()
      ensures ptr == old(obj.ptr) && count == old(obj.count)
      ensures count != null ==> count.value == old(obj.count.value)
      ensures obj.ptr == None && obj.count == null
      ensures heap.store == Moved(old(heap.store), this, obj)
    {
      ptr := obj.ptr;
      count := obj.count;
      new;
      ghost var s := Moved(heap.store, this, obj);
      obj.ptr := None;
      obj.count := null;
      heap.store := s;
      forall h | h in s.handles ensures h.ptr == s.handles[h].ptr && h.count == s.handles[h].count {
        if h != this && h != obj {
          assert h in old(heap.store.handles) && s.handles[h] == old(heap.store.handles[h]);
        }
      }
      MovedKeepsInv(old(heap.store), this, obj);
    }

    /** Move assignment. */
    method MoveAssign(obj: Handle, ghost heap: Heap)
      requires heap.Valid() && this in heap.store.handles && obj in heap.store.handles
      modifies this, obj, heap, count
      ensures heap.Valid()
      ensures heap.store == MoveAssigned(old(heap.store), this, obj)
      ensures this == obj ==> ptr == old(ptr) && count == old(count)
      ensures this != obj ==> ptr == old(obj.ptr) && count == old(obj.count)
      ensures this != obj ==> obj.ptr == None && obj.count == null
    {
      if this != obj {
        Release(heap);
        MoveFrom(obj, heap);
      }
    }

    /** The moving half of move assignment, once this handle's old share
        has been released. */
    method MoveFrom(obj: Handle, ghost heap: Heap)
      requires heap.Valid() && this !in heap.store.handles && obj in heap.store.handles
      modifies this, obj, heap
      ensures heap.Valid()
      ensures heap.store == Moved(old(heap.store), this, obj)
      ensures ptr == old(obj.ptr) && count == old(obj.count)
      ensures count != null ==> count.value == old(obj.count.value)
      ensures obj.ptr == None && obj.count == null
    {
      ghost var s := Moved(heap.store, this, obj);
      ptr := obj.ptr;
      count := obj.count;
      obj.ptr := None;
      obj.count := null;
      heap.store := s;
      forall h | h in s.handles ensures h.ptr == s.handles[h].ptr && h.count == s.handles[h].count {
        if h != this && h != obj {
          assert h in old(heap.store.handles) && s.handles[h] == old(heap.store.handles[h]);
        }
      }
      MovedKeepsInv(old(heap.store), this, obj);
    }

    /** getCount: the value of the shared counter, which is the number of live
        non-empty handles of the chain. A moved-from handle has no counter. */
    method GetCount(ghost heap: Heap) returns (n: nat)
      requires heap.Valid() && this in heap.store.handles && count != null
      ensures n == count.value && n == |Aliases(heap.store, count)|
    {
      n := count.value;
    }

    /** get: the managed object, present exactly when the handle holds a share. */
    method Get(ghost heap: Heap) returns (p: Option<ObjId>)
      requires heap.Valid() && this in heap.store.handles
      ensures p == ptr
      ensures p.Some? <==> count != null && count.value >= 1
    {
      p := ptr;
      NonEmptyIffShared(heap.store, this);
    }

    /** Destruction: release this handle's share, whatever its object. */
    method Destroy(ghost heap: Heap)
      requires heap.Valid() && this in heap.store.handles
      modifies heap, count
      ensures heap.Valid()
      ensures heap.store == CleanedUp(old(heap.store), this)
    {
      Cleanup(heap);
    }

    /** reset(): release the old chain if non-empty, then own a brand-new zero counter. */
    method Reset(ghost heap: Heap)
      requires heap.Valid() && this in heap.store.handles
      modifies this, heap, count
      ensures heap.Valid()
      ensures ptr == None && fresh(count) && count.value == 0
      ensures heap.store == Constructed(Detached(old(heap.store), this), this, None, count)
      ensures old(count) != null ==>
        old(count).value + (if old(ptr).Some? then 1 else 0) == old(count.value)
    {
      Release(heap);
      Install(None, heap);
    }

    /** reset(p): release the old chain if non-empty, then own a brand-new
        counter seeded as construction from p would seed it. */
    method ResetTo(p: Option<ObjId>, ghost heap: Heap)
      requires heap.Valid() && this in heap.store.handles && Unmanaged(heap.store, p)
      modifies this, heap, count
      ensures heap.Valid()
      ensures ptr == p && fresh(count) && count.value == if p.Some? then 1 else 0
      ensures heap.store == Constructed(Detached(old(heap.store), this), this, p, count)
      ensures old(count) != null ==>
        old(count).value + (if old(ptr).Some? then 1 else 0) == old(count.value)
    {
      Release(heap);
      Install(p, heap);
    }

    /** The second half of reset() and reset(p), once the old share has been
        released: own p through a brand-new counter, at one for a non-null p
        and at zero otherwise. */
    method Install(p: Option<ObjId>, ghost heap: Heap)
      requires heap.Valid() && this !in heap.store.handles && Unmanaged(heap.store, p)
      modifies this, heap
      ensures heap.Valid()
      ensures ptr == p && fresh(count) && count.value == if p.Some? then 1 else 0
      ensures heap.store == Constructed(old(heap.store), this, p, count)
    {
      ghost var s0 := heap.store;
      var c: Counter;
      if p.Some? {
        c := new Counter(1, p);
      } else {
        c := new Counter(0, None);
      }
      ghost var s := Constructed(s0, this, p, c);
      ptr, count := p, c;
      heap.store := s;
      forall h | h in s.handles ensures h.ptr == s.handles[h].ptr && h.count == s.handles[h].count {
        if h != this {
          assert h in s0.handles && s.handles[h] == s0.handles[h];
        }
      }
      forall d | d in s.values ensures d.value == s.values[d] {
        if d != c {
          assert d in s0.values && s.values[d] == s0.values[d];
        }
      }
      ConstructedSpec(s0, this, p, c);
    }

    /** The release step shared by assignment and reset: the old chain is
        released through cleanup only when this handle is non-empty. */
    method Release(ghost heap: Heap)
      requires heap.Valid() && this in heap.store.handles
      modifies heap, count
      ensures heap.Valid() && heap.store == Detached(old(heap.store), this)
      ensures ptr == old(ptr) && count == old(count)
      ensures count != null ==> count.value + (if ptr.Some? then 1 else 0) == old(count.value)
    {
      DetachedKeepsInv(heap.store, this);
      NonEmptyIffShared(heap.store, this);
      if ptr.Some? {
        Cleanup(heap);
      } else {
        heap.store := heap.store.(handles := heap.store.handles - {this});
      }
    }

    /** cleanup(): skipped when there is no counter or it is already zero;
        otherwise decrement it, and on the transition to zero delete the
        managed object and the counter. */
    method Cleanup(ghost heap: Heap)
      requires heap.Valid() && this in heap.store.handles
      modifies heap, count
      ensures heap.Valid() && heap.store == CleanedUp(old(heap.store), this)
      ensures ptr == old(ptr) && count == old(count)
      ensures count != null ==> count.value == if old(count.value) > 0 then old(count.value) - 1 else 0
    {
      ghost var s := CleanedUp(heap.store, this);
      if count != null {
        if count.value > 0 {
          count.value := count.value - 1;
        }
      }
      heap.store := s;
      forall h | h in s.handles ensures h.ptr == s.handles[h].ptr && h.count == s.handles[h].count {
        assert h in old(heap.store.handles) && s.handles[h] == old(heap.store.handles[h]);
      }
      forall c | c in s.values ensures c.value == s.values[c] {
        assert c in old(heap.store.values);
      }
      CleanedUpKeepsInv(old(heap.store), this);
    }
  }
}
