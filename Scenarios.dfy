/** The handle's usage scenarios, each a short program over one free store
    whose results are the values get() and getCount() report. A managed
    object is identified by the number its test object carries. */
module Scenarios {
  import opened SharedPointer

  /** A default-constructed handle is empty and its counter is zero. */
  method DefaultConstructor() returns (p: Option<ObjId>, n: nat)
    ensures p == None && n == 0
  {
    var heap := new Heap();
    var sp := new Handle.Default(heap);
    p := sp.Get(heap);
    n := sp.GetCount(heap);
  }

  /** A handle constructed from an object manages it alone. */
  method ConstructorWithPointer() returns (p: Option<ObjId>, n: nat)
    ensures p == Some(10) && n == 1
  {
    var heap := new Heap();
    var sp := new Handle.FromRaw(Some(10), heap);
    p := sp.Get(heap);
    n := sp.GetCount(heap);
  }

  /** A copy shares the object, and both handles report two owners. */
  method CopyConstructor() returns (p1: Option<ObjId>, p2: Option<ObjId>, n1: nat, n2: nat)
    ensures p1 == p2 == Some(20) && n1 == 2 && n2 == 2
  {
    var heap := new Heap();
    var sp1 := new Handle.FromRaw(Some(20), heap);
    var sp2 := new Handle.Copy(sp1, heap);
    p1 := sp1.Get(heap);
    p2 := sp2.Get(heap);
    n1 := sp1.GetCount(heap);
    n2 := sp2.GetCount(heap);
  }

  /** Copy-assigning into an empty handle shares the object; the empty
      handle's zero counter is left allocated, not freed. */
  method CopyAssignment()
    returns (p1: Option<ObjId>, p2: Option<ObjId>, n1: nat, n2: nat,
             ghost zero: Counter, ghost live: set<Counter>, ghost freed: set<Counter>)
    ensures p1 == p2 == Some(30) && n1 == 2 && n2 == 2
    ensures zero in live && zero !in freed && zero.value == 0
  {
    var heap := new Heap();
    var sp1 := new Handle.FromRaw(Some(30), heap);
    var sp2 := new Handle.Default(heap);
    zero := sp2.count;
    assert sp1.ptr == Some(30) && sp1.count.value == 1;
    sp2.CopyAssign(sp1, heap);
    assert sp2.ptr == Some(30) && sp2.count == sp1.count && sp1.count.value == 2;
    live, freed := heap.store.values.Keys, heap.store.freedCounters;
    p1 := sp1.Get(heap);
    p2 := sp2.Get(heap);
    n1 := sp1.GetCount(heap);
    n2 := sp2.GetCount(heap);
  }

  /** Self-assignment changes neither the fields nor the counter. */
  method SelfAssignment() returns (p: Option<ObjId>, n: nat)
    ensures p == Some(35) && n == 1
  {
    var heap := new Heap();
    var sp := new Handle.FromRaw(Some(35), heap);
    sp.CopyAssign(sp, heap);
    p := sp.Get(heap);
    n := sp.GetCount(heap);
  }

  /** Moving leaves the source empty and the destination the sole owner. */
  method MoveConstructor() returns (p1: Option<ObjId>, p2: Option<ObjId>, n2: nat)
    ensures p1 == None && p2 == Some(40) && n2 == 1
  {
    var heap := new Heap();
    var sp1 := new Handle.FromRaw(Some(40), heap);
    var sp2 := new Handle.Move(sp1, heap);
    p1 := sp1.Get(heap);
    p2 := sp2.Get(heap);
    n2 := sp2.GetCount(heap);
  }

  /** Move-assigning into an empty handle leaves the source empty and the
      destination the sole owner. */
  method MoveAssignment() returns (p1: Option<ObjId>, p2: Option<ObjId>, n2: nat)
    ensures p1 == None && p2 == Some(50) && n2 == 1
  {
    var heap := new Heap();
    var sp1 := new Handle.FromRaw(Some(50), heap);
    var sp2 := new Handle.Default(heap);
    sp2.MoveAssign(sp1, heap);
    p1 := sp1.Get(heap);
    p2 := sp2.Get(heap);
    n2 := sp2.GetCount(heap);
  }

  /** Destroying a copy takes the count from two back to one and does not
      delete the object. */
  method Destructor() returns (during: nat, after: nat, ghost freed: set<ObjId>)
    ensures during == 2 && after == 1 && freed == {}
  {
    var heap := new Heap();
    var sp1 := new Handle.FromRaw(Some(60), heap);
    var sp2 := new Handle.Copy(sp1, heap);
    during := sp1.GetCount(heap);
    sp2.Destroy(heap);
    after := sp1.GetCount(heap);
    freed := heap.store.freedObjs;
  }

  /** Destroying the last owner deletes the object and its counter. */
  method LastOwner() returns (n: nat, ghost freed: set<ObjId>)
    ensures n == 1 && freed == {70}
  {
    var heap := new Heap();
    var sp1 := new Handle.FromRaw(Some(70), heap);
    var sp2 := new Handle.Copy(sp1, heap);
    sp2.Destroy(heap);
    n := sp1.GetCount(heap);
    sp1.Destroy(heap);
    freed := heap.store.freedObjs;
  }

  /** reset() on one of two owners leaves the other the sole owner and gives
      the reset handle a zero counter of its own. */
  method ResetOneOwner() returns (p1: Option<ObjId>, n1: nat, p2: Option<ObjId>, n2: nat)
    ensures p1 == None && n1 == 0 && p2 == Some(80) && n2 == 1
  {
    var heap := new Heap();
    var sp1 := new Handle.FromRaw(Some(80), heap);
    var sp2 := new Handle.Copy(sp1, heap);
    assert sp2.ptr == Some(80) && sp2.count == sp1.count && sp2.count.value == 2;
    sp1.Reset(heap);
    assert sp2.ptr == Some(80) && sp2.count != null && sp2.count.value == 1;
    p1 := sp1.Get(heap);
    n1 := sp1.GetCount(heap);
    p2 := sp2.Get(heap);
    n2 := sp2.GetCount(heap);
  }

  /** reset(p) on the sole owner deletes the old object and manages p alone. */
  method ResetToNewObject() returns (p: Option<ObjId>, n: nat, ghost freed: set<ObjId>)
    ensures p == Some(91) && n == 1 && freed == {90}
  {
    var heap := new Heap();
    var sp := new Handle.FromRaw(Some(90), heap);
    sp.ResetTo(Some(91), heap);
    p := sp.Get(heap);
    n := sp.GetCount(heap);
    freed := heap.store.freedObjs;
  }
}
