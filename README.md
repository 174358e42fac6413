# SharedPtr reference counting in Dafny

This project models `SharedPtr<T>`, a reference-counted shared-ownership
handle. Each handle holds two fields. `ptr` is the managed object, possibly
null. `count` is a reference to a heap-allocated counter shared by every
handle of one ownership chain, possibly null.

The model covers every lifecycle operation:

- construction: default, from a raw object, copy and move;
- copy and move assignment;
- `reset()` and `reset(p)`;
- the destructor, through the private `cleanup()`;
- the two accessors `get()` and `getCount()`.

Each operation is one sequential step.

The model has two layers, both in module `SharedPointer` (`SharedPtr.dfy`).

- **Objects.** Class `Handle` has the two mutable fields `ptr: Option<ObjId>`
  and `count: Counter?`. Class `Counter` has a mutable `value: nat`. Each
  operation of the handle is a constructor or method of `Handle` that follows
  the code statement by statement. It keeps the free store consistent
  (`Heap.Valid()`) and names its effect on the abstract store in its
  `ensures`.
- **Store.** The ghost value `Store` is the free store as the handles see it.
  It holds:
  - the live handles and their fields;
  - the allocated counters and their values;
  - the allocated objects and the counter of each one's chain;
  - the sets of objects and counters deleted so far.

  Each operation is also a function on `Store`. The functions carry no
  contracts of their own; what each one does is stated by lemmas about it:

  - `Constructed`: `ConstructedSpec`, `ConstructedFields`, `ConstructedCounts`, `ConstructedAliases`, `ConstructedOwners`;
  - `CleanedUp`: `CleanedUpKeepsInv`, `CleanedUpValues`, `CleanedUpFrees`;
  - `Detached`: `DetachedKeepsInv`, `DetachedSpec`;
  - `Copied`: `CopiedKeepsInv`, `CopiedAliases`, `CopiedSpec`;
  - `Moved`: `MovedKeepsInv`, `MovedAliases`, `MovedCounts`;
  - `CopyAssigned`: `CopyAssignedKeepsInv`, `CopyAssignedSpec`;
  - `MoveAssigned`: `MoveAssignedKeepsInv`, `MoveAssignedSpec`, `MoveAssignedHandles`, `MoveAssignedFrees`;
  - `Constructed(Detached(…))` (reset): `ResetKeepsInv`, `ResetShares`, `ResetFrees`, `ResetAllocates`.

The global invariant `Inv` states five things:

1. A handle without a counter is empty.
2. A handle with a counter refers to an allocated counter and manages that
   counter's object.
3. Every allocated counter's value is the number of live non-empty handles
   aliasing it.
4. Each allocated object has exactly one chain, and nothing is both allocated
   and deleted.
5. An allocated object's chain counter is at least one, so an object stays
   allocated only while some live handle holds it (`OwnedIsHeld`).

`Heap.Valid()` ties the objects to the store. Every constructor and method of
`Handle` requires it. The ones that change the store re-establish it, and the
two accessors change nothing.

Module `Scenarios` (`Scenarios.dfy`) replays the unit tests of `main.cpp`, plus
four more scenarios: self-assignment, the last owner, `reset()` on a shared
handle, and `reset(p)`. Each scenario returns the values `get()` and
`getCount()` report, and its `ensures` states them.

The source's own quirks are kept:

- The destructor calls `cleanup()` whatever the handle holds, while
  assignment and reset call it only for a non-empty handle. Under the
  invariant an empty handle's counter is zero (`NonEmptyIffShared`), so the
  unconditional call does nothing for it.
- A default-constructed, null-constructed or null-reset handle owns a
  private zero counter. That counter is never deleted: `cleanup()` skips
  zero counters, and assignment and reset skip `cleanup()` for empty
  handles.
- Copying an empty handle shares its zero counter without incrementing it.
- A moved-from handle has no counter at all, so `getCount()` requires
  `count != null`.

## Model

| member | source | states |
|---|---|---|
| SharedPointer.NonEmptyIffShared | SharedPtr.h:130-139 | under the invariant a live handle is non-empty exactly when its counter is allocated and at least one, so cleanup's "count is 0" case is exactly the empty handle |
| SharedPointer.NoDangling | SharedPtr.h:136-139 | no live handle refers to a deleted counter or a deleted object; a non-empty handle's object is allocated |
| SharedPointer.OwnedIsHeld | SharedPtr.h:136-139 | no leak: an allocated object is held by some live handle, because the object is deleted when its counter reaches zero |
| SharedPointer.OneChainPerObject | SharedPtr.h:19-33 | two live non-empty handles share a counter exactly when they manage the same object |
| SharedPointer.ConstructedSpec | SharedPtr.h:17-23 | construction with a fresh counter keeps the invariant; no existing handle refers to the new counter; its only alias is the new handle when the object is non-null, and none otherwise |
| SharedPointer.ConstructedFields | SharedPtr.h:17-23 | after construction every handle agrees with the store, and no existing handle refers to the new counter |
| SharedPointer.ConstructedCounts | SharedPtr.h:17-23 | after construction every allocated counter equals its number of aliases; the new counter's one alias is the new handle for a non-null object |
| SharedPointer.ConstructedOwners | SharedPtr.h:19-23 | after construction nothing is both allocated and deleted, and every allocated object, the new one included, has one chain whose counter is at least one |
| SharedPointer.ConstructedAliases | SharedPtr.h:17-23 | construction adds the new handle to the aliases of the new counter when the object is non-null, and changes no other counter's aliases |
| SharedPointer.LastShareUnshared | SharedPtr.h:136-138 | a handle whose counter is at one is that counter's only alias, and no other handle, empty or not, refers to the counter |
| SharedPointer.CleanedUpKeepsInv | SharedPtr.h:130-141 | cleanup keeps the invariant for the remaining handles |
| SharedPointer.CleanedUpFields | SharedPtr.h:130-141 | after cleanup every remaining handle's fields still refer to allocated counters, even when the counter was deleted |
| SharedPointer.CleanedUpCounts | SharedPtr.h:135-136 | after cleanup every allocated counter still equals its number of aliases |
| SharedPointer.CleanedUpOwners | SharedPtr.h:136-139 | after cleanup nothing is both allocated and deleted, and every remaining object keeps its one chain, whose counter stays at least one |
| SharedPointer.CleanedUpValues | SharedPtr.h:135-136 | cleanup leaves the counters alone for an empty handle and otherwise lowers the handle's counter by exactly one, never below zero |
| SharedPointer.CleanedUpFrees | SharedPtr.h:136-139 | cleanup deletes the object and the counter exactly when the counter drops from one to zero; neither was deleted before, and nothing else is deleted |
| SharedPointer.DetachedKeepsInv | SharedPtr.h:40-42 | the release step of assignment and reset keeps the invariant |
| SharedPointer.DetachedSpec | SharedPtr.h:40-42 | the release step removes the handle, decrements its counter by one only when the handle was non-empty, and deallocates and records as deleted exactly the object and counter of a last share |
| SharedPointer.CopiedKeepsInv | SharedPtr.h:26-33 | copy construction keeps the invariant |
| SharedPointer.CopiedFields | SharedPtr.h:28-29 | after a copy every handle agrees with the store |
| SharedPointer.CopiedCounts | SharedPtr.h:30-32 | after a copy every allocated counter still equals its number of aliases |
| SharedPointer.CopiedAliases | SharedPtr.h:28-32 | a copy adds itself to the aliases of the source's counter exactly when the source is non-empty; every other counter keeps its aliases |
| SharedPointer.CopiedSpec | SharedPtr.h:26-33 | the copy aliases the source's chain; the shared counter rises by one exactly when the source is non-empty, even outside the invariant; nothing is allocated or deleted |
| SharedPointer.MovedKeepsInv | SharedPtr.h:55-61 | move construction keeps the invariant |
| SharedPointer.MovedFields | SharedPtr.h:57-60 | after a move every handle agrees with the store, the emptied source included |
| SharedPointer.MovedCounts | SharedPtr.h:55-61 | after a move every counter keeps its value and still equals its number of aliases |
| SharedPointer.MovedAliases | SharedPtr.h:57-60 | the destination replaces the source among the aliases of the shared counter; every other counter keeps its aliases |
| SharedPointer.CopyAssignedKeepsInv | SharedPtr.h:34-52 | copy assignment keeps the invariant, self-assignment included |
| SharedPointer.CopyAssignedSpec | SharedPtr.h:34-52 | self-assignment changes nothing; otherwise the destination's old counter loses one share only if the destination was non-empty, the destination aliases the source, the source's counter gains one share only if the source is non-empty, and exactly the object and counter of a released last share are deallocated and recorded as deleted |
| SharedPointer.MoveAssignedKeepsInv | SharedPtr.h:62-76 | move assignment keeps the invariant, self-move included |
| SharedPointer.MoveAssignedSpec | SharedPtr.h:62-76 | self-move changes nothing; otherwise the destination's old counter loses one share only if the destination was non-empty, the destination takes the source's fields, the source is left with neither object nor counter, and no counter is incremented |
| SharedPointer.MoveAssignedHandles | SharedPtr.h:70-73 | between two distinct handles, move assignment rewrites exactly their two entries: the destination gets the source's fields and the source is emptied |
| SharedPointer.MoveAssignedFrees | SharedPtr.h:67-69 | between two distinct handles, move assignment deallocates and records as deleted exactly the object and counter of the destination's released last share |
| SharedPointer.ResetKeepsInv | SharedPtr.h:106-127 | reset keeps the invariant and installs a counter that no other handle, empty or not, refers to |
| SharedPointer.ResetShares | SharedPtr.h:106-127 | reset installs a counter at one for a non-null object and at zero otherwise; the old counter loses one share only if the handle was non-empty; every other counter is unchanged |
| SharedPointer.ResetFrees | SharedPtr.h:106-127 | reset deletes exactly what releasing the old chain deletes |
| SharedPointer.ResetAllocates | SharedPtr.h:106-127 | after reset the allocated counters and objects are the old ones minus what the release freed, plus the new counter and, for a non-null object, that object |
| SharedPointer.Handle.Default | SharedPtr.h:17 | an empty handle with a freshly allocated zero counter; the store grows by exactly that handle and counter, and stays consistent |
| SharedPointer.Handle.FromRaw | SharedPtr.h:19-23 | a fresh counter at one for a non-null object and at zero for null; requires the object not to be managed already; the store stays consistent |
| SharedPointer.Handle.Copy | SharedPtr.h:26-33 | the new handle aliases the source's fields, which are unchanged; the counter rises by one exactly when the source is non-empty |
| SharedPointer.Handle.CopyAssign | SharedPtr.h:34-52 | the new store is the copy-assignment function of the old; self-assignment keeps the fields; otherwise the destination takes the source's fields and the source is unchanged |
| SharedPointer.Handle.CopyFrom | SharedPtr.h:44-49 | the adopting half of copy assignment: take the source's fields and increment only for a non-empty source |
| SharedPointer.Handle.Move | SharedPtr.h:55-61 | the new handle takes the source's fields with the counter value unchanged, and the source ends with neither object nor counter |
| SharedPointer.Handle.MoveAssign | SharedPtr.h:62-76 | the new store is the move-assignment function of the old; self-move keeps the fields; otherwise the destination takes the source's fields and the source is emptied |
| SharedPointer.Handle.MoveFrom | SharedPtr.h:70-73 | the adopting half of move assignment: take the source's fields without touching the counter, then empty the source |
| SharedPointer.Handle.GetCount | SharedPtr.h:89-92 | on a consistent store, returns the counter's value, which is the number of live non-empty handles aliasing it; requires a counter, since a moved-from handle has none |
| SharedPointer.Handle.Get | SharedPtr.h:94-97 | on a consistent store, returns the managed object, which is present exactly when the handle's counter is at least one |
| SharedPointer.Handle.Destroy | SharedPtr.h:100-103 | the destructor is cleanup, applied whatever the handle holds |
| SharedPointer.Handle.Reset | SharedPtr.h:106-113 | releases the old chain only when non-empty, lowering the old counter by one exactly then, and ends empty with a fresh zero counter |
| SharedPointer.Handle.ResetTo | SharedPtr.h:116-127 | releases the old chain only when non-empty, then owns a fresh counter at one for a non-null object and at zero for null |
| SharedPointer.Handle.Install | SharedPtr.h:121-126 | the tail of reset: a fresh counter seeded from the new object, added to a consistent store |
| SharedPointer.Handle.Release | SharedPtr.h:40-42 | the guarded cleanup call: the counter drops by one exactly when the handle is non-empty |
| SharedPointer.Handle.Cleanup | SharedPtr.h:130-141 | skips a null or zero counter and otherwise decrements it once; the store deletes the object and counter exactly on the transition to zero |
| Scenarios.DefaultConstructor | main.cpp:11-16 | a default handle reports no object and count 0 |
| Scenarios.ConstructorWithPointer | main.cpp:18-24 | a handle built from an object reports that object and count 1 |
| Scenarios.CopyConstructor | main.cpp:26-33 | a copy reports the same object, and both handles report count 2 |
| Scenarios.CopyAssignment | main.cpp:35-43 | assigning into a default handle shares the object with count 2 on both; the default handle's zero counter stays allocated at zero and is not deleted |
| Scenarios.SelfAssignment | SharedPtr.h:34-36 | self-assignment leaves object and count 1 unchanged |
| Scenarios.MoveConstructor | main.cpp:45-53 | after a move the source reports no object and the destination reports the object with count 1 |
| Scenarios.MoveAssignment | main.cpp:55-64 | after move assignment the source reports no object and the destination reports the object with count 1 |
| Scenarios.Destructor | main.cpp:66-74 | destroying a copy takes the count from 2 back to 1 and deletes no object |
| Scenarios.LastOwner | SharedPtr.h:136-138 | destroying the last owner deletes its object, and only it |
| Scenarios.ResetOneOwner | SharedPtr.h:106-113 | reset on one of two owners leaves the other the sole owner with count 1, and the reset handle reports no object and count 0 |
| Scenarios.ResetToNewObject | SharedPtr.h:116-127 | reset(p) on the sole owner deletes the old object and reports p with count 1 |

## Left out

- Locking: the per-handle `std::mutex`, `std::lock`, `lock_guard` and `adopt_lock`. Every operation is one atomic sequential step, so concurrent use and lock ordering are not modelled.
- `std::atomic` semantics of the counter. It is a plain mutable `nat`.
- Counter width: `unsigned int` wrap-around on increment is not modelled, because the counter is an unbounded `nat`.
- The type parameter `T`, `operator->` and `operator*`. A managed object is an opaque `ObjId`, and dereferencing is not modelled.
- Real `new`/`delete`. Allocating a counter is a fresh `Counter` object. Deleting is recorded in the store's deleted sets, and deleted objects are never reused.
- Allocation failure (`std::bad_alloc`) is not modelled.
- Handle.FromRaw and Handle.ResetTo require that the raw object is not already managed and was not deleted. Building two independent chains from one raw pointer is a double-delete hazard the source does not guard against.
- Object lifetime: a handle's lifetime ends only through `Destroy`. Leaving a C++ scope is written as an explicit call.
- Object identity in the tests: `main.cpp` identifies test objects through their `value` field. The scenarios use that number as the object's identity.
- The coupling between objects and store covers only the live handles and counters. Objects outside any store are unconstrained.
