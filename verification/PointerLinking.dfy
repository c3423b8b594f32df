/** Pointer linking over whole runs: owners, observers, shared owners and shared observers.
    The writer numbers the objects it is shown; the reader creates one object for each id and makes
    every pointer slot of that id point to it, also the observers it met before the owner. */
module PointerLinking {
  import opened Wrappers

  datatype Ownership = Observer | Owner | SharedOwner | SharedObserver {
    predicate Shared() {
      SharedOwner? || SharedObserver?
    }

    predicate Owning() {
      !Observer?
    }
  }

  datatype PLCInfo = PLCInfo(ownershipType: Ownership, isSharedProcessed: bool) {
    /** The assert of the update: only shared ownership may come a second time. */
    predicate Permits(kind: Ownership) {
      kind.Observer? || ownershipType.Observer? || kind.Shared()
    }

    predicate Owned() {
      ownershipType.SharedOwner? || ownershipType.Owner?
    }

    function Update(kind: Ownership): PLCInfo
      requires Permits(kind)
    {
      if kind.Observer? then this
      else if ownershipType.Observer? then PLCInfo(kind, isSharedProcessed)
      else PLCInfo(if kind.SharedOwner? then kind else ownershipType, true)
    }
  }

  // ---- the writer ----

  datatype Entry = Entry(id: nat, info: PLCInfo)

  datatype Registry<T(==)> = Registry(currId: nat, ptrMap: map<T, Entry>) {
    predicate Permits(ptr: T, kind: Ownership) {
      ptr in ptrMap ==> ptrMap[ptr].info.Permits(kind)
    }

    /** Every object has been met through an owner. */
    predicate AllOwned() {
      forall p :: p in ptrMap ==> ptrMap[p].info.Owned()
    }

    function Enter(ptr: T, kind: Ownership): (r: Registry<T>)
      requires Permits(ptr, kind)
      ensures ptr in r.ptrMap
    {
      if ptr in ptrMap then
        var e := ptrMap[ptr];
        Registry(currId, ptrMap[ptr := Entry(e.id, e.info.Update(kind))])
      else Registry(currId + 1, ptrMap[ptr := Entry(currId + 1, PLCInfo(kind, false))])
    }
  }

  class PointerLinkingContextSerialization<T(==)> {
    var currId: nat
    var ptrMap: map<T, Entry>

    function View(): Registry<T>
      reads this
    {
      Registry(currId, ptrMap)
    }

    constructor ()
      ensures View() == Registry(0, map[])
    {
      currId := 0;
      ptrMap := map[];
    }

    method GetInfoByPtr(ptr: T, kind: Ownership) returns (entry: Entry)
      requires View().Permits(ptr, kind)
      modifies this
      ensures View() == old(View()).Enter(ptr, kind) && entry == ptrMap[ptr]
    {
      if ptr !in ptrMap {
        ptrMap := ptrMap[ptr := Entry(currId + 1, PLCInfo(kind, false))];
        currId := currId + 1;
      } else {
        ptrMap := ptrMap[ptr := Entry(ptrMap[ptr].id, ptrMap[ptr].info.Update(kind))];
      }
      entry := ptrMap[ptr];
    }

    method IsPointerSerializationValid() returns (valid: bool)
      ensures valid == View().AllOwned()
    {
      valid := true;
      var rest := ptrMap.Keys;
      while rest != {}
        invariant rest <= ptrMap.Keys && valid == forall p :: p in ptrMap && p !in rest ==> ptrMap[p].info.Owned()
        decreases rest
      {
        var p :| p in rest;
        valid := valid && ptrMap[p].info.Owned();
        rest := rest - {p};
      }
    }
  }

  datatype Ref<T> = Ref(ptr: T, kind: Ownership)

  /** No assert fails on the way. */
  predicate Permitted<T(==)>(refs: seq<Ref<T>>)
    decreases |refs|, 0
  {
    refs == [] ||
    (Permitted(refs[..|refs| - 1]) &&
     After(refs[..|refs| - 1]).Permits(refs[|refs| - 1].ptr, refs[|refs| - 1].kind))
  }

  /** The writer's state after a run of references, shown in the order they are serialised. */
  function After<T(==)>(refs: seq<Ref<T>>): Registry<T>
    requires Permitted(refs)
    decreases |refs|, 1
  {
    if refs == [] then Registry(0, map[])
    else
      var last := refs[|refs| - 1];
      After(refs[..|refs| - 1]).Enter(last.ptr, last.kind)
  }

  /** What the last reference of a run writes after its id: the payload or nothing. */
  predicate WritesPayload<T(==)>(refs: seq<Ref<T>>)
    requires refs != [] && Permitted(refs)
  {
    var last := refs[|refs| - 1];
    last.kind.Owning() && !After(refs).ptrMap[last.ptr].info.isSharedProcessed
  }

  /** The owning references to an object in a run. */
  function Owners<T(==)>(refs: seq<Ref<T>>, ptr: T): nat {
    if refs == [] then 0
    else
      var last := refs[|refs| - 1];
      Owners(refs[..|refs| - 1], ptr) + if last.ptr == ptr && last.kind.Owning() then 1 else 0
  }

  predicate Mentions<T(==)>(refs: seq<Ref<T>>, ptr: T) {
    exists i :: 0 <= i < |refs| && refs[i].ptr == ptr
  }

  lemma {:induction false} NotOwned<T>(refs: seq<Ref<T>>, ptr: T)
    requires !Mentions(refs, ptr)
    ensures Owners(refs, ptr) == 0
    decreases |refs|
  {
    if refs != [] {
      var front := refs[..|refs| - 1];
      assert refs[|refs| - 1].ptr != ptr;
      forall i | 0 <= i < |front| ensures front[i].ptr != ptr {
        assert refs[i].ptr != ptr;
      }
      NotOwned(front, ptr);
    }
  }

  /** The registry tells how often an object has been owned. */
  lemma {:induction false} RegistryCounts<T>(refs: seq<Ref<T>>, ptr: T)
    requires Permitted(refs)
    ensures ptr in After(refs).ptrMap <==> Mentions(refs, ptr)
    ensures ptr in After(refs).ptrMap ==>
              var info := After(refs).ptrMap[ptr].info;
              (info.ownershipType.Observer? <==> Owners(refs, ptr) == 0) &&
              (info.isSharedProcessed <==> Owners(refs, ptr) >= 2)
    decreases |refs|
  {
    if refs != [] {
      var front, last := refs[..|refs| - 1], refs[|refs| - 1];
      RegistryCounts(front, ptr);
      if Mentions(front, ptr) {
        var i :| 0 <= i < |front| && front[i].ptr == ptr;
        assert refs[i].ptr == ptr;
      }
      if Mentions(refs, ptr) && last.ptr != ptr {
        var i :| 0 <= i < |refs| && refs[i].ptr == ptr;
        assert front[i].ptr == ptr;
      }
      if !Mentions(front, ptr) {
        NotOwned(front, ptr);
      }
      assert refs[|refs| - 1].ptr == ptr ==> Mentions(refs, ptr);
    }
  }

  /** A unique owner is the first to own its object; observers may come before it. */
  predicate UniqueOwnersComeFirst<T(==)>(refs: seq<Ref<T>>) {
    forall j :: 0 <= j < |refs| && refs[j].kind.Owner? ==> Owners(refs[..j], refs[j].ptr) == 0
  }

  /** Which runs the asserts let through, from the references alone. */
  lemma {:induction false} PermittedIff<T>(refs: seq<Ref<T>>)
    ensures Permitted(refs) <==> UniqueOwnersComeFirst(refs)
    decreases |refs|
  {
    hide Owners, After;
    if refs != [] {
      var n := |refs| - 1;
      var front, last := refs[..n], refs[n];
      PermittedIff(front);
      forall j | 0 <= j < n ensures front[..j] == refs[..j] && front[j] == refs[j] {}
      if Permitted(front) {
        RegistryCounts(front, last.ptr);
        if !Mentions(front, last.ptr) {
          NotOwned(front, last.ptr);
        }
      }
    }
  }

  predicate HasOwner<T(==)>(refs: seq<Ref<T>>, ptr: T) {
    exists i :: 0 <= i < |refs| && refs[i].ptr == ptr && (refs[i].kind.SharedOwner? || refs[i].kind.Owner?)
  }

  lemma {:induction false} OwnedIff<T>(refs: seq<Ref<T>>, ptr: T)
    requires Permitted(refs)
    ensures ptr in After(refs).ptrMap && After(refs).ptrMap[ptr].info.Owned() <==> HasOwner(refs, ptr)
    decreases |refs|
  {
    if refs != [] {
      var front, last := refs[..|refs| - 1], refs[|refs| - 1];
      OwnedIff(front, ptr);
      assert refs == front + [last];
      if HasOwner(front, ptr) {
        var i :| 0 <= i < |front| && front[i].ptr == ptr && (front[i].kind.SharedOwner? || front[i].kind.Owner?);
        assert refs[i] == front[i];
      }
      assert refs[|refs| - 1] == last;
    }
  }

  /** The writer's own check: it passes exactly when every object referred to has a unique or shared owner. */
  lemma {:induction false} ValidIffAllOwned<T>(refs: seq<Ref<T>>)
    requires Permitted(refs)
    ensures After(refs).AllOwned() <==> forall i :: 0 <= i < |refs| ==> HasOwner(refs, refs[i].ptr)
  {
    hide HasOwner, PLCInfo.Owned, After, Permitted;
    var reg := After(refs);
    if reg.AllOwned() {
      forall i | 0 <= i < |refs| ensures HasOwner(refs, refs[i].ptr) {
        RegistryCounts(refs, refs[i].ptr);
        OwnedIff(refs, refs[i].ptr);
      }
    }
    if forall i :: 0 <= i < |refs| ==> HasOwner(refs, refs[i].ptr) {
      forall p | p in reg.ptrMap ensures reg.ptrMap[p].info.Owned() {
        RegistryCounts(refs, p);
        OwnedIff(refs, p);
      }
    }
  }

  /** A payload is written exactly at the first owning reference to its object. */
  lemma {:induction false} PayloadAtFirstOwner<T>(refs: seq<Ref<T>>)
    requires refs != [] && Permitted(refs)
    ensures var last := refs[|refs| - 1];
            WritesPayload(refs) <==> last.kind.Owning() && Owners(refs[..|refs| - 1], last.ptr) == 0
  {
    RegistryCounts(refs, refs[|refs| - 1].ptr);
    assert refs[|refs| - 1].ptr == refs[|refs| - 1].ptr && Mentions(refs, refs[|refs| - 1].ptr);
  }

  ghost predicate InUse<T>(reg: Registry<T>, id: int) {
    exists p :: p in reg.ptrMap && reg.ptrMap[p].id == id
  }

  /** The ids in use are exactly `1..currId`, one for each object. */
  ghost predicate Dense<T>(reg: Registry<T>) {
    && reg.currId == |reg.ptrMap|
    && (forall p :: p in reg.ptrMap ==> 1 <= reg.ptrMap[p].id <= reg.currId)
    && (forall p, q :: p in reg.ptrMap && q in reg.ptrMap && reg.ptrMap[p].id == reg.ptrMap[q].id ==> p == q)
    && (forall id :: 1 <= id <= reg.currId ==> InUse(reg, id))
  }

  lemma {:induction false} UpdateKeepsDense<T>(reg: Registry<T>, next: Registry<T>, ptr: T)
    requires Dense(reg) && ptr in reg.ptrMap && next.currId == reg.currId && next.ptrMap.Keys == reg.ptrMap.Keys
    requires forall p :: p in reg.ptrMap ==> next.ptrMap[p].id == reg.ptrMap[p].id
    ensures Dense(next)
  {
    assert |next.ptrMap| == |next.ptrMap.Keys| == |reg.ptrMap.Keys| == |reg.ptrMap|;
    forall id | 1 <= id <= next.currId ensures InUse(next, id) {
      assert InUse(reg, id);
      var p :| p in reg.ptrMap && reg.ptrMap[p].id == id;
      assert next.ptrMap[p].id == id;
    }
  }

  lemma {:induction false} InsertKeepsDense<T>(reg: Registry<T>, next: Registry<T>, ptr: T)
    requires Dense(reg) && ptr !in reg.ptrMap && next.currId == reg.currId + 1
    requires next.ptrMap.Keys == reg.ptrMap.Keys + {ptr} && next.ptrMap[ptr].id == reg.currId + 1
    requires forall p :: p in reg.ptrMap ==> next.ptrMap[p].id == reg.ptrMap[p].id
    ensures Dense(next)
  {
    assert |next.ptrMap| == |next.ptrMap.Keys| == |reg.ptrMap.Keys| + 1 && |reg.ptrMap.Keys| == |reg.ptrMap|;
    forall id | 1 <= id <= next.currId ensures InUse(next, id) {
      if id == reg.currId + 1 {
        assert next.ptrMap[ptr].id == id;
      } else {
        assert InUse(reg, id);
        var p :| p in reg.ptrMap && reg.ptrMap[p].id == id;
        assert next.ptrMap[p].id == id;
      }
    }
  }

  lemma {:induction false} EnterKeepsDense<T>(reg: Registry<T>, ptr: T, kind: Ownership)
    requires Dense(reg) && reg.Permits(ptr, kind)
    ensures Dense(reg.Enter(ptr, kind))
    ensures forall p :: p in reg.ptrMap ==>
              p in reg.Enter(ptr, kind).ptrMap && reg.Enter(ptr, kind).ptrMap[p].id == reg.ptrMap[p].id
  {
    if ptr in reg.ptrMap {
      UpdateKeepsDense(reg, reg.Enter(ptr, kind), ptr);
    } else {
      InsertKeepsDense(reg, reg.Enter(ptr, kind), ptr);
    }
  }

  lemma {:induction false} IdsAreDense<T>(refs: seq<Ref<T>>)
    requires Permitted(refs)
    ensures Dense(After(refs))
    decreases |refs|
  {
    if refs != [] {
      var last := refs[|refs| - 1];
      IdsAreDense(refs[..|refs| - 1]);
      EnterKeepsDense(After(refs[..|refs| - 1]), last.ptr, last.kind);
    }
  }

  // ---- the reader ----

  /** What the reader keeps for an id; `T` are created objects, slots are numbered. */
  datatype ReaderInfo<T> = ReaderInfo(info: PLCInfo, ownerPtr: Option<T>, observers: seq<nat>, sharedState: Option<T>)

  function PatchAll<T>(slots: map<nat, T>, observers: seq<nat>, target: T): (patched: map<nat, T>)
    ensures forall s :: s in patched <==> s in slots || s in observers
    ensures forall s :: s in patched ==> patched[s] == if s in observers then target else slots[s]
  {
    if observers == [] then slots
    else
      var last := observers[|observers| - 1];
      PatchAll(slots, observers[..|observers| - 1], target)[last := target]
  }

  /** The reader's tables and the pointer slots it has filled; a slot that is absent is null. */
  datatype Links<T> = Links(idMap: map<nat, ReaderInfo<T>>, slots: map<nat, T>) {
    /** Every id has been met through an owner. */
    predicate AllOwned() {
      forall id :: id in idMap ==> idMap[id].info.Owned()
    }

    predicate Permits(id: nat, kind: Ownership) {
      id in idMap ==> idMap[id].info.Permits(kind)
    }

    function GetInfoById(id: nat, kind: Ownership): (l: Links<T>)
      requires Permits(id, kind)
      ensures id in l.idMap
    {
      if id in idMap then this.(idMap := idMap[id := idMap[id].(info := idMap[id].info.Update(kind))])
      else this.(idMap := idMap[id := ReaderInfo(PLCInfo(kind, false), None, [], None)])
    }

    function SetSlot(slot: nat, target: T): Links<T> {
      this.(slots := slots[slot := target])
    }

    function ShareState(id: nat, target: T): Links<T>
      requires id in idMap
    {
      this.(idMap := idMap[id := idMap[id].(sharedState := Some(target))])
    }

    /** The owner is known: patch the observers that were waiting for it. */
    function ProcessOwner(id: nat, target: T): Links<T>
      requires id in idMap
    {
      Links(idMap[id := idMap[id].(ownerPtr := Some(target), observers := [])],
            PatchAll(slots, idMap[id].observers, target))
    }

    function ProcessObserver(id: nat, slot: nat): Links<T>
      requires id in idMap
    {
      if idMap[id].ownerPtr.Some? then SetSlot(slot, idMap[id].ownerPtr.value)
      else this.(idMap := idMap[id := idMap[id].(observers := idMap[id].observers + [slot])])
    }
  }

  class PointerLinkingContextDeserialization<T> {
    var idMap: map<nat, ReaderInfo<T>>
    /** The pointer slots that lie in deserialised data. */
    var slots: map<nat, T>

    function View(): Links<T>
      reads this
    {
      Links(idMap, slots)
    }

    constructor ()
      ensures View() == Links(map[], map[])
    {
      idMap := map[];
      slots := map[];
    }

    method GetInfoById(id: nat, kind: Ownership) returns (info: ReaderInfo<T>)
      requires View().Permits(id, kind)
      modifies this`idMap
      ensures View() == old(View()).GetInfoById(id, kind) && info == idMap[id]
    {
      if id !in idMap {
        idMap := idMap[id := ReaderInfo(PLCInfo(kind, false), None, [], None)];
      } else {
        idMap := idMap[id := idMap[id].(info := idMap[id].info.Update(kind))];
      }
      info := idMap[id];
    }

    method ShareState(id: nat, target: T)
      requires id in idMap
      modifies this`idMap
      ensures View() == old(View()).ShareState(id, target)
    {
      idMap := idMap[id := idMap[id].(sharedState := Some(target))];
    }

    method ProcessOwner(id: nat, target: T)
      requires id in idMap && !idMap[id].info.ownershipType.Observer?
      modifies this
      ensures View() == old(View()).ProcessOwner(id, target)
    {
      var observers := idMap[id].observers;
      for i := 0 to |observers|
        invariant idMap == old(idMap)
        invariant slots == PatchAll(old(slots), observers[..i], target)
      {
        assert observers[..i + 1][..i] == observers[..i];
        slots := slots[observers[i] := target];
      }
      assert observers[..|observers|] == observers;
      idMap := idMap[id := idMap[id].(ownerPtr := Some(target), observers := [])];
    }

    method ProcessObserver(id: nat, slot: nat)
      requires id in idMap
      modifies this
      ensures View() == old(View()).ProcessObserver(id, slot)
    {
      if idMap[id].ownerPtr.Some? {
        slots := slots[slot := idMap[id].ownerPtr.value];
      } else {
        idMap := idMap[id := idMap[id].(observers := idMap[id].observers + [slot])];
      }
    }

    method IsPointerDeserializationValid() returns (valid: bool)
      ensures valid == View().AllOwned()
    {
      valid := true;
      var rest := idMap.Keys;
      while rest != {}
        invariant rest <= idMap.Keys && valid == forall id :: id in idMap && id !in rest ==> idMap[id].info.Owned()
        decreases rest
      {
        var id :| id in rest;
        valid := valid && idMap[id].info.Owned();
        rest := rest - {id};
      }
    }
  }

  // ---- whole runs of the reader ----

  /** A reference the reader meets: `made` is the object it would create.  `Close` ends the payload that
      followed an owning reference, whose slot is `slot`. */
  datatype Event<T> =
    | Open(id: nat, kind: Ownership, slot: nat, made: T)
    | Close(id: nat, slot: nat)

  /** The reader with its history: the object created for each id, the id of each slot, and the ids whose
      payload is being read. */
  datatype Session<T> = Session(links: Links<T>, created: map<nat, T>, slotIds: map<nat, nat>, reading: set<nat>) {
    predicate ReadsPayload(id: nat, kind: Ownership) {
      kind.Owner? || (kind.Shared() && (id in links.idMap ==> links.idMap[id].sharedState.None?))
    }

    /** Created by a unique owner: there is an object but no shared state. */
    predicate UniquelyOwned(id: nat) {
      id in created && id in links.idMap && links.idMap[id].sharedState.None?
    }

    /** The reference that makes the reader read a payload nobody wrote. */
    predicate Parts(id: nat, kind: Ownership) {
      kind.Shared() && UniquelyOwned(id)
    }

    /** No assert fails and a new slot is filled; only a payload that is being read can end, in its own slot. */
    predicate Accepts(e: Event<T>) {
      match e
      case Open(id, kind, slot, _) =>
        links.Permits(id, kind) && slot !in slotIds
      case Close(id, slot) =>
        id in reading && id in links.idMap && slot in links.slots && slot in slotIds && slotIds[slot] == id
    }

    function Step(e: Event<T>): Session<T>
      requires Accepts(e)
    {
      match e
      case Open(id, kind, slot, made) =>
        var entered := links.GetInfoById(id, kind);
        var next :=
          if kind.Observer? then entered.ProcessObserver(id, slot)
          else if kind.Owner? then entered.SetSlot(slot, made)
          else if entered.idMap[id].sharedState.None? then entered.ShareState(id, made).SetSlot(slot, made)
          else
            var shared := entered.idMap[id].sharedState.value;
            entered.SetSlot(slot, shared).ProcessOwner(id, shared);
        Session(next,
                if ReadsPayload(id, kind) then created[id := made] else created,
                slotIds[slot := id],
                if ReadsPayload(id, kind) then reading + {id} else reading)
      case Close(id, slot) =>
        Session(links.ProcessOwner(id, links.slots[slot]), created, slotIds, reading - {id})
    }

    ghost predicate InfoInvariant(id: nat, i: ReaderInfo<T>) {
      && (i.info.ownershipType.Observer? <==> id !in created)
      && (i.ownerPtr.Some? ==> id in created && i.ownerPtr.value == created[id] && i.observers == [])
      && (i.sharedState.Some? ==> id in created && i.sharedState.value == created[id])
      && (id in created && id !in reading ==> i.ownerPtr.Some?)
      && (forall s :: s in i.observers ==> s in slotIds && slotIds[s] == id)
    }

    /** What every step keeps. */
    ghost predicate Invariant() {
      && created.Keys <= links.idMap.Keys
      && (forall s :: s in slotIds ==> slotIds[s] in links.idMap)
      && (forall s :: s in links.slots ==> s in slotIds && slotIds[s] in created && links.slots[s] == created[slotIds[s]])
      && (forall s :: s in slotIds && s !in links.slots ==> s in links.idMap[slotIds[s]].observers)
      && forall id :: id in links.idMap ==> InfoInvariant(id, links.idMap[id])
    }
  }

  /** Under the invariant a permitted owner reference is the first one to own its object. */
  lemma {:induction false} OwnerComesFirst<T>(s: Session<T>, id: nat)
    requires s.Invariant() && s.links.Permits(id, Owner)
    ensures id !in s.created
  {
    if id in s.links.idMap {
      assert s.InfoInvariant(id, s.links.idMap[id]);
    }
  }

  lemma {:induction false} LinkedObserver<T>(s: Session<T>, e: Event<T>)
    requires s.Invariant() && e.Open? && s.Accepts(e) && e.kind.Observer?
    requires e.id in s.links.idMap && s.links.idMap[e.id].ownerPtr.Some?
    ensures s.Step(e).Invariant()
  {
    var t := s.Step(e);
    assert t.links.idMap == s.links.idMap[e.id := s.links.idMap[e.id]];
    forall id | id in t.links.idMap ensures t.InfoInvariant(id, t.links.idMap[id]) {
      assert s.InfoInvariant(id, s.links.idMap[id]);
    }
  }

  /** `t` is `s` with one more observer waiting for `id`. */
  ghost predicate Waits<T>(s: Session<T>, t: Session<T>, id: nat, slot: nat, was: ReaderInfo<T>) {
    && slot !in s.slotIds && was.ownerPtr.None?
    && (if id in s.links.idMap then was == s.links.idMap[id]
        else was.info.ownershipType.Observer? && was.sharedState.None? && was.observers == [])
    && t == Session(Links(s.links.idMap[id := was.(observers := was.observers + [slot])], s.links.slots),
                    s.created, s.slotIds[slot := id], s.reading)
  }

  lemma {:induction false} WaitKeepsInfo<T>(s: Session<T>, t: Session<T>, id: nat, slot: nat, was: ReaderInfo<T>, other: nat)
    requires s.Invariant() && Waits(s, t, id, slot, was) && other in t.links.idMap
    ensures t.InfoInvariant(other, t.links.idMap[other])
  {
    if other in s.links.idMap { assert s.InfoInvariant(other, s.links.idMap[other]); }
  }

  lemma {:induction false} WaitKeepsInvariant<T>(s: Session<T>, t: Session<T>, id: nat, slot: nat, was: ReaderInfo<T>)
    requires s.Invariant() && Waits(s, t, id, slot, was)
    ensures t.Invariant()
  {
    hide Session.InfoInvariant;
    forall other | other in t.links.idMap ensures t.InfoInvariant(other, t.links.idMap[other]) {
      WaitKeepsInfo(s, t, id, slot, was, other);
    }
    assert t.links.idMap[id].observers[|was.observers|] == slot;
  }

  lemma {:induction false} WaitingObserver<T>(s: Session<T>, e: Event<T>)
    requires s.Invariant() && e.Open? && s.Accepts(e) && e.kind.Observer?
    requires e.id in s.links.idMap ==> s.links.idMap[e.id].ownerPtr.None?
    ensures s.Step(e).Invariant()
  {
    var was := if e.id in s.links.idMap then s.links.idMap[e.id] else ReaderInfo(PLCInfo(e.kind, false), None, [], None);
    var entered := s.links.GetInfoById(e.id, e.kind);
    assert entered.idMap == s.links.idMap[e.id := was];
    var waiting := was.(observers := was.observers + [e.slot]);
    assert entered.ProcessObserver(e.id, e.slot).idMap == s.links.idMap[e.id := waiting];
    WaitKeepsInvariant(s, s.Step(e), e.id, e.slot, was);
  }

  lemma {:induction false} ObserverKeepsInvariant<T>(s: Session<T>, e: Event<T>)
    requires s.Invariant() && e.Open? && s.Accepts(e) && e.kind.Observer?
    ensures s.Step(e).Invariant()
  {
    if e.id in s.links.idMap { assert s.InfoInvariant(e.id, s.links.idMap[e.id]); }
    if e.id in s.links.idMap && s.links.idMap[e.id].ownerPtr.Some? {
      LinkedObserver(s, e);
    } else {
      WaitingObserver(s, e);
    }
  }

  lemma {:induction false} FirstOwnerKeepsInvariant<T>(s: Session<T>, e: Event<T>)
    requires s.Invariant() && e.Open? && s.Accepts(e) && s.ReadsPayload(e.id, e.kind) && !s.Parts(e.id, e.kind)
    ensures s.Step(e).Invariant()
  {
    var t := s.Step(e);
    if e.kind.Owner? { OwnerComesFirst(s, e.id); }
    if e.id in s.links.idMap { assert s.InfoInvariant(e.id, s.links.idMap[e.id]); }
    assert e.id !in s.created;
    assert t.InfoInvariant(e.id, t.links.idMap[e.id]);
    forall id | id in t.links.idMap ensures t.InfoInvariant(id, t.links.idMap[id]) {
      if id != e.id { assert s.InfoInvariant(id, s.links.idMap[id]); }
    }
  }

  lemma {:induction false} LaterOwnerKeepsInvariant<T>(s: Session<T>, e: Event<T>)
    requires s.Invariant() && e.Open? && s.Accepts(e) && e.kind.Shared() && !s.ReadsPayload(e.id, e.kind)
    ensures s.Step(e).Invariant()
  {
    var t := s.Step(e);
    assert s.InfoInvariant(e.id, s.links.idMap[e.id]);
    assert t.InfoInvariant(e.id, t.links.idMap[e.id]);
    forall id | id in t.links.idMap ensures t.InfoInvariant(id, t.links.idMap[id]) {
      if id != e.id { assert s.InfoInvariant(id, s.links.idMap[id]); }
    }
  }

  lemma {:induction false} OpenKeepsInvariant<T>(s: Session<T>, e: Event<T>)
    requires s.Invariant() && e.Open? && s.Accepts(e) && !s.Parts(e.id, e.kind)
    ensures s.Step(e).Invariant()
  {
    if e.kind.Observer? {
      ObserverKeepsInvariant(s, e);
    } else if e.kind.Owner? || s.ReadsPayload(e.id, e.kind) {
      FirstOwnerKeepsInvariant(s, e);
    } else {
      LaterOwnerKeepsInvariant(s, e);
    }
  }

  lemma {:induction false} CloseKeepsInvariant<T>(s: Session<T>, e: Event<T>)
    requires s.Invariant() && e.Close? && s.Accepts(e)
    ensures s.Step(e).Invariant()
  {
    var Close(id, slot) := e;
    assert s.InfoInvariant(id, s.links.idMap[id]);
    var t := s.Step(e);
    forall other | other in t.links.idMap ensures t.InfoInvariant(other, t.links.idMap[other]) {
      assert s.InfoInvariant(other, s.links.idMap[other]);
    }
  }

  function Fresh<T>(): Session<T> {
    Session(Links(map[], map[]), map[], map[], {})
  }

  predicate Acceptable<T>(s: Session<T>, events: seq<Event<T>>)
    decreases |events|
  {
    events == [] || (s.Accepts(events[0]) && Acceptable(s.Step(events[0]), events[1..]))
  }

  function RunFrom<T>(s: Session<T>, events: seq<Event<T>>): Session<T>
    requires Acceptable(s, events)
    decreases |events|
  {
    if events == [] then s else RunFrom(s.Step(events[0]), events[1..])
  }

  // ---- writer and reader in step ----

  /** An object with a unique owner among the references. */
  predicate HasUnique<T(==)>(refs: seq<Ref<T>>, ptr: T) {
    exists i :: 0 <= i < |refs| && refs[i] == Ref(ptr, Owner)
  }

  /** A shared reference follows a unique owner of the same object.  The asserts let it through. */
  predicate SharedAfterUnique<T(==)>(refs: seq<Ref<T>>) {
    exists j :: 0 <= j < |refs| && refs[j].kind.Shared() && HasUnique(refs[..j], refs[j].ptr)
  }

  lemma {:induction false} UniqueAppend<T>(refs: seq<Ref<T>>, ref: Ref<T>, ptr: T)
    ensures HasUnique(refs + [ref], ptr) <==> HasUnique(refs, ptr) || ref == Ref(ptr, Owner)
  {
    var more := refs + [ref];
    if i :| 0 <= i < |refs| && refs[i] == Ref(ptr, Owner) {
      assert more[i] == Ref(ptr, Owner);
    }
    assert more[|refs|] == ref;
  }

  lemma {:induction false} SharedAfterAppend<T>(refs: seq<Ref<T>>, ref: Ref<T>)
    ensures SharedAfterUnique(refs + [ref]) <==> SharedAfterUnique(refs) || (ref.kind.Shared() && HasUnique(refs, ref.ptr))
  {
    hide HasUnique;
    var more := refs + [ref];
    assert more[..|refs|] == refs && more[|refs|] == ref;
    forall j | 0 <= j < |refs| ensures more[..j] == refs[..j] && more[j] == refs[j] {}
  }

  lemma {:induction false} SharedAfterPrefix<T>(refs: seq<Ref<T>>, rest: seq<Ref<T>>)
    requires SharedAfterUnique(refs)
    ensures SharedAfterUnique(refs + rest)
  {
    hide HasUnique;
    var j :| 0 <= j < |refs| && refs[j].kind.Shared() && HasUnique(refs[..j], refs[j].ptr);
    assert (refs + rest)[..j] == refs[..j] && (refs + rest)[j] == refs[j];
  }

  lemma {:induction false} PermittedPrefix<T>(refs: seq<Ref<T>>, rest: seq<Ref<T>>)
    requires Permitted(refs + rest)
    ensures Permitted(refs)
    decreases |rest|
  {
    if rest == [] {
      assert refs + rest == refs;
    } else {
      var n := |rest| - 1;
      assert (refs + rest)[..|refs + rest| - 1] == refs + rest[..n];
      PermittedPrefix(refs, rest[..n]);
    }
  }

  ghost predicate SameOwnership<T>(links: Links<T>, reg: Registry<nat>) {
    && links.idMap.Keys == reg.ptrMap.Keys
    && (forall id :: id in links.idMap ==> links.idMap[id].info == reg.ptrMap[id].info)
  }

  /** The reader state agrees with the references the writer has serialised, objects being named by ids. */
  ghost predicate SameHistory<T>(s: Session<T>, refs: seq<Ref<nat>>)
    requires Permitted(refs)
  {
    && SameOwnership(s.links, After(refs))
    && (forall id :: id in s.created <==> Owners(refs, id) > 0)
    && (forall id :: s.UniquelyOwned(id) <==> HasUnique(refs, id))
  }

  /** The reader lets a reference through exactly when the writer does, and reads a payload exactly when the
      writer wrote one - if and only if it is no shared reference to an object that had a unique owner. */
  lemma {:induction false} InStepIff<T>(s: Session<T>, refs: seq<Ref<nat>>, id: nat, kind: Ownership)
    requires s.Invariant() && Permitted(refs) && SameHistory(s, refs)
    ensures s.links.Permits(id, kind) <==> Permitted(refs + [Ref(id, kind)])
    ensures Permitted(refs + [Ref(id, kind)]) ==>
              (s.ReadsPayload(id, kind) == WritesPayload(refs + [Ref(id, kind)]) <==> !(kind.Shared() && HasUnique(refs, id)))
  {
    var more := refs + [Ref(id, kind)];
    assert more[..|more| - 1] == refs && more[|more| - 1] == Ref(id, kind);
    if Permitted(more) {
      PayloadAtFirstOwner(more);
      assert s.UniquelyOwned(id) <==> HasUnique(refs, id);
      hide HasUnique, After, Owners, Permitted, WritesPayload;
      if id in s.links.idMap {
        assert s.InfoInvariant(id, s.links.idMap[id]);
      }
    }
  }

  /** Same ids with the same ownership. */
  ghost predicate SameInfos<T>(a: Links<T>, b: Links<T>) {
    && a.idMap.Keys == b.idMap.Keys
    && (forall id :: id in a.idMap ==> a.idMap[id].info == b.idMap[id].info)
  }

  lemma {:induction false} StepKeepsInfos<T>(s: Session<T>, e: Event<T>)
    requires e.Open? && s.Accepts(e)
    ensures SameInfos(s.Step(e).links, s.links.GetInfoById(e.id, e.kind))
    ensures s.Step(e).created.Keys == s.created.Keys + if s.ReadsPayload(e.id, e.kind) then {e.id} else {}
  {
    var entered := s.links.GetInfoById(e.id, e.kind);
    if e.kind.Observer? {
      assert SameInfos(entered.ProcessObserver(e.id, e.slot), entered);
    } else if e.kind.Owner? {
      assert s.Step(e).links == entered.SetSlot(e.slot, e.made);
    } else if entered.idMap[e.id].sharedState.None? {
      assert s.Step(e).links == entered.ShareState(e.id, e.made).SetSlot(e.slot, e.made);
    } else {
      var shared := entered.idMap[e.id].sharedState.value;
      assert s.Step(e).links == entered.SetSlot(e.slot, shared).ProcessOwner(e.id, shared);
    }
  }

  lemma {:induction false} EnterRecordsOwnership<T>(links: Links<T>, reg: Registry<nat>, id: nat, kind: Ownership)
    requires SameOwnership(links, reg) && links.Permits(id, kind)
    ensures reg.Permits(id, kind) && SameOwnership(links.GetInfoById(id, kind), reg.Enter(id, kind))
  {
    assert id in links.idMap <==> id in reg.ptrMap;
    var a, b := links.GetInfoById(id, kind), reg.Enter(id, kind);
    assert a.idMap.Keys == links.idMap.Keys + {id} && b.ptrMap.Keys == reg.ptrMap.Keys + {id};
  }

  /** Reader and writer record ownership in the same way. */
  lemma {:induction false} StepRecordsOwnership<T>(s: Session<T>, e: Event<T>, reg: Registry<nat>)
    requires e.Open? && s.Accepts(e) && SameOwnership(s.links, reg)
    ensures reg.Permits(e.id, e.kind) && SameOwnership(s.Step(e).links, reg.Enter(e.id, e.kind))
    ensures s.Step(e).created.Keys == s.created.Keys + if s.ReadsPayload(e.id, e.kind) then {e.id} else {}
  {
    StepKeepsInfos(s, e);
    EnterRecordsOwnership(s.links, reg, e.id, e.kind);
    hide Session.Step, Session.ReadsPayload, Session.Accepts, Links.GetInfoById, Registry.Enter;
    assert s.Step(e).links.idMap.Keys == reg.Enter(e.id, e.kind).ptrMap.Keys;
  }

  /** Whose object was created by a unique owner, after a step in step. */
  lemma {:induction false} StepTellsUnique<T>(s: Session<T>, e: Event<T>, id: nat)
    requires s.Invariant() && e.Open? && s.Accepts(e) && !s.Parts(e.id, e.kind)
    ensures s.Step(e).UniquelyOwned(id) <==> s.UniquelyOwned(id) || (e.id == id && e.kind.Owner?)
  {
    if e.kind.Owner? { OwnerComesFirst(s, e.id); }
    if e.id in s.links.idMap { assert s.InfoInvariant(e.id, s.links.idMap[e.id]); }
  }

  lemma {:induction false} OwnersAppend<T>(refs: seq<Ref<T>>, ref: Ref<T>, ptr: T)
    ensures Owners(refs + [ref], ptr) == Owners(refs, ptr) + if ref.ptr == ptr && ref.kind.Owning() then 1 else 0
  {
    assert (refs + [ref])[..|refs|] == refs;
  }

  /** An accepted reference that does not part them keeps both sides in step. */
  lemma {:induction false} AcceptedKeepsStep<T>(s: Session<T>, refs: seq<Ref<nat>>, e: Event<T>)
    requires s.Invariant() && Permitted(refs) && SameHistory(s, refs) && e.Open? && s.Accepts(e) && !s.Parts(e.id, e.kind)
    ensures var more := refs + [Ref(e.id, e.kind)];
            Permitted(more) && SameHistory(s.Step(e), more) && s.ReadsPayload(e.id, e.kind) == WritesPayload(more)
  {
    InStepIff(s, refs, e.id, e.kind);
    var more := refs + [Ref(e.id, e.kind)];
    assert more[..|more| - 1] == refs && more[|more| - 1] == Ref(e.id, e.kind);
    PayloadAtFirstOwner(more);
    StepRecordsOwnership(s, e, After(refs));
    assert After(more) == After(refs).Enter(e.id, e.kind);
    hide Session.Step, Session.Invariant, Session.ReadsPayload, Session.UniquelyOwned, Session.Parts;
    hide WritesPayload, After, Permitted, Owners, HasUnique;
    forall id ensures id in s.Step(e).created <==> Owners(more, id) > 0 {
      OwnersAppend(refs, Ref(e.id, e.kind), id);
    }
    forall id ensures s.Step(e).UniquelyOwned(id) <==> HasUnique(more, id) {
      StepTellsUnique(s, e, id);
      UniqueAppend(refs, Ref(e.id, e.kind), id);
    }
  }

  /** The references among the events of a run. */
  function Refs<T>(events: seq<Event<T>>): seq<Ref<nat>> {
    if events == [] then []
    else (if events[0].Open? then [Ref(events[0].id, events[0].kind)] else []) + Refs(events[1..])
  }

  /** Along a run, no assert fails and the reader reads a payload after exactly those ids after which the
      writer wrote one. */
  ghost predicate InStepThroughout<T>(s: Session<T>, refs: seq<Ref<nat>>, events: seq<Event<T>>)
    requires Permitted(refs)
    decreases |events|
  {
    events == [] ||
    (s.Accepts(events[0]) &&
     match events[0]
     case Open(id, kind, _, _) =>
       var more := refs + [Ref(id, kind)];
       Permitted(more) && s.ReadsPayload(id, kind) == WritesPayload(more) &&
       InStepThroughout(s.Step(events[0]), more, events[1..])
     case Close(_, _) => InStepThroughout(s.Step(events[0]), refs, events[1..]))
  }

  lemma {:induction false} CloseKeepsHistory<T>(s: Session<T>, refs: seq<Ref<nat>>, e: Event<T>)
    requires Permitted(refs) && SameHistory(s, refs) && e.Close? && s.Accepts(e)
    ensures SameHistory(s.Step(e), refs)
  {
    hide After, Owners, Permitted, HasUnique;
    assert s.Step(e).links.idMap.Keys == s.links.idMap.Keys;
    forall id ensures s.Step(e).UniquelyOwned(id) == s.UniquelyOwned(id) {}
  }

  /** The references with those an event adds. */
  function AddRef<T>(refs: seq<Ref<nat>>, e: Event<T>): seq<Ref<nat>> {
    if e.Open? then refs + [Ref(e.id, e.kind)] else refs
  }

  lemma {:induction false} PartsIff<T>(s: Session<T>, refs: seq<Ref<nat>>, id: nat, kind: Ownership)
    requires Permitted(refs) && SameHistory(s, refs)
    ensures s.Parts(id, kind) <==> kind.Shared() && HasUnique(refs, id)
  {
  }

  /** One event in step keeps the invariant and the history. */
  lemma {:induction false} EventInStep<T>(s: Session<T>, refs: seq<Ref<nat>>, events: seq<Event<T>>)
    requires s.Invariant() && Permitted(refs) && SameHistory(s, refs) && events != [] && InStepThroughout(s, refs, events)
    ensures var t, more := s.Step(events[0]), AddRef(refs, events[0]);
            t.Invariant() && Permitted(more) && SameHistory(t, more) && InStepThroughout(t, more, events[1..])
  {
    hide Session.Invariant, SameHistory, Permitted, WritesPayload, Session.ReadsPayload, Session.Step, HasUnique;
    hide Session.UniquelyOwned;
    var e := events[0];
    if e.Open? {
      InStepIff(s, refs, e.id, e.kind);
      PartsIff(s, refs, e.id, e.kind);
      OpenKeepsInvariant(s, e);
      AcceptedKeepsStep(s, refs, e);
    } else {
      CloseKeepsInvariant(s, e);
      CloseKeepsHistory(s, refs, e);
    }
  }

  lemma {:induction false} RefsStep<T>(refs: seq<Ref<nat>>, events: seq<Event<T>>)
    requires events != []
    ensures refs + Refs(events) == AddRef(refs, events[0]) + Refs(events[1..])
  {
  }

  /** A run in step keeps the invariant and the history to its end. */
  lemma {:induction false} RunKeepsInvariant<T>(s: Session<T>, refs: seq<Ref<nat>>, events: seq<Event<T>>)
    requires s.Invariant() && Permitted(refs) && SameHistory(s, refs) && InStepThroughout(s, refs, events)
    ensures Acceptable(s, events) && RunFrom(s, events).Invariant()
    ensures Permitted(refs + Refs(events)) && SameHistory(RunFrom(s, events), refs + Refs(events))
    decreases |events|
  {
    hide Session.Invariant, SameHistory, Permitted, Session.Step, Session.ReadsPayload, WritesPayload, Session.Accepts;
    if events == [] {
      assert refs + Refs(events) == refs;
    } else {
      EventInStep(s, refs, events);
      RefsStep(refs, events);
      RunKeepsInvariant(s.Step(events[0]), AddRef(refs, events[0]), events[1..]);
    }
  }

  lemma {:induction false} NothingRead<T>()
    ensures Fresh<T>().Invariant() && Permitted<nat>([]) && SameHistory(Fresh<T>(), [])
  {
  }

  // ---- which runs stay in step ----

  /** How payloads nest, told from the references alone: the slots used, the ids owned so far, and the ids whose
      first owning reference is still open, with its slot. */
  datatype Brackets = Brackets(slots: set<nat>, owned: set<nat>, open: map<nat, nat>) {
    predicate Fits<T>(e: Event<T>) {
      match e
      case Open(_, _, slot, _) => slot !in slots
      case Close(id, slot) => id in open && open[id] == slot
    }

    function Next<T>(e: Event<T>): Brackets {
      match e
      case Open(id, kind, slot, _) =>
        Brackets(slots + {slot},
                 if kind.Owning() then owned + {id} else owned,
                 if kind.Owning() && id !in owned then open[id := slot] else open)
      case Close(id, _) => Brackets(slots, owned, open - {id})
    }
  }

  const NO_BRACKETS := Brackets({}, {}, map[])

  /** Every reference has its own slot and every payload ends once, in the slot it was opened for. */
  predicate Bracketed<T>(b: Brackets, events: seq<Event<T>>)
    decreases |events|
  {
    events == [] || (b.Fits(events[0]) && Bracketed(b.Next(events[0]), events[1..]))
  }

  function AfterBrackets<T>(b: Brackets, events: seq<Event<T>>): Brackets
    decreases |events|
  {
    if events == [] then b else AfterBrackets(b.Next(events[0]), events[1..])
  }

  /** The reader's state is what the brackets say. */
  ghost predicate Tracks<T>(b: Brackets, s: Session<T>) {
    && s.slotIds.Keys == b.slots && s.created.Keys == b.owned && s.reading == b.open.Keys <= b.owned
    && forall id :: id in b.open ==> b.open[id] in s.links.slots && b.open[id] in s.slotIds && s.slotIds[b.open[id]] == id
  }

  lemma {:induction false} FittingIsAccepted<T>(b: Brackets, s: Session<T>, e: Event<T>)
    requires s.Invariant() && Tracks(b, s) && b.Fits(e)
    requires e.Open? ==> s.links.Permits(e.id, e.kind)
    ensures s.Accepts(e)
  {
    hide Session.InfoInvariant;
  }

  /** Unless it parts them, a payload is read exactly by the first owning reference. */
  lemma {:induction false} ReadsAtFirstOwner<T>(s: Session<T>, e: Event<T>)
    requires s.Invariant() && e.Open? && s.Accepts(e) && !s.Parts(e.id, e.kind)
    ensures s.ReadsPayload(e.id, e.kind) <==> e.kind.Owning() && e.id !in s.created
  {
    if e.kind.Owner? { OwnerComesFirst(s, e.id); }
    if e.id in s.links.idMap { assert s.InfoInvariant(e.id, s.links.idMap[e.id]); }
  }

  /** What opening does to slots and objects: no slot is emptied, and one that gets a payload is filled. */
  ghost predicate Opened<T>(s: Session<T>, e: Event<T>, t: Session<T>, payload: bool)
    requires e.Open?
  {
    && t.slotIds == s.slotIds[e.slot := e.id] && s.links.slots.Keys <= t.links.slots.Keys
    && (if payload then t.created.Keys == s.created.Keys + {e.id} && t.reading == s.reading + {e.id} && e.slot in t.links.slots
        else t.created == s.created && t.reading == s.reading)
  }

  lemma {:induction false} StepOpens<T>(s: Session<T>, e: Event<T>)
    requires e.Open? && s.Accepts(e)
    ensures Opened(s, e, s.Step(e), s.ReadsPayload(e.id, e.kind))
  {
  }

  lemma {:induction false} OpenTracks<T>(b: Brackets, s: Session<T>, e: Event<T>)
    requires Tracks(b, s) && e.Open? && b.Fits(e) && s.Accepts(e)
    requires s.ReadsPayload(e.id, e.kind) <==> e.kind.Owning() && e.id !in s.created
    ensures Tracks(b.Next(e), s.Step(e))
  {
    hide Session.Step, Session.ReadsPayload, Session.Accepts;
    StepOpens(s, e);
    var c := b.Next(e);
    if e.kind.Owning() && e.id !in b.owned {
      assert c.open == b.open[e.id := e.slot];
    }
  }

  lemma {:induction false} CloseTracks<T>(b: Brackets, s: Session<T>, e: Event<T>)
    requires Tracks(b, s) && e.Close? && b.Fits(e) && s.Accepts(e)
    ensures Tracks(b.Next(e), s.Step(e))
  {
    assert b.Next(e).open.Keys == b.open.Keys - {e.id};
    assert s.links.slots.Keys <= s.Step(e).links.slots.Keys;
  }

  lemma {:induction false} StepTracks<T>(b: Brackets, s: Session<T>, e: Event<T>)
    requires s.Invariant() && Tracks(b, s) && b.Fits(e) && s.Accepts(e)
    requires e.Open? ==> !s.Parts(e.id, e.kind)
    ensures Tracks(b.Next(e), s.Step(e))
  {
    if e.Open? {
      ReadsAtFirstOwner(s, e);
      OpenTracks(b, s, e);
    } else {
      CloseTracks(b, s, e);
    }
  }

  lemma NoRefs<T>()
    ensures Refs<T>([]) == []
  {
  }

  lemma {:induction false} FittingKeepsStep<T>(s: Session<T>, refs: seq<Ref<nat>>, e: Event<T>)
    requires s.Invariant() && Permitted(refs) && SameHistory(s, refs) && s.Accepts(e)
    requires e.Open? ==> !s.Parts(e.id, e.kind)
    ensures var more := AddRef(refs, e);
            Permitted(more) && s.Step(e).Invariant() && SameHistory(s.Step(e), more) &&
            (e.Open? ==> s.ReadsPayload(e.id, e.kind) == WritesPayload(more))
  {
    hide Session.Invariant, SameHistory, Permitted, WritesPayload, Session.ReadsPayload, Session.Step, Session.Parts;
    if e.Open? {
      OpenKeepsInvariant(s, e);
      AcceptedKeepsStep(s, refs, e);
    } else {
      CloseKeepsInvariant(s, e);
      CloseKeepsHistory(s, refs, e);
    }
  }

  /** Writer and reader stay in step over a run of permitted references, however their payloads nest, if and only
      if no shared reference follows a unique owner of the same object. */
  lemma {:induction false} RunInStepIff<T>(b: Brackets, s: Session<T>, refs: seq<Ref<nat>>, events: seq<Event<T>>)
    requires s.Invariant() && Permitted(refs) && SameHistory(s, refs) && Tracks(b, s) && Bracketed(b, events)
    requires Permitted(refs + Refs(events)) && !SharedAfterUnique(refs)
    ensures InStepThroughout(s, refs, events) <==> !SharedAfterUnique(refs + Refs(events))
    ensures InStepThroughout(s, refs, events) ==> Acceptable(s, events)
    decreases |events|
  {
    hide Session.Invariant, SameHistory, Permitted, Session.Step, Session.ReadsPayload, WritesPayload;
    hide Session.Accepts, Session.Parts;
    hide SharedAfterUnique, HasUnique, Tracks, Brackets.Fits, Brackets.Next, Refs;
    if events == [] {
      assert refs + Refs(events) == refs by { NoRefs<T>(); }
      return;
    }
    var e, more := events[0], AddRef(refs, events[0]);
    RefsStep(refs, events);
    PermittedPrefix(more, Refs(events[1..]));
    if e.Open? {
      InStepIff(s, refs, e.id, e.kind);
      PartsIff(s, refs, e.id, e.kind);
      SharedAfterAppend(refs, Ref(e.id, e.kind));
    }
    FittingIsAccepted(b, s, e);
    if e.Open? && s.Parts(e.id, e.kind) {
      SharedAfterPrefix(more, Refs(events[1..]));
    } else {
      FittingKeepsStep(s, refs, e);
      StepTracks(b, s, e);
      RunInStepIff(b.Next(e), s.Step(e), more, events[1..]);
    }
    if InStepThroughout(s, refs, events) {
      RunKeepsInvariant(s, refs, events);
    }
  }

  // ---- what the slots hold in the end ----

  /** The object made for an id: by its first owning reference. */
  function Maker<T>(events: seq<Event<T>>, id: nat): Option<T> {
    if events == [] then None
    else if events[0].Open? && events[0].id == id && events[0].kind.Owning() then Some(events[0].made)
    else Maker(events[1..], id)
  }

  /** Every slot of the run holds the object made for its id. */
  ghost predicate AllLinked<T>(events: seq<Event<T>>, slots: map<nat, T>) {
    forall n :: 0 <= n < |events| && events[n].Open? ==>
      events[n].slot in slots && Maker(events, events[n].id) == Some(slots[events[n].slot])
  }

  lemma {:induction false} SlotIdsStep<T>(b: Brackets, s: Session<T>, e: Event<T>)
    requires s.slotIds.Keys == b.slots && b.Fits(e) && s.Accepts(e)
    ensures var t := s.Step(e);
            t.slotIds.Keys == b.Next(e).slots &&
            (forall slot :: slot in s.slotIds ==> slot in t.slotIds && t.slotIds[slot] == s.slotIds[slot]) &&
            (e.Open? ==> e.slot in t.slotIds && t.slotIds[e.slot] == e.id)
  {
  }

  lemma {:induction false} SlotsKeepTheirIds<T>(b: Brackets, s: Session<T>, events: seq<Event<T>>)
    requires s.slotIds.Keys == b.slots && Bracketed(b, events) && Acceptable(s, events)
    ensures var t := RunFrom(s, events);
            (forall slot :: slot in s.slotIds ==> slot in t.slotIds && t.slotIds[slot] == s.slotIds[slot]) &&
            (forall n :: 0 <= n < |events| && events[n].Open? ==>
               events[n].slot in t.slotIds && t.slotIds[events[n].slot] == events[n].id)
    decreases |events|
  {
    if events != [] {
      SlotIdsStep(b, s, events[0]);
      hide Session.Step, Session.Accepts, Brackets.Next, Brackets.Fits;
      SlotsKeepTheirIds(b.Next(events[0]), s.Step(events[0]), events[1..]);
      forall n | 0 < n < |events| ensures events[n] == events[1..][n - 1] {}
    }
  }

  lemma {:induction false} StepMakes<T>(s: Session<T>, e: Event<T>)
    requires s.Invariant() && s.Accepts(e) && (e.Open? ==> !s.Parts(e.id, e.kind))
    ensures s.Step(e).created ==
            if e.Open? && e.kind.Owning() && e.id !in s.created then s.created[e.id := e.made] else s.created
  {
    if e.Open? {
      ReadsAtFirstOwner(s, e);
    }
  }

  /** Objects are made once, by the first owning references. */
  lemma {:induction false} ObjectsAreMadeOnce<T>(b: Brackets, s: Session<T>, refs: seq<Ref<nat>>, events: seq<Event<T>>)
    requires s.Invariant() && Permitted(refs) && SameHistory(s, refs) && Tracks(b, s) && Bracketed(b, events)
    requires InStepThroughout(s, refs, events) && Acceptable(s, events)
    ensures forall id :: id in RunFrom(s, events).created ==>
              (if id in s.created then RunFrom(s, events).created[id] == s.created[id]
               else Maker(events, id) == Some(RunFrom(s, events).created[id]))
    decreases |events|
  {
    hide Session.Invariant, SameHistory, Permitted, Session.ReadsPayload, WritesPayload, Session.Step, Session.Accepts;
    hide Session.Parts, Tracks, HasUnique, Brackets.Next, Brackets.Fits;
    if events != [] {
      var e, more := events[0], AddRef(refs, events[0]);
      EventInStep(s, refs, events);
      if e.Open? {
        InStepIff(s, refs, e.id, e.kind);
        PartsIff(s, refs, e.id, e.kind);
      }
      StepTracks(b, s, e);
      StepMakes(s, e);
      ObjectsAreMadeOnce(b.Next(e), s.Step(e), more, events[1..]);
    }
  }

  lemma {:induction false} SlotIsLinked<T>(t: Session<T>, slot: nat)
    requires t.Invariant() && t.reading == {} && slot in t.slotIds
    requires t.slotIds[slot] in t.links.idMap ==> !t.links.idMap[t.slotIds[slot]].info.ownershipType.Observer?
    ensures slot in t.links.slots && t.slotIds[slot] in t.created && t.links.slots[slot] == t.created[t.slotIds[slot]]
  {
    var id := t.slotIds[slot];
    assert t.InfoInvariant(id, t.links.idMap[id]);
  }

  lemma {:induction false} RunTracks<T>(b: Brackets, s: Session<T>, refs: seq<Ref<nat>>, events: seq<Event<T>>)
    requires s.Invariant() && Permitted(refs) && SameHistory(s, refs) && Tracks(b, s) && Bracketed(b, events)
    requires InStepThroughout(s, refs, events) && Acceptable(s, events)
    ensures Tracks(AfterBrackets(b, events), RunFrom(s, events))
    decreases |events|
  {
    hide Session.Invariant, SameHistory, Permitted, Session.ReadsPayload, WritesPayload, Session.Step, Session.Accepts;
    hide Session.Parts, Tracks, HasUnique, Brackets.Next, Brackets.Fits;
    if events != [] {
      var e := events[0];
      EventInStep(s, refs, events);
      if e.Open? {
        InStepIff(s, refs, e.id, e.kind);
        PartsIff(s, refs, e.id, e.kind);
      }
      StepTracks(b, s, e);
      RunTracks(b.Next(e), s.Step(e), AddRef(refs, e), events[1..]);
    }
  }

  /** Linking is complete: once a run in step is over, with every payload ended and no id left with observers
      only, each slot holds the object made for its id, whichever of observer and owner came first. */
  lemma {:induction false} EverySlotIsLinked<T>(events: seq<Event<T>>)
    requires Bracketed(NO_BRACKETS, events) && AfterBrackets(NO_BRACKETS, events).open == map[]
    requires Permitted<nat>([]) && InStepThroughout(Fresh<T>(), [], events) && Acceptable(Fresh<T>(), events)
    requires forall id :: id in RunFrom(Fresh<T>(), events).links.idMap ==>
               !RunFrom(Fresh<T>(), events).links.idMap[id].info.ownershipType.Observer?
    ensures AllLinked(events, RunFrom(Fresh<T>(), events).links.slots)
  {
    hide Permitted, SameHistory, InStepThroughout, RunFrom, Acceptable, Bracketed;
    var s, t := Fresh<T>(), RunFrom(Fresh<T>(), events);
    NothingRead<T>();
    RunKeepsInvariant(s, [], events);
    RunTracks(NO_BRACKETS, s, [], events);
    SlotsKeepTheirIds(NO_BRACKETS, s, events);
    ObjectsAreMadeOnce(NO_BRACKETS, s, [], events);
    forall slot | slot in t.slotIds ensures slot in t.links.slots && t.slotIds[slot] in t.created {
      SlotIsLinked(t, slot);
    }
  }

  /** The reader's own check suffices: once it passes and no payload is open, nothing is left to link. */
  lemma {:induction false} ValidLinksEverySlot<T>(events: seq<Event<T>>)
    requires Bracketed(NO_BRACKETS, events) && AfterBrackets(NO_BRACKETS, events).open == map[]
    requires Permitted<nat>([]) && InStepThroughout(Fresh<T>(), [], events) && Acceptable(Fresh<T>(), events)
    requires RunFrom(Fresh<T>(), events).links.AllOwned()
    ensures AllLinked(events, RunFrom(Fresh<T>(), events).links.slots)
  {
    hide InStepThroughout, RunFrom, Acceptable, Bracketed, AllLinked, Permitted;
    EverySlotIsLinked(events);
  }

  // ---- what the writer puts on the wire ----

  /** The run as the reader meets it: each object by the id written for it. */
  function Wire<T(==)>(refs: seq<Ref<T>>): (wire: seq<Ref<nat>>)
    requires Permitted(refs)
    ensures |wire| == |refs|
    decreases |refs|
  {
    if refs == [] then []
    else
      var last := refs[|refs| - 1];
      Wire(refs[..|refs| - 1]) + [Ref(After(refs).ptrMap[last.ptr].id, last.kind)]
  }

  /** Two registries that differ in the names of the objects only: `wire` names them by their ids. */
  ghost predicate SameByIds<T>(reg: Registry<T>, wire: Registry<nat>) {
    && (forall p :: p in reg.ptrMap ==> reg.ptrMap[p].id in wire.ptrMap && wire.ptrMap[reg.ptrMap[p].id].info == reg.ptrMap[p].info)
    && (forall id :: id in wire.ptrMap ==> InUse(reg, id))
  }

  lemma {:induction false} WireStep<T>(refs: seq<Ref<T>>)
    requires refs != [] && Permitted(refs)
    ensures var front, last := refs[..|refs| - 1], refs[|refs| - 1];
            Permitted(front) && After(front).Permits(last.ptr, last.kind) &&
            After(refs) == After(front).Enter(last.ptr, last.kind) &&
            Wire(refs) == Wire(front) + [Ref(After(refs).ptrMap[last.ptr].id, last.kind)]
  {
  }

  lemma {:induction false} PermittedStep<T>(refs: seq<Ref<T>>, ref: Ref<T>)
    requires Permitted(refs) && After(refs).Permits(ref.ptr, ref.kind)
    ensures Permitted(refs + [ref]) && After(refs + [ref]) == After(refs).Enter(ref.ptr, ref.kind)
  {
    assert (refs + [ref])[..|refs|] == refs;
  }

  lemma {:induction false} StaysInUse<T>(reg: Registry<T>, next: Registry<T>, wire: Registry<nat>)
    requires SameByIds(reg, wire) && forall p :: p in reg.ptrMap ==> p in next.ptrMap && next.ptrMap[p].id == reg.ptrMap[p].id
    ensures forall other :: other in wire.ptrMap ==> InUse(next, other)
  {
    forall other | other in wire.ptrMap ensures InUse(next, other) {
      assert InUse(reg, other);
      var p :| p in reg.ptrMap && reg.ptrMap[p].id == other;
      assert next.ptrMap[p].id == other;
    }
  }

  lemma {:induction false} EntersKnown<T>(reg: Registry<T>, wire: Registry<nat>, ptr: T, kind: Ownership)
    requires Dense(reg) && SameByIds(reg, wire) && ptr in reg.ptrMap && reg.Permits(ptr, kind)
    ensures var id := reg.ptrMap[ptr].id;
            wire.Permits(id, kind) && SameByIds(reg.Enter(ptr, kind), wire.Enter(id, kind))
  {
    var id, next := reg.ptrMap[ptr].id, reg.Enter(ptr, kind);
    StaysInUse(reg, next, wire);
  }

  lemma {:induction false} NextIdIsNew<T>(reg: Registry<T>, wire: Registry<nat>)
    requires Dense(reg) && SameByIds(reg, wire)
    ensures reg.currId + 1 !in wire.ptrMap && forall p :: p in reg.ptrMap ==> reg.ptrMap[p].id != reg.currId + 1
  {
    assert reg.currId + 1 in wire.ptrMap ==> InUse(reg, reg.currId + 1);
  }

  lemma {:induction false} EntersNew<T>(reg: Registry<T>, wire: Registry<nat>, ptr: T, kind: Ownership)
    requires Dense(reg) && SameByIds(reg, wire) && ptr !in reg.ptrMap
    ensures var id := reg.currId + 1;
            id !in wire.ptrMap && reg.Enter(ptr, kind).ptrMap[ptr].id == id &&
            SameByIds(reg.Enter(ptr, kind), wire.Enter(id, kind))
  {
    hide Dense;
    NextIdIsNew(reg, wire);
    var id, next := reg.currId + 1, reg.Enter(ptr, kind);
    assert next.ptrMap[ptr].id == id;
    StaysInUse(reg, next, wire);
  }

  lemma {:induction false} EntersByIds<T>(reg: Registry<T>, wire: Registry<nat>, ptr: T, kind: Ownership)
    requires Dense(reg) && SameByIds(reg, wire) && reg.Permits(ptr, kind)
    ensures var id := reg.Enter(ptr, kind).ptrMap[ptr].id;
            wire.Permits(id, kind) && SameByIds(reg.Enter(ptr, kind), wire.Enter(id, kind))
  {
    EnterKeepsDense(reg, ptr, kind);
    if ptr in reg.ptrMap {
      EntersKnown(reg, wire, ptr, kind);
    } else {
      EntersNew(reg, wire, ptr, kind);
    }
  }

  /** Naming objects by ids changes neither what is permitted nor what is recorded. */
  lemma {:induction false} WireRun<T>(refs: seq<Ref<T>>)
    requires Permitted(refs)
    ensures Permitted(Wire(refs)) && SameByIds(After(refs), After(Wire(refs)))
    decreases |refs|
  {
    if refs != [] {
      WireStep(refs);
      var front, last := refs[..|refs| - 1], refs[|refs| - 1];
      WireRun(front);
      IdsAreDense(front);
      var wire, ref := Wire(front), Wire(refs)[|front|];
      hide After, Wire, Permitted;
      EntersByIds(After(front), After(wire), last.ptr, last.kind);
      PermittedStep(wire, ref);
    }
  }

  /** Payloads are written for the same references. */
  lemma {:induction false} WirePayload<T>(refs: seq<Ref<T>>)
    requires refs != [] && Permitted(refs)
    ensures Permitted(Wire(refs)) && WritesPayload(Wire(refs)) == WritesPayload(refs)
  {
    WireStep(refs);
    WireRun(refs);
    hide Permitted, Wire;
    RegistryCounts(refs, refs[|refs| - 1].ptr);
    assert refs[|refs| - 1].ptr == refs[|refs| - 1].ptr && Mentions(refs, refs[|refs| - 1].ptr);
  }

  lemma NothingEntered<T>(refs: seq<Ref<T>>)
    requires refs == []
    ensures Permitted(refs) && After(refs).ptrMap == map[]
  {
  }

  lemma OneIdEach<T>(reg: Registry<T>, p: T, q: T)
    requires Dense(reg) && p in reg.ptrMap && q in reg.ptrMap
    ensures reg.ptrMap[p].id == reg.ptrMap[q].id <==> p == q
  {
  }

  lemma {:induction false} NotUnique<T>(refs: seq<Ref<T>>, ptr: T)
    requires Permitted(refs) && ptr !in After(refs).ptrMap
    ensures !HasUnique(refs, ptr)
  {
    RegistryCounts(refs, ptr);
  }

  /** Unique owners are the same on the wire. */
  lemma {:induction false} WireUnique<T>(refs: seq<Ref<T>>, ptr: T)
    requires Permitted(refs) && ptr in After(refs).ptrMap
    ensures HasUnique(Wire(refs), After(refs).ptrMap[ptr].id) <==> HasUnique(refs, ptr)
    decreases |refs|
  {
    hide After, Wire, Permitted, HasUnique, Dense, SameByIds, Registry.Permits;
    if refs == [] {
      NothingEntered(refs);
    } else {
      WireStep(refs);
      var front, last := refs[..|refs| - 1], refs[|refs| - 1];
      var id := After(refs).ptrMap[ptr].id;
      IdsAreDense(front);
      assert refs == front + [last];
      UniqueAppend(front, last, ptr);
      UniqueAppend(Wire(front), Wire(refs)[|front|], id);
      IdsAreDense(refs);
      OneIdEach(After(refs), ptr, last.ptr);
      if ptr in After(front).ptrMap {
        EnterKeepsDense(After(front), last.ptr, last.kind);
        WireUnique(front, ptr);
      } else {
        NotUnique(front, ptr);
        WireRun(front);
        EntersNew(After(front), After(Wire(front)), last.ptr, last.kind);
        NotUnique(Wire(front), id);
      }
    }
  }

  lemma NothingShared<T>()
    ensures !SharedAfterUnique<T>([])
  {
  }

  /** Whether the object of the last reference had a unique owner before. */
  lemma {:induction false} LastUnique<T>(refs: seq<Ref<T>>)
    requires refs != [] && Permitted(refs) && Permitted(refs[..|refs| - 1])
    ensures var front, last := refs[..|refs| - 1], refs[|refs| - 1];
            HasUnique(Wire(front), After(refs).ptrMap[last.ptr].id) <==> HasUnique(front, last.ptr)
  {
    hide Permitted, Wire, After, HasUnique, Dense, SameByIds, Registry.Enter, Registry.Permits;
    WireStep(refs);
    var front, last := refs[..|refs| - 1], refs[|refs| - 1];
    IdsAreDense(front);
    EnterKeepsDense(After(front), last.ptr, last.kind);
    if last.ptr in After(front).ptrMap {
      WireUnique(front, last.ptr);
    } else {
      NotUnique(front, last.ptr);
      WireRun(front);
      EntersNew(After(front), After(Wire(front)), last.ptr, last.kind);
      NotUnique(Wire(front), After(refs).ptrMap[last.ptr].id);
    }
  }

  lemma {:induction false} WireShared<T>(refs: seq<Ref<T>>)
    requires Permitted(refs)
    ensures SharedAfterUnique(Wire(refs)) <==> SharedAfterUnique(refs)
    decreases |refs|
  {
    hide Wire, After, HasUnique, SharedAfterUnique, Permitted;
    if refs == [] {
      assert Wire(refs) == [];
      NothingShared<T>();
      NothingShared<nat>();
    } else {
      WireStep(refs);
      var front, last := refs[..|refs| - 1], refs[|refs| - 1];
      assert refs == front + [last];
      WireShared(front);
      SharedAfterAppend(front, last);
      SharedAfterAppend(Wire(front), Wire(refs)[|front|]);
      LastUnique(refs);
    }
  }

  lemma NothingTracked<U>()
    ensures Tracks(NO_BRACKETS, Fresh<U>())
  {
  }

  /** When both sides record the same, the two checks agree. */
  lemma {:induction false} OwnedBothSides<T, U>(s: Session<U>, refs: seq<Ref<T>>)
    requires Permitted(refs) && Permitted(Wire(refs)) && SameByIds(After(refs), After(Wire(refs)))
    requires SameHistory(s, Wire(refs))
    ensures s.links.AllOwned() <==> After(refs).AllOwned()
  {
    hide After, Wire, Permitted, HasUnique, Owners;
    if After(refs).AllOwned() {
      forall id | id in s.links.idMap ensures s.links.idMap[id].info.Owned() {
        assert InUse(After(refs), id);
        var p :| p in After(refs).ptrMap && After(refs).ptrMap[p].id == id;
        assert After(refs).ptrMap[p].info.Owned();
      }
    }
    if s.links.AllOwned() {
      forall p | p in After(refs).ptrMap ensures After(refs).ptrMap[p].info.Owned() {
        assert s.links.idMap[After(refs).ptrMap[p].id].info.Owned();
      }
    }
  }

  /** Any legal run of references, serialised and read back with its payloads nested in whatever way: no assert
      fails in the reader, and it reads exactly the payloads that were written, if and only if no shared reference
      follows a unique owner of the same object.  Then the reader's own check passes exactly when the writer's does,
      and once they pass and every payload is ended, every slot holds the object made for its id. */
  lemma {:induction false} LegalRunIsReadBack<T, U>(refs: seq<Ref<T>>, events: seq<Event<U>>)
    requires Permitted(refs) && Refs(events) == Wire(refs) && Bracketed(NO_BRACKETS, events)
    ensures Permitted<nat>([]) && Permitted(Wire(refs)) && Dense(After(refs))
    ensures InStepThroughout(Fresh<U>(), [], events) <==> !SharedAfterUnique(refs)
    ensures !SharedAfterUnique(refs) ==>
              Acceptable(Fresh<U>(), events) && (RunFrom(Fresh<U>(), events).links.AllOwned() <==> After(refs).AllOwned())
    ensures !SharedAfterUnique(refs) && AfterBrackets(NO_BRACKETS, events).open == map[] && After(refs).AllOwned() ==>
              AllLinked(events, RunFrom(Fresh<U>(), events).links.slots)
  {
    hide SameHistory, SameByIds, InStepThroughout, Acceptable, Bracketed, RunFrom, SharedAfterUnique, AllLinked;
    hide Dense, Wire, After, Refs;
    NothingRead<U>();
    NothingTracked<U>();
    NothingShared<nat>();
    IdsAreDense(refs);
    WireRun(refs);
    WireShared(refs);
    assert [] + Refs(events) == Wire(refs);
    RunInStepIff(NO_BRACKETS, Fresh<U>(), [], events);
    if !SharedAfterUnique(refs) {
      RunKeepsInvariant(Fresh<U>(), [], events);
      OwnedBothSides(RunFrom(Fresh<U>(), events), refs);
      if AfterBrackets(NO_BRACKETS, events).open == map[] && After(refs).AllOwned() {
        ValidLinksEverySlot(events);
      }
    }
  }

  /** Such events exist for every run: each payload ends before the next reference. */
  function Flat<U>(wire: seq<Ref<nat>>, owned: set<nat>, slot: nat, made: U): seq<Event<U>> {
    if wire == [] then []
    else
      var Ref(id, kind) := wire[0];
      var first := kind.Owning() && id !in owned;
      [Open(id, kind, slot, made)] + (if first then [Close(id, slot)] else []) +
      Flat(wire[1..], if first then owned + {id} else owned, slot + 1, made)
  }

  lemma {:induction false} FlatFits<U>(b: Brackets, wire: seq<Ref<nat>>, slot: nat, made: U)
    requires b.open == map[] && forall used :: used in b.slots ==> used < slot
    ensures var events := Flat(wire, b.owned, slot, made);
            Refs(events) == wire && Bracketed(b, events) && AfterBrackets(b, events).open == map[]
    decreases |wire|
  {
    if wire != [] {
      var Ref(id, kind) := wire[0];
      var first := kind.Owning() && id !in b.owned;
      var e := Open(id, kind, slot, made);
      var rest := Flat(wire[1..], if first then b.owned + {id} else b.owned, slot + 1, made);
      var events := Flat(wire, b.owned, slot, made);
      if first {
        var c := Event<U>.Close(id, slot);
        assert events[0] == e && events[1..] == [c] + rest && ([c] + rest)[1..] == rest;
        var next := b.Next(e).Next(c);
        assert next.open == map[];
        FlatFits(next, wire[1..], slot + 1, made);
      } else {
        assert events[0] == e && events[1..] == rest;
        assert kind.Owning() ==> b.owned + {id} == b.owned;
        FlatFits(b.Next(e), wire[1..], slot + 1, made);
      }
    }
  }

  /** From the references alone: a legal run, read back with payloads that end at once, stays in step if and only
      if no shared reference follows a unique owner; no payload is left open. */
  lemma {:induction false} LegalRunHasReading<T, U>(refs: seq<Ref<T>>, made: U)
    requires UniqueOwnersComeFirst(refs)
    ensures Permitted<nat>([]) && Permitted(refs)
    ensures var events := Flat(Wire(refs), {}, 0, made);
            (InStepThroughout(Fresh<U>(), [], events) <==> !SharedAfterUnique(refs)) &&
            (!SharedAfterUnique(refs) && After(refs).AllOwned() ==>
               Acceptable(Fresh<U>(), events) && AllLinked(events, RunFrom(Fresh<U>(), events).links.slots))
  {
    hide Permitted, After, Wire, Flat, InStepThroughout, SharedAfterUnique, Acceptable, AllLinked, RunFrom, Bracketed, AfterBrackets;
    PermittedIff(refs);
    FlatFits(NO_BRACKETS, Wire(refs), 0, made);
    LegalRunIsReadBack(refs, Flat(Wire(refs), {}, 0, made));
  }

  /** The case in point: a unique owner followed by a shared owner passes every assert of the writer, which
      writes no second payload, but the reader reads one. */
  lemma {:induction false} UniqueThenSharedPartsThem()
    ensures var refs := [Ref(1, Owner), Ref(1, SharedOwner)];
            Permitted(refs) && !WritesPayload(refs)
    ensures var events := [Open(1, Owner, 0, 7), Close(1, 0)];
            Acceptable(Fresh<nat>(), events) &&
            var s := RunFrom(Fresh<nat>(), events);
            s.links.Permits(1, SharedOwner) && s.ReadsPayload(1, SharedOwner)
  {
    var refs := [Ref(1, Owner), Ref(1, SharedOwner)];
    var first := [Ref(1, Owner)];
    assert first[..0] == [] && refs[..1] == first;
    assert After(first) == Registry(1, map[1 := Entry(1, PLCInfo(Owner, false))]);
    assert After(refs).ptrMap[1].info.isSharedProcessed;
    var events := [Open(1, Owner, 0, 7), Close(1, 0)];
    var begun := Fresh<nat>().Step(events[0]);
    assert events[1..] == [events[1]] && events[1..][1..] == [];
    assert begun.Accepts(events[1]);
    assert RunFrom(Fresh<nat>(), events) == begun.Step(events[1]);
  }
}
