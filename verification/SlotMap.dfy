/**
  The generational slot map: a vector of slots, a free list, and handles that
  carry a slot's number and version.

  `Slots` is the state the class keeps; `Granted`, `Added` and `Removed` are its
  transitions, which the methods are proved to perform. The theorems are about
  every run of them.
*/
module SlotMap {
  import opened Bytes

  /** A 32-bit signed handle: 15 bits of slot number, 15 of version, one deleted bit. */
  type ObjectHandle = int

  const NULL_OBJECTHANDLE: ObjectHandle := -1
  const SLOTS: nat := 32768
  const VERSIONS: nat := 32768
  const DELETED_BIT: nat := 0x4000_0000

  // Masks and shifts on a two's complement int are floor division and remainder.

  function GetHandleID(h: ObjectHandle): nat { h % SLOTS }

  function GetRecycleVersion(h: ObjectHandle): nat { (h / SLOTS) % VERSIONS }

  predicate DeletedBit(h: ObjectHandle) { (h / DELETED_BIT) % 2 != 0 }

  function MarkDeleted(h: ObjectHandle, del: bool): ObjectHandle {
    if del then (if DeletedBit(h) then h else h + DELETED_BIT) else h % DELETED_BIT
  }

  function MakeObjectHandle(id: nat, version: nat): (h: ObjectHandle)
    ensures 0 <= h < DELETED_BIT
  {
    (version % VERSIONS) * SLOTS + id % SLOTS
  }

  /** The bits of a handle: the slot number in 0 to 14, the version in 15 to 29, the deleted bit at 30, the sign at 31. */
  lemma HandleLayout(id: nat, version: nat, deleted: bool, sign: bool)
    requires id < 0x8000 && version < 0x8000
    ensures var plain := 0x8000 * version + id;
            var h := (if sign then -0x8000_0000 else 0) + (if deleted then 0x4000_0000 else 0) + plain;
            && GetHandleID(h) == id && GetRecycleVersion(h) == version && (DeletedBit(h) <==> deleted)
            && MakeObjectHandle(id, version) == plain
            && (!sign ==> MarkDeleted(h, true) == 0x4000_0000 + plain && MarkDeleted(h, false) == plain)
  {
    var plain := 0x8000 * version + id;
    LowBits(plain, 0);
    LowBits(plain, 1);
    LowBits(plain, -2);
    LowBits(plain, -1);
    assert plain / 0x8000 == version;
  }

  lemma LowBits(plain: nat, high: int)
    requires plain < 0x4000_0000
    ensures var h := 0x4000_0000 * high + plain;
            && h / 0x4000_0000 == high && h % 0x4000_0000 == plain && h % 0x8000 == plain % 0x8000
            && h / 0x8000 % 0x8000 == plain / 0x8000
  {
    var q, r := plain / 0x8000, plain % 0x8000;
    Divided(0x8000 * high + q, r);
    Divided(high, q);
    assert 0x4000_0000 * high + plain == 0x8000 * (0x8000 * high + q) + r;
  }

  lemma Divided(q: int, r: nat)
    requires r < 0x8000
    ensures (0x8000 * q + r) / 0x8000 == q && (0x8000 * q + r) % 0x8000 == r
  {
  }

  /** The parts of a handle are what it was made of. */
  lemma HandleParts(id: nat, version: nat)
    requires id < SLOTS && version < VERSIONS
    ensures var h := MakeObjectHandle(id, version);
            && GetHandleID(h) == id && GetRecycleVersion(h) == version && !DeletedBit(h) && h >= 0
            && GetHandleID(h + DELETED_BIT) == id && GetRecycleVersion(h + DELETED_BIT) == version
            && DeletedBit(h + DELETED_BIT) && MarkDeleted(h, true) == h + DELETED_BIT
            && MarkDeleted(h + DELETED_BIT, false) == h
  {
  }

  datatype Entry<+T> = Entry(handle: ObjectHandle, value: T)

  datatype Slots<+T> = Slots(data: seq<Entry<T>>, free: seq<ObjectHandle>, highest: nat)

  const ID_WIDTH: nat := 0x1_0000

  /** The next version of a handle's slot. */
  function Bumped(h: ObjectHandle): ObjectHandle {
    MakeObjectHandle(GetHandleID(h), GetRecycleVersion(h) + 1)
  }

  function GrantedHandle<T>(s: Slots<T>): ObjectHandle {
    if s.free != [] then Bumped(s.free[|s.free| - 1]) else MakeObjectHandle(s.highest, 0)
  }

  function Granted<T>(s: Slots<T>): Slots<T> {
    if s.free != [] then s.(free := s.free[..|s.free| - 1]) else s.(highest := (s.highest + 1) % ID_WIDTH)
  }

  /** Which slot a handle names, if any: the vector's size is cut to 16 bits as in the source. */
  function SlotOf<T>(s: Slots<T>, h: ObjectHandle): Option<nat> {
    var i := GetHandleID(h);
    if i < |s.data| % ID_WIDTH then Some(i) else None
  }

  function Added<T>(s: Slots<T>, blank: T): Slots<T> {
    var h := GrantedHandle(s);
    var g := Granted(s);
    match SlotOf(s, h)
    case Some(i) => g.(data := s.data[i := Entry(h, blank)])
    case None => g.(data := s.data + [Entry(h, blank)])
  }

  function Got<T>(s: Slots<T>, h: ObjectHandle): Option<nat> {
    if h == NULL_OBJECTHANDLE then None
    else
      match SlotOf(s, h)
      case None => None
      case Some(i) => if s.data[i].handle == h then Some(i) else None
  }

  function Removed<T>(s: Slots<T>, h: ObjectHandle): Slots<T> {
    match Got(s, h)
    case None => s
    case Some(i) =>
      s.(free := s.free + [Bumped(h)],
         data := s.data[i := s.data[i].(handle := MarkDeleted(Bumped(h), true))])
  }

  // ---------------------------------------------------------------------------------------
  // The classes
  // ---------------------------------------------------------------------------------------

  class SlotMapTracker {
    var mHighestUnrecycledId: nat
    var mFreeIds: seq<ObjectHandle>

    constructor ()
      ensures mHighestUnrecycledId == 0 && mFreeIds == []
    {
      mHighestUnrecycledId, mFreeIds := 0, [];
    }

    method Reset()
      modifies this
      ensures mHighestUnrecycledId == 0 && mFreeIds == []
    {
      mHighestUnrecycledId, mFreeIds := 0, [];
    }

    method GrantHandle() returns (handle: ObjectHandle)
      modifies this
      ensures var s: Slots<()> := Slots([], old(mFreeIds), old(mHighestUnrecycledId));
              handle == GrantedHandle(s) && Slots([], mFreeIds, mHighestUnrecycledId) == Granted(s)
    {
      if mFreeIds != [] {
        var last := mFreeIds[|mFreeIds| - 1];
        mFreeIds := mFreeIds[..|mFreeIds| - 1];
        handle := MakeObjectHandle(GetHandleID(last), GetRecycleVersion(last) + 1);
      } else {
        handle := MakeObjectHandle(mHighestUnrecycledId, 0);
        mHighestUnrecycledId := (mHighestUnrecycledId + 1) % ID_WIDTH;
      }
    }
  }

  class SSlotMap<T> {
    var mTracker: SlotMapTracker
    var mData: seq<Entry<T>>

    function State(): Slots<T>
      reads this, mTracker
    {
      Slots(mData, mTracker.mFreeIds, mTracker.mHighestUnrecycledId)
    }

    constructor ()
      ensures fresh(mTracker) && State() == Slots([], [], 0)
    {
      mTracker := new SlotMapTracker();
      mData := [];
    }

    method Clear()
      modifies this, mTracker
      ensures mTracker == old(mTracker) && State() == Slots([], [], 0)
    {
      mTracker.Reset();
      mData := [];
    }

    /** Returns the index of the slot whose address the source returns. */
    method Add(blank: T) returns (i: nat)
      modifies this, mTracker
      ensures mTracker == old(mTracker) && State() == Added(old(State()), blank)
      ensures i < |mData| && mData[i] == Entry(GrantedHandle(old(State())), blank)
    {
      var handle := mTracker.GrantHandle();
      i := GetHandleID(handle);
      if i < |mData| % ID_WIDTH {
        mData := mData[i := Entry(handle, blank)];
      } else {
        mData := mData + [Entry(handle, blank)];
        i := |mData| - 1;
      }
    }

    method Get(handle: ObjectHandle) returns (slot: Option<nat>)
      ensures slot == Got(State(), handle)
    {
      if handle == NULL_OBJECTHANDLE {
        return None;
      }
      var i := GetHandleID(handle);
      slot := None;
      if i < |mData| % ID_WIDTH {
        if mData[i].handle == handle {
          slot := Some(i);
        }
      }
    }

    method Remove(handle: ObjectHandle)
      modifies this, mTracker
      ensures mTracker == old(mTracker) && State() == Removed(old(State()), handle)
    {
      if handle == NULL_OBJECTHANDLE {
        return;
      }
      var i := GetHandleID(handle);
      if i < |mData| % ID_WIDTH {
        if mData[i].handle == handle {
          var newhandle := MakeObjectHandle(GetHandleID(handle), GetRecycleVersion(handle) + 1);
          mTracker.mFreeIds := mTracker.mFreeIds + [newhandle];
          newhandle := MarkDeleted(newhandle, true);
          mData := mData[i := mData[i].(handle := newhandle)];
        }
      }
    }

    /** count(): slots less free handles. */
    method Count() returns (n: int)
      ensures n == |State().data| - |State().free|
    {
      n := |mData| - |mTracker.mFreeIds|;
    }

    /** operator[]: the slot at an index unless it is out of range or deleted. */
    method At(index: nat) returns (slot: Option<nat>)
      ensures slot == if index < |State().data| && !DeletedBit(State().data[index].handle) then Some(index) else None
    {
      if index >= |mData| || DeletedBit(mData[index].handle) {
        return None;
      }
      return Some(index);
    }
  }

  // ---------------------------------------------------------------------------------------
  // Runs
  // ---------------------------------------------------------------------------------------

  datatype Op = Add | Remove(handle: ObjectHandle)

  /**
    A run's state beside what the client knows: the handles ever returned by Add, those not yet
    removed, how often each slot has been reused, and the slots on the free list.
   */
  datatype Trace = Trace(slots: Slots<()>, issued: set<ObjectHandle>, live: set<ObjectHandle>,
                         reuses: seq<nat>, freeIds: seq<nat>)

  const Empty := Trace(Slots([], [], 0), {}, {}, [], [])

  function Next(t: Trace, op: Op): Trace {
    match op
    case Add =>
      var h := GrantedHandle(t.slots);
      var s := Added(t.slots, ());
      if t.slots.free == [] then Trace(s, t.issued + {h}, t.live + {h}, t.reuses + [0], t.freeIds)
      else
        var ids := if t.freeIds == [] then [] else t.freeIds[..|t.freeIds| - 1];
        Trace(s, t.issued + {h}, t.live + {h}, t.reuses, ids)
    case Remove(h) =>
      match Got(t.slots, h)
      case None => t.(live := t.live - {h})
      case Some(i) =>
        var reuses := if i < |t.reuses| then t.reuses[i := t.reuses[i] + 1] else t.reuses;
        Trace(Removed(t.slots, h), t.issued, t.live - {h}, reuses, t.freeIds + [i])
  }

  const MAX_REUSES: nat := 16384

  /**
    The limits a client must respect: at most 32768 slots, fewer than 2^14 reuses of a slot, and
    no removal with the handle that a deleted slot stores, which Add never returns.
   */
  predicate Allowed(t: Trace, op: Op) {
    match op
    case Add =>
      if t.slots.free == [] then |t.slots.data| < SLOTS
      else t.freeIds != [] && t.freeIds[|t.freeIds| - 1] < |t.reuses| && t.reuses[t.freeIds[|t.freeIds| - 1]] < MAX_REUSES
    case Remove(h) => !(Got(t.slots, h).Some? && DeletedBit(h))
  }

  function Exec(t: Trace, ops: seq<Op>): Trace
    decreases |ops|
  {
    if ops == [] then t else Exec(Next(t, ops[0]), ops[1..])
  }

  predicate AllAllowed(t: Trace, ops: seq<Op>)
    decreases |ops|
  {
    ops == [] || (Allowed(t, ops[0]) && AllAllowed(Next(t, ops[0]), ops[1..]))
  }

  /** A slot is live at version twice its reuses, or deleted one version earlier. */
  function LiveHandle(t: Trace, i: nat): ObjectHandle
    requires i < |t.reuses|
  {
    MakeObjectHandle(i, 2 * t.reuses[i])
  }

  function FreeHandle(t: Trace, i: nat): ObjectHandle
    requires i < |t.reuses| && t.reuses[i] > 0
  {
    MakeObjectHandle(i, 2 * t.reuses[i] - 1)
  }

  predicate IsLive(t: Trace, i: nat)
    requires i < |t.slots.data|
  {
    !DeletedBit(t.slots.data[i].handle)
  }

  predicate SlotsSound(t: Trace) {
    && |t.slots.data| == |t.reuses| == t.slots.highest <= SLOTS
    && (forall i | 0 <= i < |t.reuses| :: GetHandleID(t.slots.data[i].handle) == i)
    && (forall i | 0 <= i < |t.reuses| && IsLive(t, i) ::
          t.reuses[i] < MAX_REUSES && t.slots.data[i].handle == LiveHandle(t, i))
    && (forall i | 0 <= i < |t.reuses| && !IsLive(t, i) ::
          0 < t.reuses[i] <= MAX_REUSES && t.slots.data[i].handle == FreeHandle(t, i) + DELETED_BIT)
  }

  /** The free list names each deleted slot once. */
  predicate FreeSound(t: Trace) {
    && |t.slots.data| == |t.reuses| && |t.slots.free| == |t.freeIds|
    && (forall k | 0 <= k < |t.freeIds| ::
          t.freeIds[k] < |t.reuses| && t.reuses[t.freeIds[k]] > 0 && t.slots.free[k] == FreeHandle(t, t.freeIds[k]))
    && (forall j, k | 0 <= j < k < |t.freeIds| :: t.freeIds[j] != t.freeIds[k])
    && (forall i | 0 <= i < |t.reuses| :: i in t.freeIds <==> !IsLive(t, i))
  }

  /** Every handle ever issued is the slot's live one or an earlier version of its slot. */
  predicate HistorySound(t: Trace) {
    && |t.slots.data| == |t.reuses|
    && (forall h | h in t.issued ::
          var i := GetHandleID(h);
          i < |t.reuses| && 0 <= h < DELETED_BIT
          && (if IsLive(t, i) then h == t.slots.data[i].handle || GetRecycleVersion(h) < 2 * t.reuses[i]
              else GetRecycleVersion(h) + 1 < 2 * t.reuses[i]))
    && (forall h | h in t.live :: h in t.issued && t.slots.data[GetHandleID(h)].handle == h)
    && (forall i | 0 <= i < |t.reuses| && IsLive(t, i) :: t.slots.data[i].handle in t.live)
    && (forall i | 0 <= i < |t.reuses| :: MakeObjectHandle(i, 0) in t.issued)
  }

  predicate Sound(t: Trace) {
    && SlotsSound(t) && FreeSound(t) && HistorySound(t)
    && |t.live| + |t.slots.free| == |t.slots.data|
  }

  /** A new slot is appended under `h`. */
  ghost predicate Extended(t: Trace, t': Trace, h: ObjectHandle) {
    var i := |t.reuses|;
    && i == |t.slots.data| && GetHandleID(h) == i && GetRecycleVersion(h) == 0
    && 0 <= h < DELETED_BIT && !DeletedBit(h) && h == MakeObjectHandle(i, 0)
    && t'.reuses == t.reuses + [0] && t'.freeIds == t.freeIds
    && t'.issued == t.issued + {h} && t'.live == t.live + {h}
    && t'.slots == Slots(t.slots.data + [Entry(h, ())], t.slots.free, i + 1)
  }

  lemma AddFreshShape(t: Trace)
    requires SlotsSound(t) && Allowed(t, Add) && t.slots.free == []
    ensures Extended(t, Next(t, Add), GrantedHandle(t.slots)) && |t.reuses| < SLOTS
  {
    HandleParts(t.slots.highest, 0);
    hide MakeObjectHandle, GetHandleID, GetRecycleVersion, DeletedBit;
  }

  lemma ExtendedSlots(t: Trace, t': Trace, h: ObjectHandle)
    requires Extended(t, t', h) && |t.reuses| < SLOTS
    requires SlotsSound(t)
    ensures SlotsSound(t')
    ensures FreeSound(t) ==> FreeSound(t')
  {
    hide MakeObjectHandle, GetHandleID, GetRecycleVersion, DeletedBit;
    var i := |t.reuses|;
    assert t'.slots.data[i].handle == h && t'.reuses[i] == 0;
    assert forall k | 0 <= k < i :: t'.slots.data[k] == t.slots.data[k] && t'.reuses[k] == t.reuses[k];
  }

  lemma ExtendedHistory(t: Trace, t': Trace, h: ObjectHandle)
    requires Extended(t, t', h) && HistorySound(t)
    ensures HistorySound(t') && h !in t.issued && h !in t.live
  {
    hide MakeObjectHandle, GetHandleID, GetRecycleVersion, DeletedBit;
    var i := |t.reuses|;
    assert t'.slots.data[i].handle == h && t'.reuses[i] == 0;
    assert forall k | 0 <= k < i :: t'.slots.data[k] == t.slots.data[k] && t'.reuses[k] == t.reuses[k];
  }

  lemma AddFreshSound(t: Trace)
    requires Sound(t) && Allowed(t, Add) && t.slots.free == []
    ensures Sound(Next(t, Add)) && GrantedHandle(t.slots) !in t.issued
  {
    var h, t' := GrantedHandle(t.slots), Next(t, Add);
    AddFreshShape(t);
    ExtendedSlots(t, t', h);
    ExtendedHistory(t, t', h);
    hide SlotsSound, FreeSound, HistorySound, MakeObjectHandle, GetHandleID, GetRecycleVersion, DeletedBit, Next, GrantedHandle;
  }

  /** Where a handle made for a slot leads, and what the next versions of it are. */
  lemma BumpedParts(i: nat, version: nat)
    requires i < SLOTS && version + 1 < VERSIONS
    ensures Bumped(MakeObjectHandle(i, version)) == MakeObjectHandle(i, version + 1)
  {
    HandleParts(i, version);
  }

  /** Slot `i` is handed out again under `h`. */
  ghost predicate Reused(t: Trace, t': Trace, i: nat, h: ObjectHandle) {
    && i < |t.reuses| == |t.slots.data| && |t.slots.free| == |t.freeIds| > 0
    && i == t.freeIds[|t.freeIds| - 1] && 0 < t.reuses[i] < MAX_REUSES
    && GetHandleID(h) == i && 0 <= h < DELETED_BIT && !DeletedBit(h) && GetRecycleVersion(h) == 2 * t.reuses[i]
    && h == LiveHandle(t, i)
    && t'.reuses == t.reuses && t'.freeIds == t.freeIds[..|t.freeIds| - 1]
    && t'.issued == t.issued + {h} && t'.live == t.live + {h}
    && t'.slots == Slots(t.slots.data[i := Entry(h, ())], t.slots.free[..|t.slots.free| - 1], t.slots.highest)
  }

  lemma LastFree(t: Trace) returns (i: nat)
    requires SlotsSound(t) && FreeSound(t) && Allowed(t, Add) && t.slots.free != []
    ensures i < |t.reuses| == |t.slots.data| <= SLOTS && |t.slots.free| == |t.freeIds| > 0 && !IsLive(t, i)
    ensures i == t.freeIds[|t.freeIds| - 1] && 0 < t.reuses[i] < MAX_REUSES
    ensures t.slots.free[|t.slots.free| - 1] == MakeObjectHandle(i, 2 * t.reuses[i] - 1)
  {
    i := t.freeIds[|t.freeIds| - 1];
    assert i in t.freeIds;
  }

  lemma AddedToFreed(s: Slots<()>, i: nat)
    requires s.free != [] && GetHandleID(GrantedHandle(s)) == i < |s.data| <= SLOTS
    ensures Added(s, ()) == Slots(s.data[i := Entry(GrantedHandle(s), ())], s.free[..|s.free| - 1], s.highest)
  {
    hide GetHandleID, GrantedHandle;
  }

  lemma AddReusedShape(t: Trace) returns (i: nat)
    requires SlotsSound(t) && FreeSound(t) && Allowed(t, Add) && t.slots.free != []
    ensures Reused(t, Next(t, Add), i, GrantedHandle(t.slots)) && !IsLive(t, i)
  {
    hide SlotsSound, FreeSound;
    i := LastFree(t);
    var v := 2 * t.reuses[i] - 1;
    HandleParts(i, v + 1);
    BumpedParts(i, v);
    hide MakeObjectHandle, GetHandleID, GetRecycleVersion, DeletedBit, Bumped, Added;
    AddedToFreed(t.slots, i);
  }

  lemma AddReusedFree(t: Trace, t': Trace, i: nat, h: ObjectHandle)
    requires FreeSound(t) && Reused(t, t', i, h)
    ensures FreeSound(t')
  {
    hide MakeObjectHandle, GetHandleID, GetRecycleVersion, DeletedBit;
    assert forall k | 0 <= k < |t.reuses| && k != i :: t'.slots.data[k] == t.slots.data[k];
    assert forall k | 0 <= k < |t.reuses| && k != i :: k in t'.freeIds <==> k in t.freeIds;
  }

  lemma AddReusedHistory(t: Trace, t': Trace, i: nat, h: ObjectHandle)
    requires SlotsSound(t) && HistorySound(t) && Reused(t, t', i, h) && !IsLive(t, i)
    ensures HistorySound(t') && h !in t.issued && SlotsSound(t')
  {
    hide MakeObjectHandle, GetHandleID, GetRecycleVersion, DeletedBit;
    assert t'.slots.data[i].handle == h;
    assert forall k | 0 <= k < |t.reuses| && k != i :: t'.slots.data[k] == t.slots.data[k];
    assert h !in t.issued;
  }

  lemma AddReusedSound(t: Trace)
    requires Sound(t) && Allowed(t, Add) && t.slots.free != []
    ensures Sound(Next(t, Add)) && GrantedHandle(t.slots) !in t.issued
  {
    var i := AddReusedShape(t);
    var h, t' := GrantedHandle(t.slots), Next(t, Add);
    AddReusedFree(t, t', i, h);
    AddReusedHistory(t, t', i, h);
    hide SlotsSound, FreeSound, MakeObjectHandle, GetHandleID, GetRecycleVersion, DeletedBit, Next, GrantedHandle;
    assert h !in t.live;
  }

  /** Live handle `h` of slot `i` is retired. */
  ghost predicate Retired(t: Trace, t': Trace, i: nat, h: ObjectHandle) {
    && i == GetHandleID(h) < |t.reuses| == |t.slots.data| && IsLive(t, i) && h == t.slots.data[i].handle && h in t.live
    && GetRecycleVersion(h) == 2 * t.reuses[i]
    && t'.reuses == t.reuses[i := t.reuses[i] + 1] && t'.reuses[i] <= MAX_REUSES
    && t'.freeIds == t.freeIds + [i] && t'.issued == t.issued && t'.live == t.live - {h}
    && FreeHandle(t', i) == Bumped(h) && DeletedBit(Bumped(h) + DELETED_BIT) && GetHandleID(Bumped(h) + DELETED_BIT) == i
    && t'.slots == t.slots.(free := t.slots.free + [Bumped(h)],
                            data := t.slots.data[i := Entry(Bumped(h) + DELETED_BIT, t.slots.data[i].value)])
  }

  lemma RemoveShape(t: Trace, h: ObjectHandle) returns (i: nat)
    requires SlotsSound(t) && HistorySound(t) && Allowed(t, Remove(h)) && Got(t.slots, h).Some?
    ensures Retired(t, Next(t, Remove(h)), i, h)
  {
    i := GetHandleID(h);
    assert IsLive(t, i) && h == t.slots.data[i].handle == MakeObjectHandle(i, 2 * t.reuses[i]) && h in t.live;
    assert i < SLOTS && t.reuses[i] < MAX_REUSES && i < |t.slots.data| == |t.reuses|;
    HandleParts(i, 2 * t.reuses[i]);
    HandleParts(i, 2 * t.reuses[i] + 1);
    BumpedParts(i, 2 * t.reuses[i]);
    hide SlotsSound, HistorySound, MakeObjectHandle, GetHandleID, GetRecycleVersion, DeletedBit, Bumped, MarkDeleted;
    assert MarkDeleted(Bumped(h), true) == Bumped(h) + DELETED_BIT;
  }

  lemma RemoveFree(t: Trace, t': Trace, i: nat, h: ObjectHandle)
    requires FreeSound(t) && Retired(t, t', i, h)
    ensures FreeSound(t')
  {
    hide MakeObjectHandle, GetHandleID, GetRecycleVersion, DeletedBit, Bumped;
    assert forall k | 0 <= k < |t.reuses| && k != i :: t'.slots.data[k] == t.slots.data[k];
    assert i !in t.freeIds;
  }

  lemma RemoveHistory(t: Trace, t': Trace, i: nat, h: ObjectHandle)
    requires SlotsSound(t) && HistorySound(t) && Retired(t, t', i, h)
    ensures HistorySound(t') && SlotsSound(t')
  {
    hide MakeObjectHandle, GetHandleID, GetRecycleVersion, DeletedBit, Bumped;
    assert forall k | 0 <= k < |t.reuses| && k != i :: t'.slots.data[k] == t.slots.data[k];
  }

  lemma RemoveSound(t: Trace, h: ObjectHandle)
    requires Sound(t) && Allowed(t, Remove(h))
    ensures Sound(Next(t, Remove(h)))
  {
    if Got(t.slots, h).Some? {
      var i := RemoveShape(t, h);
      var t' := Next(t, Remove(h));
      RemoveFree(t, t', i, h);
      RemoveHistory(t, t', i, h);
      hide SlotsSound, FreeSound, HistorySound, MakeObjectHandle, GetHandleID, GetRecycleVersion, DeletedBit, Next, Got;
    } else {
      hide FreeSound, MakeObjectHandle, GetRecycleVersion, DeletedBit;
      assert h !in t.live;
      assert Next(t, Remove(h)).live == t.live;
    }
  }

  /**
    Main result, one step: an allowed operation keeps the slot map sound, and the handle Add
    returns was never returned before.
   */
  lemma StepSound(t: Trace, op: Op)
    requires Sound(t) && Allowed(t, op)
    ensures Sound(Next(t, op))
    ensures op.Add? ==> GrantedHandle(t.slots) !in t.issued
  {
    match op
    case Add => if t.slots.free == [] { AddFreshSound(t); } else { AddReusedSound(t); }
    case Remove(h) => RemoveSound(t, h);
  }

  lemma {:induction false} RunSound(t: Trace, ops: seq<Op>)
    requires Sound(t) && AllAllowed(t, ops)
    ensures Sound(Exec(t, ops))
    decreases |ops|
  {
    if ops != [] {
      StepSound(t, ops[0]);
      RunSound(Next(t, ops[0]), ops[1..]);
    }
  }

  /** Get finds a handle that Add returned exactly while it has not been removed. */
  lemma GetFindsLive(t: Trace, h: ObjectHandle)
    requires Sound(t) && h in t.issued
    ensures Got(t.slots, h).Some? <==> h in t.live
    ensures h in t.live ==> Got(t.slots, h) == Some(GetHandleID(h))
  {
  }

  /** What a client sees: Get answers for the live handles, the free list and count() are right. */
  predicate BehavesAsMap(t: Trace) {
    && (forall h | h in t.issued :: Got(t.slots, h).Some? <==> h in t.live)
    && (forall h | h in t.live :: h in t.issued)
    && FreeSound(t)
    && |t.slots.data| - |t.slots.free| == |t.live|
  }

  lemma SoundBehavesAsMap(t: Trace)
    requires Sound(t)
    ensures BehavesAsMap(t)
  {
    forall h | h in t.issued
      ensures Got(t.slots, h).Some? <==> h in t.live
    {
      GetFindsLive(t, h);
    }
    hide Got, GetHandleID, DeletedBit, GetRecycleVersion, MakeObjectHandle, FreeSound, SlotsSound;
  }

  /**
    Main result, whole runs: however Add and Remove are interleaved within the limits, the slot map
    behaves as a map of its live handles, the free list holds each deleted slot once and count()
    is the number of live handles.
   */
  lemma RunBehavesAsMap(ops: seq<Op>)
    requires AllAllowed(Empty, ops)
    ensures BehavesAsMap(Exec(Empty, ops))
  {
    RunSound(Empty, ops);
    SoundBehavesAsMap(Exec(Empty, ops));
  }

  // ---------------------------------------------------------------------------------------
  // The limits are exact
  // ---------------------------------------------------------------------------------------

  /**
    The reuse limit is exact: at a free slot Add returns a handle never returned before if and only
    if the slot has been reused fewer than 2^14 times; at the limit the slot's first handle comes back.
   */
  lemma NewHandleExactlyBelowReuseLimit(t: Trace)
    requires Sound(t) && t.slots.free != []
    ensures var i := t.freeIds[|t.freeIds| - 1];
            && t.reuses[i] <= MAX_REUSES
            && (GrantedHandle(t.slots) !in t.issued <==> t.reuses[i] < MAX_REUSES)
            && (t.reuses[i] == MAX_REUSES ==> GrantedHandle(t.slots) == MakeObjectHandle(i, 0))
  {
    var i := t.freeIds[|t.freeIds| - 1];
    assert i in t.freeIds;
    if t.reuses[i] < MAX_REUSES {
      AddReusedSound(t);
    } else {
      VersionWraps(i);
      assert t.slots.free[|t.slots.free| - 1] == FreeHandle(t, i);
      assert GrantedHandle(t.slots) == Bumped(MakeObjectHandle(i, VERSIONS - 1));
      hide MakeObjectHandle, Bumped, SlotsSound;
    }
  }

  lemma VersionWraps(i: nat)
    requires i < SLOTS
    ensures Bumped(MakeObjectHandle(i, VERSIONS - 1)) == MakeObjectHandle(i, 0)
  {
    HandleParts(i, VERSIONS - 1);
  }

  /** The slot limit is exact too: the 32769th slot would overwrite the first. */
  lemma SlotLimitOverwrites(s: Slots<()>)
    requires s.free == [] && |s.data| == s.highest == SLOTS
    ensures GrantedHandle(s) == MakeObjectHandle(0, 0)
    ensures Added(s, ()).data == s.data[0 := Entry(MakeObjectHandle(0, 0), ())]
  {
    assert GetHandleID(MakeObjectHandle(0, 0)) == 0;
  }

  /** Removing with the handle a deleted slot stores puts the slot on the free list twice. */
  lemma StoredHandleFreesTwice(t: Trace, h: ObjectHandle)
    requires Sound(t) && Got(t.slots, h).Some? && DeletedBit(h)
    ensures !FreeSound(Next(t, Remove(h)))
  {
    var i := Got(t.slots, h).value;
    assert !IsLive(t, i) && i in t.freeIds;
    var k :| 0 <= k < |t.freeIds| && t.freeIds[k] == i;
    var t' := Next(t, Remove(h));
    assert t'.freeIds[k] == t'.freeIds[|t.freeIds|] == i;
    hide Got, GetHandleID, DeletedBit, MakeObjectHandle, Removed;
  }

  /** Removal keeps the slot map sound if and only if it is not given the handle of a deleted slot. */
  lemma RemoveSoundExactly(t: Trace, h: ObjectHandle)
    requires Sound(t)
    ensures Sound(Next(t, Remove(h))) <==> !(Got(t.slots, h).Some? && DeletedBit(h))
  {
    if Got(t.slots, h).Some? && DeletedBit(h) {
      StoredHandleFreesTwice(t, h);
    } else {
      RemoveSound(t, h);
    }
    hide Sound, Got, DeletedBit, Next;
  }

  /** Add keeps the slot map sound with a new handle if and only if both limits leave room for it. */
  lemma AddSoundExactly(t: Trace)
    requires Sound(t)
    ensures Sound(Next(t, Add)) && GrantedHandle(t.slots) !in t.issued <==> Allowed(t, Add)
  {
    if t.slots.free != [] {
      NewHandleExactlyBelowReuseLimit(t);
      LastFreeSlot(t);
    } else if |t.slots.data| == SLOTS {
      SlotLimitOverwrites(t.slots);
    }
    if Allowed(t, Add) {
      StepSound(t, Add);
    }
    hide Sound, Next, GrantedHandle;
  }

  lemma LastFreeSlot(t: Trace)
    requires Sound(t) && t.slots.free != []
    ensures t.freeIds != [] && t.freeIds[|t.freeIds| - 1] < |t.reuses|
  {
    assert t.freeIds[|t.freeIds| - 1] in t.freeIds;
  }

  /** Main result: the limits of Allowed are exactly what keeps a step sound and its handle new. */
  lemma StepSoundExactly(t: Trace, op: Op)
    requires Sound(t)
    ensures Sound(Next(t, op)) && (op.Add? ==> GrantedHandle(t.slots) !in t.issued) <==> Allowed(t, op)
  {
    match op
    case Add => AddSoundExactly(t);
    case Remove(h) => RemoveSoundExactly(t, h);
  }

  /** Get answers for a deleted slot exactly when it is given the handle that slot stores, which Add never returned. */
  lemma GetFindsDeleted(t: Trace, h: ObjectHandle)
    requires Sound(t)
    ensures Got(t.slots, h).Some? && !IsLive(t, Got(t.slots, h).value)
       <==> exists i | 0 <= i < |t.reuses| && !IsLive(t, i) :: h == FreeHandle(t, i) + DELETED_BIT
    ensures Got(t.slots, h).Some? && !IsLive(t, Got(t.slots, h).value) ==> h !in t.issued
  {
    if i :| 0 <= i < |t.reuses| && !IsLive(t, i) && h == FreeHandle(t, i) + DELETED_BIT {
      assert t.slots.data[i].handle == h && GetHandleID(h) == i && h >= 0;
    }
    hide MakeObjectHandle, GetRecycleVersion, FreeSound;
  }

  // ---------------------------------------------------------------------------------------
  // Runs that reach the limits
  // ---------------------------------------------------------------------------------------

  lemma {:induction false} ExecAppend(t: Trace, a: seq<Op>, b: seq<Op>)
    ensures Exec(t, a + b) == Exec(Exec(t, a), b)
    ensures AllAllowed(t, a + b) <==> AllAllowed(t, a) && AllAllowed(Exec(t, a), b)
    decreases |a|
  {
    if a == [] {
      assert a + b == b;
    } else {
      assert (a + b)[0] == a[0] && (a + b)[1..] == a[1..] + b;
      ExecAppend(Next(t, a[0]), a[1..], b);
    }
  }

  lemma OneStep(t: Trace, op: Op)
    ensures Exec(t, [op]) == Next(t, op)
    ensures AllAllowed(t, [op]) <==> Allowed(t, op)
  {
    assert [op][1..] == [];
    assert Exec(Next(t, op), []) == Next(t, op);
    hide Next, Allowed;
  }

  function Adds(n: nat): seq<Op> {
    if n == 0 then [] else Adds(n - 1) + [Add]
  }

  /** So many calls of Add fill so many slots, all live: the slot limit is reached. */
  lemma {:induction false} AddsFill(n: nat)
    requires n <= SLOTS
    ensures var t := Exec(Empty, Adds(n));
            AllAllowed(Empty, Adds(n)) && Sound(t) && t.slots.free == [] && |t.slots.data| == t.slots.highest == n
  {
    if n == 0 {
      EmptySound();
    } else {
      AddsFill(n - 1);
      var t := Exec(Empty, Adds(n - 1));
      ExecAppend(Empty, Adds(n - 1), [Add]);
      OneStep(t, Add);
      AddFreshSound(t);
      AddFreshShape(t);
      hide Next, Exec, AllAllowed, SlotsSound, FreeSound, HistorySound, GrantedHandle, MakeObjectHandle, GetHandleID, DeletedBit;
    }
  }

  lemma EmptySound()
    ensures Sound(Empty)
  {
  }

  /** Add and remove in turn, always on slot 0. */
  function Cycles(n: nat): seq<Op> {
    if n == 0 then [] else Cycles(n - 1) + ([Add] + [Remove(MakeObjectHandle(0, 2 * (n - 1)))])
  }

  /** One slot, reused `n` times and free. */
  predicate Cycled(t: Trace, n: nat) {
    && Sound(t) && t.reuses == [n] && t.freeIds == [0] && t.slots.free != []
  }

  /** One slot, reused `n` times and held under `h`. */
  predicate Held(t: Trace, n: nat, h: ObjectHandle) {
    && Sound(t) && t.reuses == [n] && t.freeIds == [] && |t.slots.data| == 1
    && IsLive(t, 0) && t.slots.data[0].handle == h && h == MakeObjectHandle(0, 2 * n)
  }

  lemma FirstHeld()
    ensures Allowed(Empty, Add) && Held(Next(Empty, Add), 0, MakeObjectHandle(0, 0))
  {
    EmptySound();
    AddFreshSound(Empty);
    AddFreshShape(Empty);
    hide Sound, MakeObjectHandle, GetHandleID, GetRecycleVersion, DeletedBit, Next, GrantedHandle;
  }

  lemma HeldAgain(t: Trace, n: nat)
    requires Cycled(t, n) && 0 < n < MAX_REUSES
    ensures Allowed(t, Add) && Held(Next(t, Add), n, MakeObjectHandle(0, 2 * n))
  {
    var i := AddReusedShape(t);
    AddReusedSound(t);
    hide Sound, MakeObjectHandle, GetHandleID, GetRecycleVersion, DeletedBit, Next, GrantedHandle;
  }

  lemma HeldThenFreed(t: Trace, n: nat, h: ObjectHandle)
    requires Held(t, n, h)
    ensures Allowed(t, Remove(h)) && Cycled(Next(t, Remove(h)), n + 1)
  {
    assert n < MAX_REUSES;
    HandleParts(0, 2 * n);
    assert Got(t.slots, h) == Some(0);
    var i := RemoveShape(t, h);
    RemoveSound(t, h);
    hide Sound, MakeObjectHandle, GetHandleID, GetRecycleVersion, DeletedBit, Next, Bumped;
  }

  /** So many rounds reuse slot 0 so many times: the reuse limit is reached. */
  lemma {:induction false} CyclesReuse(n: nat)
    requires 0 < n <= MAX_REUSES
    ensures AllAllowed(Empty, Cycles(n)) && Cycled(Exec(Empty, Cycles(n)), n)
  {
    hide Next, AllAllowed, Allowed, Cycled, Held, MakeObjectHandle;
    var before := Cycles(n - 1);
    var t, h := Exec(Empty, before), MakeObjectHandle(0, 2 * (n - 1));
    if n == 1 {
      NoSteps();
      FirstHeld();
    } else {
      CyclesReuse(n - 1);
      HeldAgain(t, n - 1);
    }
    hide Exec;
    HeldThenFreed(Next(t, Add), n - 1, h);
    ThenTwo(before, t, Add, Remove(h));
  }

  lemma NoSteps()
    ensures Cycles(0) == [] && Exec(Empty, []) == Empty && AllAllowed(Empty, [])
  {
  }

  lemma ThenTwo(ops: seq<Op>, t: Trace, a: Op, b: Op)
    requires AllAllowed(Empty, ops) && Exec(Empty, ops) == t && Allowed(t, a) && Allowed(Next(t, a), b)
    ensures AllAllowed(Empty, ops + ([a] + [b])) && Exec(Empty, ops + ([a] + [b])) == Next(Next(t, a), b)
  {
    ExecAppend(Empty, ops, [a] + [b]);
    ExecAppend(t, [a], [b]);
    OneStep(t, a);
    OneStep(Next(t, a), b);
    hide Next, Exec, AllAllowed, Allowed;
  }

  /** Both limits are reached by runs within them, and the next Add then breaks the map. */
  lemma LimitsReached()
    ensures AllAllowed(Empty, Adds(SLOTS)) && !Allowed(Exec(Empty, Adds(SLOTS)), Add)
    ensures GrantedHandle(Exec(Empty, Adds(SLOTS)).slots) in Exec(Empty, Adds(SLOTS)).issued
    ensures AllAllowed(Empty, Cycles(MAX_REUSES)) && !Allowed(Exec(Empty, Cycles(MAX_REUSES)), Add)
    ensures GrantedHandle(Exec(Empty, Cycles(MAX_REUSES)).slots) in Exec(Empty, Cycles(MAX_REUSES)).issued
  {
    AddsFill(SLOTS);
    var full := Exec(Empty, Adds(SLOTS));
    SlotLimitOverwrites(full.slots);
    assert MakeObjectHandle(0, 0) in full.issued;
    CyclesReuse(MAX_REUSES);
    NewHandleExactlyBelowReuseLimit(Exec(Empty, Cycles(MAX_REUSES)));
    hide Exec, AllAllowed, GrantedHandle, Adds, Cycles;
  }

  /**
    A run that frees a slot twice: Add, Remove with Add's handle, and Remove with the handle the slot then
    stores. The count is negative, and the next two calls of Add share the slot.
   */
  lemma DoubleFreeHappens()
    ensures var h := MakeObjectHandle(0, 0);
            var stored := MakeObjectHandle(0, 1) + DELETED_BIT;
            var t := Exec(Empty, [Add, Remove(h)]);
            var u := Next(t, Remove(stored));
            && AllAllowed(Empty, [Add, Remove(h)]) && Got(t.slots, stored) == Some(0) && DeletedBit(stored)
            && |u.slots.data| == 1 && |u.slots.free| == 2
            && GetHandleID(GrantedHandle(u.slots)) == GetHandleID(GrantedHandle(Next(u, Add).slots)) == 0
            && Got(Next(Next(u, Add), Add).slots, GrantedHandle(u.slots)) == None
  {
    var h := MakeObjectHandle(0, 0);
    HandleParts(0, 0);
    HandleParts(0, 1);
    HandleParts(0, 2);
    HandleParts(0, 3);
    assert [Add, Remove(h)][1..] == [Remove(h)] && [Remove(h)][1..] == [];
    var t0 := Next(Empty, Add);
    assert t0.slots == Slots([Entry(h, ())], [], 1);
    var t := Next(t0, Remove(h));
    assert Exec(t, []) == t;
    assert t.slots == Slots([Entry(MakeObjectHandle(0, 1) + DELETED_BIT, ())], [MakeObjectHandle(0, 1)], 1);
    var u := Next(t, Remove(MakeObjectHandle(0, 1) + DELETED_BIT));
    assert u.slots.free == [MakeObjectHandle(0, 1), MakeObjectHandle(0, 2)];
    var v := Next(u, Add);
    assert v.slots.data == [Entry(MakeObjectHandle(0, 3), ())] && v.slots.free == [MakeObjectHandle(0, 1)];
    assert Next(v, Add).slots.data == [Entry(MakeObjectHandle(0, 2), ())];
  }

  // ---------------------------------------------------------------------------------------
  // Values
  // ---------------------------------------------------------------------------------------

  /** The slots without their values: what the runs above are about. */
  function Bare<T>(s: Slots<T>): (b: Slots<()>)
    ensures |b.data| == |s.data| && b.free == s.free && b.highest == s.highest
    ensures forall i | 0 <= i < |s.data| :: b.data[i] == Entry(s.data[i].handle, ())
  {
    Slots(seq(|s.data|, i requires 0 <= i < |s.data| => Entry(s.data[i].handle, ())), s.free, s.highest)
  }

  function Played<T>(s: Slots<T>, op: Op, blank: T): Slots<T> {
    match op
    case Add => Added(s, blank)
    case Remove(h) => Removed(s, h)
  }

  lemma BarePlayed<T>(s: Slots<T>, t: Trace, op: Op, blank: T)
    requires t.slots == Bare(s)
    ensures Bare(Played(s, op, blank)) == Next(t, op).slots
  {
    hide GetHandleID, Bumped, MarkDeleted, MakeObjectHandle, NULL_OBJECTHANDLE;
    var u, b := Played(s, op, blank), Next(t, op).slots;
    assert |u.data| == |b.data| && Bare(u).free == b.free && Bare(u).highest == b.highest;
    assert Bare(u).data == b.data;
  }

  /** The value a handle leads to. */
  function ValueAt<T>(s: Slots<T>, h: ObjectHandle): Option<T> {
    match Got(s, h)
    case None => None
    case Some(i) => Some(s.data[i].value)
  }

  lemma GotBare<T>(s: Slots<T>, h: ObjectHandle)
    ensures Got(Bare(s), h) == Got(s, h)
  {
    hide GetHandleID;
  }

  /** A call leaves the values behind all other live handles as they are, and a new slot is blank. */
  lemma StepKeepsValues<T>(s: Slots<T>, t: Trace, op: Op, blank: T, h: ObjectHandle)
    requires Sound(t) && Allowed(t, op) && t.slots == Bare(s)
    ensures h in t.live && op != Remove(h) ==> h in Next(t, op).live && ValueAt(Played(s, op, blank), h) == ValueAt(s, h)
    ensures op.Add? ==> ValueAt(Played(s, op, blank), GrantedHandle(s)) == Some(blank)
  {
    var u := Played(s, op, blank);
    StepSound(t, op);
    BarePlayed(s, t, op, blank);
    GotBare(s, h);
    GotBare(u, h);
    hide BehavesAsMap;
    if op.Add? {
      GrantedFound(s, t, blank);
    }
    if h in t.live && op != Remove(h) {
      GetFindsLive(t, h);
      GetFindsLive(Next(t, op), h);
      OthersUntouched(s, t, op, blank, h);
    }
  }

  lemma GrantedFound<T>(s: Slots<T>, t: Trace, blank: T)
    requires Sound(t) && Allowed(t, Add) && t.slots == Bare(s)
    ensures ValueAt(Added(s, blank), GrantedHandle(s)) == Some(blank)
  {
    var h, u := GrantedHandle(s), Added(s, blank);
    StepSound(t, Add);
    BarePlayed(s, t, Add, blank);
    GotBare(u, h);
    assert h in Next(t, Add).live && h in Next(t, Add).issued;
    GetFindsLive(Next(t, Add), h);
    hide Sound, Got, GetHandleID, Bumped, MakeObjectHandle;
    assert u.data[GetHandleID(h)].value == blank by { BlankThere(s, t, blank); }
  }

  lemma BlankAt<T>(s: Slots<T>, blank: T)
    requires GetHandleID(GrantedHandle(s)) <= |s.data| <= SLOTS
    ensures var i := GetHandleID(GrantedHandle(s)); i < |Added(s, blank).data| && Added(s, blank).data[i].value == blank
  {
    hide GetHandleID, GrantedHandle;
  }

  lemma SlotGranted(t: Trace)
    requires Sound(t) && Allowed(t, Add)
    ensures GetHandleID(GrantedHandle(t.slots)) <= |t.slots.data| <= SLOTS
  {
    hide FreeSound, HistorySound;
    if t.slots.free == [] {
      AddFreshShape(t);
    } else {
      var i := AddReusedShape(t);
    }
    hide GetHandleID, GrantedHandle, Next;
  }

  lemma BlankThere<T>(s: Slots<T>, t: Trace, blank: T)
    requires Sound(t) && Allowed(t, Add) && t.slots == Bare(s)
    ensures var i := GetHandleID(GrantedHandle(s)); i < |Added(s, blank).data| && Added(s, blank).data[i].value == blank
  {
    hide Sound, Allowed, GetHandleID, Bumped, MakeObjectHandle;
    SlotGranted(t);
    BlankAt(s, blank);
  }

  lemma OthersUntouched<T>(s: Slots<T>, t: Trace, op: Op, blank: T, h: ObjectHandle)
    requires Sound(t) && Allowed(t, op) && t.slots == Bare(s) && h in t.live && op != Remove(h)
    requires Got(s, h) == Some(GetHandleID(h)) && Got(Played(s, op, blank), h) == Some(GetHandleID(h))
    ensures ValueAt(Played(s, op, blank), h) == ValueAt(s, h)
  {
    if op.Add? {
      assert GrantedHandle(s) !in t.live by { FreshHandle(t); }
      hide Sound;
    }
    hide MakeObjectHandle, Bumped, MarkDeleted;
  }

  lemma FreshHandle(t: Trace)
    requires Sound(t) && Allowed(t, Add)
    ensures GrantedHandle(t.slots) !in t.issued && GrantedHandle(t.slots) !in t.live
  {
    StepSoundExactly(t, Add);
  }

  function PlayedAll<T>(s: Slots<T>, ops: seq<Op>, blank: T): Slots<T>
    decreases |ops|
  {
    if ops == [] then s else PlayedAll(Played(s, ops[0], blank), ops[1..], blank)
  }

  /** Throughout a run a value stays behind its handle until that handle is removed. */
  lemma {:induction false} RunKeepsValues<T>(s: Slots<T>, t: Trace, ops: seq<Op>, blank: T, h: ObjectHandle)
    requires Sound(t) && AllAllowed(t, ops) && t.slots == Bare(s) && h in t.live
    requires forall i | 0 <= i < |ops| :: ops[i] != Remove(h)
    ensures h in Exec(t, ops).live && ValueAt(PlayedAll(s, ops, blank), h) == ValueAt(s, h)
    decreases |ops|
  {
    hide Sound, Allowed, Next, Played, ValueAt, Bare;
    if ops != [] {
      StepSound(t, ops[0]);
      StepKeepsValues(s, t, ops[0], blank, h);
      BarePlayed(s, t, ops[0], blank);
      RunKeepsValues(Played(s, ops[0], blank), Next(t, ops[0]), ops[1..], blank, h);
    }
  }
}
