/** Local memory accesses of src/backend/bir/bir_route3_memory.cpp: records, load sources, forwarding. */
module Route3 {
  import opened Machine
  import opened Bir
  import opened Folds
  import opened Route1

  datatype NodeKind = LoadLocalNode | LoadGlobalNode | StoreLocalNode | StoreGlobalNode

  datatype Access =
    Access(index: nat, kind: NodeKind, base: BaseKind, offset: I64, size: U64, slotName: string, slotId: Option<nat>,
           result: Option<Value>, stored: Option<Value>)

  function NodeKindOf(inst: Inst): Option<NodeKind>
  {
    match inst
    case LoadLocal(_, _) => Some(LoadLocalNode)
    case LoadGlobal(_, _, _) => Some(LoadGlobalNode)
    case StoreLocal(_, _) => Some(StoreLocalNode)
    case StoreGlobal(_, _, _) => Some(StoreGlobalNode)
    case _ => None
  }

  /** `route3_memory_access_record`. */
  function AccessAt(b: Block, i: nat): Option<Access>
  {
    if i >= |b.insts| || NodeKindOf(b.insts[i]).None? || b.insts[i].address.None? ||
      b.insts[i].address.value.base.LabelBase?
    then None
    else
      var inst := b.insts[i];
      var a, loads := inst.address.value, inst.LoadLocal? || inst.LoadGlobal?;
      Some(Access(i, NodeKindOf(inst).value, a.base, a.byteOffset, a.sizeBytes,
                  if a.base.LocalSlot? then a.baseName else "", if a.base.LocalSlot? then a.slotId else None,
                  if loads then Some(inst.result) else None, if loads then None else Some(inst.value)))
  }

  /** Every load and store with an address is an access, unless the address is a label; its record copies that. */
  lemma AccessExact(b: Block, i: nat)
    ensures AccessAt(b, i).Some? <==>
            && i < |b.insts|
            && (var inst := b.insts[i];
                (inst.LoadLocal? || inst.LoadGlobal? || inst.StoreLocal? || inst.StoreGlobal?) &&
                inst.address.Some? && !inst.address.value.base.LabelBase?)
    ensures AccessAt(b, i).Some? ==>
              var inst, a := b.insts[i], AccessAt(b, i).value;
              && a.index == i && a.base == inst.address.value.base
              && a.offset == inst.address.value.byteOffset && a.size == inst.address.value.sizeBytes
              && (a.result.Some? <==> DefinedValue(inst).Some?) && (a.result.Some? ==> a.result == DefinedValue(inst))
              && (a.stored.Some? <==> DefinedValue(inst).None?) && (a.stored.Some? ==> a.stored.value == inst.value)
              && (a.base.LocalSlot? ==>
                    a.slotName == inst.address.value.baseName && a.slotId == inst.address.value.slotId)
              && (!a.base.LocalSlot? ==> a.slotName == "" && a.slotId.None?)
  {
  }

  ghost predicate IsAccessIndex(b: Block, records: seq<Access>, n: nat)
  {
    && (forall a :: a in records ==> a.index < n && AccessAt(b, a.index) == Some(a))
    && (forall i :: 0 <= i < n && AccessAt(b, i).Some? ==> AccessAt(b, i).value in records)
    && (forall k, l :: 0 <= k < l < |records| ==> records[k].index < records[l].index)
  }

  /** `route3_build_memory_access_index`. */
  method BuildAccessIndex(b: Block) returns (records: seq<Access>)
    ensures IsAccessIndex(b, records, |b.insts|)
  {
    records := [];
    for i := 0 to |b.insts|
      invariant IsAccessIndex(b, records, i)
    {
      var a := AccessAt(b, i);
      if a.Some? {
        records := records + [a.value];
      }
    }
  }

  // ------------------------------------------------------ slots and ranges

  /** Ids decide when both are known, names otherwise. */
  predicate SameSlot(l: Access, r: Access)
  {
    && l.base.LocalSlot? && r.base.LocalSlot?
    && if l.slotId.Some? && r.slotId.Some? then l.slotId == r.slotId else l.slotName != "" && l.slotName == r.slotName
  }

  predicate SameRange(l: Access, r: Access)
  {
    SameSlot(l, r) && l.offset == r.offset && l.size != 0 && l.size == r.size
  }

  /** The ends are `int64_t` sums. */
  function End(a: Access): int
  {
    ToI64(a.offset + ToI64(a.size))
  }

  predicate RangesOverlap(l: Access, r: Access)
  {
    SameSlot(l, r) && l.size != 0 && r.size != 0 && l.offset < End(r) && r.offset < End(l)
  }

  predicate EndFits(a: Access)
  {
    a.size <= INT64_MAX && a.offset + a.size <= INT64_MAX
  }

  predicate Covers(a: Access, k: int)
  {
    a.offset <= k < a.offset + a.size
  }

  lemma EndExact(a: Access)
    requires EndFits(a)
    ensures End(a) == a.offset + a.size
  {
  }

  /** Where the ends fit `int64_t`, overlapping means sharing a byte. */
  lemma OverlapExact(l: Access, r: Access)
    requires EndFits(l) && EndFits(r) && SameSlot(l, r)
    ensures RangesOverlap(l, r) <==> exists k :: Covers(l, k) && Covers(r, k)
  {
    hide End;
    EndExact(l);
    EndExact(r);
    if RangesOverlap(l, r) {
      var k := if l.offset < r.offset then r.offset else l.offset;
      assert Covers(l, k) && Covers(r, k);
    }
  }

  /** Past `int64_t` the test fails: these two accesses share two bytes and are found apart. */
  lemma OverlapWraps()
    ensures var l := Access(0, LoadLocalNode, LocalSlot, INT64_MAX - 3, 8, "s", None, None, None);
            var r := Access(1, StoreLocalNode, LocalSlot, INT64_MAX - 1, 2, "s", None, None, None);
            && SameSlot(l, r) && !RangesOverlap(l, r) && !EndFits(l)
            && Covers(l, INT64_MAX - 1) && Covers(r, INT64_MAX - 1)
  {
  }

  // ------------------------------------------------------ searching accesses

  /** The last access before instruction `n` that satisfies a test. */
  function LastAccess(b: Block, p: Access -> bool, n: nat): (r: Option<Access>)
    ensures r.Some? ==> r.value.index < n && AccessAt(b, r.value.index) == r && p(r.value)
    ensures r.Some? ==> forall i :: r.value.index < i < n && AccessAt(b, i).Some? ==> !p(AccessAt(b, i).value)
    ensures r.None? ==> forall i :: 0 <= i < n && AccessAt(b, i).Some? ==> !p(AccessAt(b, i).value)
  {
    if n == 0 then None
    else if AccessAt(b, n - 1).Some? && p(AccessAt(b, n - 1).value) then AccessAt(b, n - 1)
    else LastAccess(b, p, n - 1)
  }

  /** The first access from instruction `n` on that satisfies a test. */
  function FirstAccess(b: Block, p: Access -> bool, n: nat): (r: Option<Access>)
    ensures r.Some? ==> n <= r.value.index < |b.insts| && AccessAt(b, r.value.index) == r && p(r.value)
    ensures r.Some? ==> forall i :: n <= i < r.value.index && AccessAt(b, i).Some? ==> !p(AccessAt(b, i).value)
    ensures r.None? ==> forall i :: n <= i < |b.insts| && AccessAt(b, i).Some? ==> !p(AccessAt(b, i).value)
    decreases |b.insts| - n
  {
    if n >= |b.insts| then None
    else if AccessAt(b, n).Some? && p(AccessAt(b, n).value) then AccessAt(b, n)
    else FirstAccess(b, p, n + 1)
  }

  /** A reverse scan of the index. */
  method ScanBackward(records: seq<Access>, p: Access -> bool, ghost b: Block) returns (r: Option<Access>)
    requires IsAccessIndex(b, records, |b.insts|)
    ensures r == LastAccess(b, p, |b.insts|)
  {
    var k := |records|;
    while k > 0
      invariant 0 <= k <= |records|
      invariant forall l :: k <= l < |records| ==> !p(records[l])
    {
      k := k - 1;
      if p(records[k]) {
        assert records[k] in records;
        return Some(records[k]);
      }
    }
    return None;
  }

  /** A forward scan of the index. */
  method ScanForward(records: seq<Access>, p: Access -> bool, ghost b: Block) returns (r: Option<Access>)
    requires IsAccessIndex(b, records, |b.insts|)
    ensures r == FirstAccess(b, p, 0)
  {
    for k := 0 to |records|
      invariant forall l :: 0 <= l < k ==> !p(records[l])
    {
      if p(records[k]) {
        assert records[k] in records;
        return Some(records[k]);
      }
    }
    return None;
  }

  // ------------------------------------------------------ load sources

  /** Which load gave a value, and whether a store to its slot stands between it and the query. */
  datatype LoadSource =
    LoadSource(available: bool, loadIndex: Option<nat>, load: Option<Access>, invalidating: Option<Access>,
               sourceAvailable: bool)

  const NO_SOURCE := LoadSource(false, None, None, None, false)

  function LoadOf(v: Value, before: nat): Access -> bool
  {
    (a: Access) => a.kind.LoadLocalNode? && a.base.LocalSlot? && a.index < before && a.result.Some? &&
      SameValue(a.result.value, v)
  }

  function StoreToSlotAfter(load: Access, before: nat): Access -> bool
  {
    (a: Access) => a.kind.StoreLocalNode? && load.index < a.index < before && SameSlot(load, a)
  }

  /** `route3_same_block_load_local_source_record`: from the producer, scanning the block. */
  function DirectSource(b: Block, v: Value, before: nat): LoadSource
  {
    if !IsNamed(v) then NO_SOURCE
    else
      var nothing := NO_SOURCE.(available := true);
      match LastProducer(b, v, before)
      case None => nothing
      case Some(i) =>
        if !b.insts[i].LoadLocal? then nothing
        else
          var load := AccessAt(b, i);
          if load.None? || !load.value.base.LocalSlot? then nothing.(loadIndex := Some(i), load := load)
          else
            var store := FirstAccess(b, StoreToSlotAfter(load.value, before), i + 1);
            LoadSource(true, Some(i), load, store, store.None?)
  }

  /** The direct form asks for the producer, then walks the instructions after it. */
  method SameBlockLoadSource(records: seq<ProducerRecord>, b: Block, v: Value, before: nat) returns (r: LoadSource)
    requires IsIndex(b, records)
    ensures r == DirectSource(b, v, before)
  {
    if !IsNamed(v) {
      return NO_SOURCE;
    }
    r := NO_SOURCE.(available := true);
    var producer := FindScalarProducer(records, v, before, b);
    if producer.None? || !producer.value.kind.LoadLocalKind? {
      return;
    }
    var i := producer.value.index;
    var load := AccessAt(b, i);
    r := r.(loadIndex := Some(i), load := load);
    if load.None? || !load.value.base.LocalSlot? {
      return;
    }
    for j := i + 1 to Limit(b, before)
      invariant forall k :: i < k < j && AccessAt(b, k).Some? ==>
                !StoreToSlotAfter(load.value, before)(AccessAt(b, k).value)
    {
      var store := AccessAt(b, j);
      if store.Some? && store.value.kind.StoreLocalNode? && SameSlot(load.value, store.value) {
        return r.(invalidating := store);
      }
    }
    return r.(sourceAvailable := true);
  }

  /** `route3_find_same_block_load_local_source`: from the index alone. */
  method FindLoadSource(records: seq<Access>, v: Value, before: nat, ghost b: Block) returns (r: LoadSource)
    requires IsAccessIndex(b, records, |b.insts|)
    ensures r == IndexSource(b, v, before)
  {
    if !IsNamed(v) {
      return NO_SOURCE;
    }
    var load := ScanBackward(records, LoadOf(v, before), b);
    if load.None? {
      return NO_SOURCE.(available := true);
    }
    var store := ScanForward(records, StoreToSlotAfter(load.value, before), b);
    return LoadSource(true, Some(load.value.index), load, store, store.None?);
  }

  function IndexSource(b: Block, v: Value, before: nat): LoadSource
  {
    if !IsNamed(v) then NO_SOURCE
    else
      match LastAccess(b, LoadOf(v, before), |b.insts|)
      case None => NO_SOURCE.(available := true)
      case Some(load) =>
        var store := FirstAccess(b, StoreToSlotAfter(load, before), 0);
        LoadSource(true, Some(load.index), Some(load), store, store.None?)
  }

  /** The producing instruction, when it is a load, says which slot it reads. */
  predicate LoadNamesItsSlot(b: Block, v: Value, before: nat)
  {
    LastProducer(b, v, before).Some? && b.insts[LastProducer(b, v, before).value].LoadLocal? ==>
      IsLocalAddress(b.insts[LastProducer(b, v, before).value].address)
  }

  lemma FirstStoreAfter(b: Block, load: Access, before: nat)
    requires load.index < |b.insts|
    ensures FirstAccess(b, StoreToSlotAfter(load, before), 0) ==
            FirstAccess(b, StoreToSlotAfter(load, before), load.index + 1)
  {
  }

  lemma LastLoadIsProducer(b: Block, v: Value, before: nat)
    requires DefinedOnce(b) && IsNamed(v)
    ensures LastAccess(b, LoadOf(v, before), |b.insts|).Some? ==>
              LastProducer(b, v, before) == Some(LastAccess(b, LoadOf(v, before), |b.insts|).value.index)
    ensures LastAccess(b, LoadOf(v, before), |b.insts|).None? && LastProducer(b, v, before).Some? ==>
              var i := LastProducer(b, v, before).value;
              b.insts[i].LoadLocal? ==> AccessAt(b, i).None? || !AccessAt(b, i).value.base.LocalSlot?
  {
    var load := LastAccess(b, LoadOf(v, before), |b.insts|);
    if load.Some? {
      var i := load.value.index;
      assert Produces(b, i, v) && Defines(b.insts[i], v.name);
      var j := LastProducer(b, v, before).value;
      assert Defines(b.insts[j], v.name);
    }
  }

  /**
   The two forms agree on freshness and on the invalidating store whenever names are defined once;
   they agree on the load's position exactly when the producing load names its slot.
   */
  lemma SourceFormsAgree(b: Block, v: Value, before: nat)
    requires DefinedOnce(b)
    ensures var d, x := DirectSource(b, v, before), IndexSource(b, v, before);
            && d.available == x.available && d.sourceAvailable == x.sourceAvailable && d.invalidating == x.invalidating
            && (d.loadIndex == x.loadIndex <==> LoadNamesItsSlot(b, v, before))
  {
    if IsNamed(v) {
      LastLoadIsProducer(b, v, before);
      var load := LastAccess(b, LoadOf(v, before), |b.insts|);
      if load.Some? {
        FirstStoreAfter(b, load.value, before);
      }
    }
  }

  /** A load without an address: the direct form reports where it is, the index form does not. */
  lemma PositionDisagreement()
    ensures var v := Named(Int64, "x");
            var b := Block("", None, [LoadLocal(v, None)], OtherTerminator);
            DefinedOnce(b) && DirectSource(b, v, 1).loadIndex == Some(0) && IndexSource(b, v, 1).loadIndex == None
  {
    var v := Named(Int64, "x");
    var b := Block("", None, [LoadLocal(v, None)], OtherTerminator);
    assert Produces(b, 0, v);
  }

  // ------------------------------------------------------ forwarding

  datatype StoredSource =
    StoredSource(available: bool, load: Option<Access>, store: Option<Access>, stored: Option<Value>,
                 sourceAvailable: bool)

  const NO_STORE := StoredSource(false, None, None, None, false)

  /** A store before the load that touches its bytes. */
  function StoreTouching(load: Access): Access -> bool
  {
    (a: Access) =>
      && a.kind.StoreLocalNode? && a.base.LocalSlot? && a.index < load.index && SameSlot(load, a)
      && (SameRange(load, a) || RangesOverlap(load, a))
  }

  function StoredValueSource(b: Block, v: Value, before: nat): StoredSource
  {
    if !IsNamed(v) then NO_STORE
    else
      match LastAccess(b, LoadOf(v, before), |b.insts|)
      case None => NO_STORE.(available := true)
      case Some(load) =>
        var nothing := NO_STORE.(available := true, load := Some(load));
        match LastAccess(b, StoreTouching(load), |b.insts|)
        case None => nothing
        case Some(store) =>
          if SameRange(load, store) then nothing.(store := Some(store), stored := store.stored, sourceAvailable := true)
          else nothing
  }

  /** `route3_find_same_block_load_local_stored_value_source`. */
  method FindStoredValueSource(records: seq<Access>, v: Value, before: nat, ghost b: Block) returns (r: StoredSource)
    requires IsAccessIndex(b, records, |b.insts|)
    ensures r == StoredValueSource(b, v, before)
  {
    if !IsNamed(v) {
      return NO_STORE;
    }
    r := NO_STORE.(available := true);
    var found := ScanBackward(records, LoadOf(v, before), b);
    if found.None? {
      return;
    }
    var load := found.value;
    r := r.(load := found);
    var k := |records|;
    while k > 0
      invariant 0 <= k <= |records|
      invariant forall l :: k <= l < |records| ==> !StoreTouching(load)(records[l])
    {
      k := k - 1;
      var candidate := records[k];
      assert candidate in records;
      if !candidate.kind.StoreLocalNode? || !candidate.base.LocalSlot? || candidate.index >= load.index ||
        !SameSlot(load, candidate) {
        continue;
      }
      if !SameRange(load, candidate) {
        if RangesOverlap(load, candidate) {
          LastTouching(b, records, load, k);
          return;
        }
        continue;
      }
      LastTouching(b, records, load, k);
      return r.(store := Some(candidate), stored := candidate.stored, sourceAvailable := true);
    }
  }

  lemma LastTouching(b: Block, records: seq<Access>, load: Access, k: nat)
    requires IsAccessIndex(b, records, |b.insts|) && k < |records| && StoreTouching(load)(records[k])
    requires forall l :: k < l < |records| ==> !StoreTouching(load)(records[l])
    ensures LastAccess(b, StoreTouching(load), |b.insts|) == Some(records[k])
  {
    assert records[k] in records;
  }

  // ------------------------------------------------------ when a source is reported

  /** Instruction `i` stores to the slot that the load reads. */
  predicate StoresToSlot(b: Block, i: nat, load: Access)
  {
    i < |b.insts| && IsLocalStore(b.insts[i]) && SameSlot(load, AccessAt(b, i).value)
  }

  /** It does so without leaving every byte of the load alone. */
  ghost predicate ReachesInto(b: Block, i: nat, load: Access)
  {
    StoresToSlot(b, i, load) && exists k :: Covers(AccessAt(b, i).value, k) && Covers(load, k)
  }

  /** Instruction `i` is a load of the value from a slot. */
  predicate LoadsFromSlot(b: Block, i: nat, v: Value)
  {
    i < |b.insts| && b.insts[i].LoadLocal? && IsLocalAddress(b.insts[i].address) && SameValue(b.insts[i].result, v)
  }

  /** The last load of the value before the position. */
  ghost predicate LastLoad(b: Block, v: Value, before: nat, i: nat)
  {
    i < before && LoadsFromSlot(b, i, v) && forall j: nat :: i < j < before ==> !LoadsFromSlot(b, j, v)
  }

  lemma SearchedLoad(b: Block, v: Value, before: nat, i: nat)
    ensures AccessAt(b, i).Some? && LoadOf(v, before)(AccessAt(b, i).value) <==> i < before && LoadsFromSlot(b, i, v)
  {
  }

  lemma SearchedStore(b: Block, load: Access, before: nat, i: nat)
    ensures AccessAt(b, i).Some? && StoreToSlotAfter(load, before)(AccessAt(b, i).value) <==>
            load.index < i < before && StoresToSlot(b, i, load)
  {
  }

  /** Instruction `j` is the first after the load, and before the position, that stores to its slot. */
  ghost predicate FirstStore(b: Block, load: Access, before: nat, j: nat)
  {
    && load.index < j < before && StoresToSlot(b, j, load)
    && forall k: nat :: load.index < k < j ==> !StoresToSlot(b, k, load)
  }

  lemma FirstStoreExact(b: Block, load: Access, before: nat, n: nat)
    requires n <= load.index + 1
    ensures var found := FirstAccess(b, StoreToSlotAfter(load, before), n);
            && (found.None? <==> forall j: nat :: load.index < j < before ==> !StoresToSlot(b, j, load))
            && (forall j: nat :: FirstStore(b, load, before, j) ==> found == AccessAt(b, j))
  {
    hide StoreToSlotAfter, StoresToSlot;
    forall j: nat
      ensures AccessAt(b, j).Some? && StoreToSlotAfter(load, before)(AccessAt(b, j).value) <==>
              load.index < j < before && StoresToSlot(b, j, load)
    {
      SearchedStore(b, load, before, j);
    }
    StoresInBlock(b, load);
    var found := FirstAccess(b, StoreToSlotAfter(load, before), n);
    forall j: nat | FirstStore(b, load, before, j)
      ensures found == AccessAt(b, j)
    {
      assert found.Some? && found.value.index == j;
    }
  }

  /**
   A load source is available exactly when the producer of the value is a load that names its slot and
   no instruction from there to the position stores to that slot; otherwise the first that does is named.
   */
  lemma FreshExact(b: Block, v: Value, before: nat)
    ensures DirectSource(b, v, before).sourceAvailable <==>
            && LastProducer(b, v, before).Some?
            && var i := LastProducer(b, v, before).value;
               && LoadsFromSlot(b, i, v)
               && forall j: nat :: i < j < before ==> !StoresToSlot(b, j, AccessAt(b, i).value)
    ensures forall i: nat, j: nat ::
              && LastProducer(b, v, before) == Some(i) && LoadsFromSlot(b, i, v)
              && FirstStore(b, AccessAt(b, i).value, before, j) ==>
                DirectSource(b, v, before).invalidating == AccessAt(b, j)
  {
    hide StoreToSlotAfter, StoresToSlot, FirstStore, FirstAccess;
    if LastProducer(b, v, before).Some? {
      var i := LastProducer(b, v, before).value;
      if LoadsFromSlot(b, i, v) {
        FirstStoreExact(b, AccessAt(b, i).value, before, i + 1);
      }
    }
  }

  /** The same from the index alone, for the last load of the value. */
  lemma IndexFreshExact(b: Block, v: Value, before: nat)
    ensures IndexSource(b, v, before).sourceAvailable <==>
            && IsNamed(v)
            && exists i: nat :: && LastLoad(b, v, before, i) && AccessAt(b, i).Some?
                                && forall j: nat :: i < j < before ==> !StoresToSlot(b, j, AccessAt(b, i).value)
  {
    hide StoreToSlotAfter, StoresToSlot, LoadOf, LastLoad, FirstAccess, LastAccess;
    LastLoadExact(b, v, before);
    SearchedPosition(b, v, before);
    var found := LastAccess(b, LoadOf(v, before), |b.insts|);
    if found.Some? {
      FirstStoreExact(b, found.value, before, 0);
      AccessIndex(b, found.value.index);
    }
  }

  lemma AccessIndex(b: Block, i: nat)
    ensures AccessAt(b, i).Some? ==> AccessAt(b, i).value.index == i
  {
  }

  lemma StoresInBlock(b: Block, load: Access)
    ensures forall j: nat :: StoresToSlot(b, j, load) ==> j < |b.insts| && AccessAt(b, j).Some?
  {
  }

  /** The ends of the load and of the stores to its slot before it fit `int64_t`. */
  ghost predicate EndsFit(b: Block, load: Access)
  {
    && EndFits(load)
    && forall i: nat :: i < load.index && StoresToSlot(b, i, load) ==> EndFits(AccessAt(b, i).value)
  }

  /** Instruction `s` stores exactly the load's range, and no store between it and the load reaches into that. */
  ghost predicate Forwards(b: Block, s: nat, load: Access)
  {
    && s < load.index && StoresToSlot(b, s, load)
    && AccessAt(b, s).value.offset == load.offset && AccessAt(b, s).value.size == load.size != 0
    && forall j: nat :: s < j < load.index ==> !ReachesInto(b, j, load)
  }

  lemma TouchingReaches(b: Block, load: Access, i: nat)
    requires EndsFit(b, load)
    ensures AccessAt(b, i).Some? && StoreTouching(load)(AccessAt(b, i).value) <==>
            i < load.index && ReachesInto(b, i, load)
  {
    hide End;
    if i < load.index && StoresToSlot(b, i, load) {
      var a := AccessAt(b, i).value;
      OverlapExact(load, a);
      if SameRange(load, a) {
        assert Covers(a, load.offset) && Covers(load, load.offset);
      }
    }
  }

  lemma ForwardingReaches(b: Block, s: nat, load: Access)
    requires Forwards(b, s, load)
    ensures ReachesInto(b, s, load) && SameRange(load, AccessAt(b, s).value)
    ensures AccessAt(b, s).value.stored == Some(b.insts[s].value) && AccessAt(b, s).value.index == s
  {
    assert Covers(AccessAt(b, s).value, load.offset) && Covers(load, load.offset);
  }

  lemma LastTouchingExact(b: Block, load: Access)
    requires EndsFit(b, load) && load.index < |b.insts|
    ensures var last := LastAccess(b, StoreTouching(load), |b.insts|);
            && (last.None? ==> forall j: nat :: j < load.index ==> !ReachesInto(b, j, load))
            && (last.Some? ==>
                  && last.value.index < load.index && AccessAt(b, last.value.index) == last
                  && ReachesInto(b, last.value.index, load)
                  && forall j: nat :: last.value.index < j < load.index ==> !ReachesInto(b, j, load))
  {
    hide StoreTouching, ReachesInto, EndsFit;
    forall i: nat
      ensures AccessAt(b, i).Some? && StoreTouching(load)(AccessAt(b, i).value) <==>
              i < load.index && ReachesInto(b, i, load)
    {
      TouchingReaches(b, load, i);
    }
  }

  /** The last store that touches the load has its range exactly when some store forwards to it. */
  lemma ForwardsExact(b: Block, load: Access)
    requires EndsFit(b, load) && load.index < |b.insts|
    ensures var last := LastAccess(b, StoreTouching(load), |b.insts|);
            && (last.Some? && SameRange(load, last.value) <==> exists s :: Forwards(b, s, load))
            && (forall s: nat :: Forwards(b, s, load) ==> last == AccessAt(b, s))
  {
    hide StoreTouching, ReachesInto, EndsFit, StoresToSlot, SameSlot;
    var last := LastAccess(b, StoreTouching(load), |b.insts|);
    LastTouchingExact(b, load);
    StoresInBlock(b, load);
    if last.Some? && SameRange(load, last.value) {
      ReachingStores(b, last.value.index, load);
      assert Forwards(b, last.value.index, load);
    }
    forall s: nat | Forwards(b, s, load)
      ensures last == AccessAt(b, s) && SameRange(load, last.value)
    {
      ForwardingReaches(b, s, load);
      assert last.Some? && last.value.index == s;
    }
  }

  lemma ReachingStores(b: Block, i: nat, load: Access)
    requires ReachesInto(b, i, load)
    ensures StoresToSlot(b, i, load)
  {
  }

  /** The last load is the one the search starts from. */
  lemma LastLoadExact(b: Block, v: Value, before: nat)
    ensures var found := LastAccess(b, LoadOf(v, before), |b.insts|);
            && (found.Some? <==> exists i :: LastLoad(b, v, before, i))
            && (forall i: nat :: LastLoad(b, v, before, i) ==> found == AccessAt(b, i))
            && (found.Some? ==> LastLoad(b, v, before, found.value.index) && found.value.index < |b.insts|)
  {
    hide LoadOf;
    var found := LastAccess(b, LoadOf(v, before), |b.insts|);
    forall i: nat
      ensures AccessAt(b, i).Some? && LoadOf(v, before)(AccessAt(b, i).value) <==> i < before && LoadsFromSlot(b, i, v)
    {
      SearchedLoad(b, v, before, i);
    }
    if found.Some? {
      assert LastLoad(b, v, before, found.value.index);
    }
  }

  /** The stored value of instruction `s` may stand for the value. */
  ghost predicate ForwardsTo(b: Block, v: Value, before: nat, i: nat, s: nat)
  {
    LastLoad(b, v, before, i) && AccessAt(b, i).Some? && Forwards(b, s, AccessAt(b, i).value)
  }

  /**
   A stored value is reported exactly when some store before the last load of the value wrote its range
   and no later store before the load reaches into that; it is what that store stored.
   */
  lemma StoredSourceExact(b: Block, v: Value, before: nat)
    requires forall i: nat :: LastLoad(b, v, before, i) && AccessAt(b, i).Some? ==> EndsFit(b, AccessAt(b, i).value)
    ensures StoredValueSource(b, v, before).sourceAvailable <==>
            IsNamed(v) && exists i, s :: ForwardsTo(b, v, before, i, s)
    ensures forall i: nat, s: nat :: IsNamed(v) && ForwardsTo(b, v, before, i, s) ==>
              StoredValueSource(b, v, before) == StoredSource(true, AccessAt(b, i), AccessAt(b, s),
                                                              AccessAt(b, s).value.stored, true)
  {
    hide StoreTouching, LoadOf, LastLoad, Forwards, SameRange, LastAccess, EndsFit;
    if IsNamed(v) {
      LastLoadExact(b, v, before);
      var found := LastAccess(b, LoadOf(v, before), |b.insts|);
      if found.Some? {
        SearchedPosition(b, v, before);
        ForwardsExact(b, found.value);
        if StoredValueSource(b, v, before).sourceAvailable {
          var s :| Forwards(b, s, found.value);
          assert ForwardsTo(b, v, before, found.value.index, s);
        }
      }
    }
  }

  lemma SearchedPosition(b: Block, v: Value, before: nat)
    ensures var found := LastAccess(b, LoadOf(v, before), |b.insts|);
            found.Some? ==> AccessAt(b, found.value.index) == found
  {
  }

  // ------------------------------------------------------ against execution

  ghost function AccessSlot(frame: Frame, a: Access): nat
  {
    frame(a.slotName, a.slotId)
  }

  /** Slot ids and names tell the same story about the frame. */
  ghost predicate SlotsAgree(frame: Frame, b: Block)
  {
    forall i, j :: 0 <= i < |b.insts| && 0 <= j < |b.insts| && IsLocal(b, i) && IsLocal(b, j) ==>
      (SameSlot(AccessAt(b, i).value, AccessAt(b, j).value) <==>
       AccessSlot(frame, AccessAt(b, i).value) == AccessSlot(frame, AccessAt(b, j).value))
  }

  predicate IsLocal(b: Block, i: nat)
  {
    AccessAt(b, i).Some? && AccessAt(b, i).value.base.LocalSlot?
  }

  /** No call, no store through a pointer and no store without an address between two states writes the slot. */
  ghost predicate OthersKeep(b: Block, states: seq<State>, slot: nat, from: nat, until: nat)
    requires |states| == |b.insts| + 1 && until <= |b.insts|
  {
    forall i :: from <= i < until && !KeepsMemory(b.insts[i]) && !IsLocalStore(b.insts[i]) ==> KeptAt(states, slot, i)
  }

  ghost predicate KeptAt(states: seq<State>, slot: nat, i: nat)
    requires i + 1 < |states|
  {
    forall k :: states[i + 1].mem(slot, k) == states[i].mem(slot, k)
  }

  /** A local store at `i`, if that is one, does not write byte `k` of the slot. */
  ghost predicate Spares(frame: Frame, b: Block, i: nat, slot: nat, k: int)
    requires i < |b.insts|
  {
    IsLocalStore(b.insts[i]) ==>
      var a := b.insts[i].address.value;
      SlotOf(frame, a) != slot || (a.sizeBytes > 0 && !InRange(a, k))
  }

  lemma {:induction false} ByteKept(frame: Frame, b: Block, states: seq<State>, slot: nat, k: int, from: nat,
                                    until: nat)
    requires Run(frame, b, states) && from <= until <= |b.insts| && OthersKeep(b, states, slot, from, until)
    requires forall i :: from <= i < until ==> Spares(frame, b, i, slot, k)
    ensures states[until].mem(slot, k) == states[from].mem(slot, k)
    decreases until
  {
    hide LoadStep, BinaryStep, EnvFrame;
    if from < until {
      ByteKept(frame, b, states, slot, k, from, until - 1);
      assert StepAt(frame, b, states, until - 1) && Spares(frame, b, until - 1, slot, k);
    }
  }

  lemma {:induction false} SameBytesSameWord(m: (nat, int) -> U8, m': (nat, int) -> U8, slot: nat, from: int, n: nat)
    requires forall k :: from <= k < from + n ==> m(slot, k) == m'(slot, k)
    ensures ReadWord(m, slot, from, n) == ReadWord(m', slot, from, n)
    decreases n
  {
    if n > 0 {
      SameBytesSameWord(m, m', slot, from + 1, n - 1);
    }
  }

  lemma LocalAccessShape(frame: Frame, b: Block, i: nat)
    requires i < |b.insts|
    ensures IsLocalStore(b.insts[i]) <==> IsLocal(b, i) && AccessAt(b, i).value.kind.StoreLocalNode?
    ensures IsLocal(b, i) ==>
              var a, x := b.insts[i].address.value, AccessAt(b, i).value;
              SlotOf(frame, a) == AccessSlot(frame, x) && a.byteOffset == x.offset && a.sizeBytes == x.size &&
                x.index == i
  {
  }

  /** The value a load leaves, when it still stands before the query. */
  lemma LoadedValue(frame: Frame, b: Block, states: seq<State>, v: Value, load: Access, before: nat)
    requires Run(frame, b, states) && DefinedOnce(b) && IsNamed(v)
    requires AccessAt(b, load.index) == Some(load) && LoadOf(v, before)(load) && 0 < load.size <= 8
    ensures var s := states[Limit(b, before)];
            v.name in s.env &&
            s.env[v.name] == ReadWord(states[load.index].mem, AccessSlot(frame, load), load.offset, load.size)
  {
    hide BinaryStep, StoreStep, EnvFrame, ReadWord;
    assert StepAt(frame, b, states, load.index) &&
           LoadStep(frame, b.insts[load.index], states[load.index], states[load.index + 1]);
    assert Defines(b.insts[load.index], v.name);
    EnvPersists(frame, b, states, v.name, load.index + 1, Limit(b, before));
  }

  /**
   Freshness: if the source is available, reading the slot again at the query point gives the bytes
   the load read; with names defined once, the value still is the number they spell.
   */
  lemma LoadIsFresh(frame: Frame, b: Block, states: seq<State>, v: Value, before: nat)
    requires Run(frame, b, states) && SlotsAgree(frame, b)
    requires DirectSource(b, v, before).sourceAvailable
    requires var load := DirectSource(b, v, before).load.value;
             load.index <= Limit(b, before) &&
               OthersKeep(b, states, AccessSlot(frame, load), load.index, Limit(b, before))
    ensures var load, now := DirectSource(b, v, before).load.value, states[Limit(b, before)];
            var slot := AccessSlot(frame, load);
            && (forall k :: now.mem(slot, k) == states[load.index].mem(slot, k))
            && (DefinedOnce(b) && 0 < load.size <= 8 ==>
                  v.name in now.env && now.env[v.name] == ReadWord(now.mem, slot, load.offset, load.size))
  {
    hide ReadWord, StepAt;
    var load, until := DirectSource(b, v, before).load.value, Limit(b, before);
    var slot := AccessSlot(frame, load);
    forall i, k | load.index <= i < until
      ensures Spares(frame, b, i, slot, k)
    {
      LocalAccessShape(frame, b, i);
      LocalAccessShape(frame, b, load.index);
    }
    forall k
      ensures states[until].mem(slot, k) == states[load.index].mem(slot, k)
    {
      ByteKept(frame, b, states, slot, k, load.index, until);
    }
    if DefinedOnce(b) && 0 < load.size <= 8 {
      LoadedValue(frame, b, states, v, load, before);
      SameBytesSameWord(states[load.index].mem, states[until].mem, slot, load.offset, load.size);
    }
  }

  // The bytes of a word spell its low part.

  lemma {:induction false} WordFromBytes(m: (nat, int) -> U8, slot: nat, from: int, n: nat, w: nat)
    requires forall k :: from <= k < from + n ==> m(slot, k) == ByteOf(w, k - from)
    ensures ReadWord(m, slot, from, n) == w % Pow256(n)
    decreases n
  {
    if n > 0 {
      forall k | from + 1 <= k < from + 1 + (n - 1)
        ensures m(slot, k) == ByteOf(w / 256, k - (from + 1))
      {
        assert ByteOf(w, k - from) == ByteOf(w / 256, k - from - 1);
      }
      WordFromBytes(m, slot, from + 1, n - 1, w / 256);
      LowDigit(w, Pow256(n - 1));
    }
  }

  lemma LowDigit(w: nat, p: nat)
    requires p >= 1
    ensures w % (256 * p) == w % 256 + 256 * (w / 256 % p)
  {
    var q, r := w / 256, w % 256;
    var h, l := q / p, q % p;
    assert w == 256 * q + r && q == h * p + l;
    var rest := r + 256 * l;
    assert w == h * (256 * p) + rest by { assert 256 * (h * p) == h * (256 * p); }
    assert 0 <= rest < 256 * p;
    UniqueRemainder(w, 256 * p, h, rest);
  }

  lemma UniqueRemainder(w: int, m: nat, h: int, rest: int)
    requires m >= 1 && w == h * m + rest && 0 <= rest < m
    ensures w % m == rest
  {
    var h', r' := w / m, w % m;
    assert w == h' * m + r';
    assert (h - h') * m == r' - rest by { assert (h - h') * m == h * m - h' * m; }
    SmallMultiple(h - h', m, r' - rest);
  }

  /** Stores to the load's slot have known sizes and ends that fit. */
  ghost predicate SizedStores(b: Block, load: Access)
  {
    EndFits(load) &&
    forall i :: 0 <= i < load.index && IsLocal(b, i) &&
                AccessAt(b, i).value.kind.StoreLocalNode? && SameSlot(load, AccessAt(b, i).value) ==>
      AccessAt(b, i).value.size > 0 && EndFits(AccessAt(b, i).value)
  }

  /** Nothing after the reported store touches the load's range before the load. */
  lemma RangeKept(frame: Frame, b: Block, states: seq<State>, load: Access, store: Access, k: int)
    requires Run(frame, b, states) && SlotsAgree(frame, b) && SizedStores(b, load)
    requires AccessAt(b, load.index) == Some(load) && load.base.LocalSlot?
    requires LastAccess(b, StoreTouching(load), |b.insts|) == Some(store)
    requires OthersKeep(b, states, AccessSlot(frame, load), store.index + 1, load.index) && Covers(load, k)
    ensures var slot := AccessSlot(frame, load);
            states[load.index].mem(slot, k) == states[store.index + 1].mem(slot, k)
  {
    hide StepAt, End, SizedStores, SlotsAgree;
    forall i | store.index + 1 <= i < load.index
      ensures Spares(frame, b, i, AccessSlot(frame, load), k)
    {
      LaterStoreSpares(frame, b, load, store, i, k);
    }
    ByteKept(frame, b, states, AccessSlot(frame, load), k, store.index + 1, load.index);
  }

  /** The bytes of the load's range at the load are those the reported store wrote. */
  lemma StoredBytes(frame: Frame, b: Block, states: seq<State>, load: Access, store: Access, w: U64, k: int)
    requires Run(frame, b, states) && SlotsAgree(frame, b) && SizedStores(b, load)
    requires AccessAt(b, load.index) == Some(load) && load.base.LocalSlot?
    requires LastAccess(b, StoreTouching(load), |b.insts|) == Some(store) && SameRange(load, store)
    requires OthersKeep(b, states, AccessSlot(frame, load), store.index + 1, load.index)
    requires store.stored.Some? && Holds(states[store.index], store.stored.value, w) && Covers(load, k)
    ensures states[load.index].mem(AccessSlot(frame, load), k) == ByteOf(w, k - load.offset)
  {
    hide LoadStep, BinaryStep, EnvFrame, ByteOf, End;
    var slot := AccessSlot(frame, load);
    LocalAccessShape(frame, b, load.index);
    LocalAccessShape(frame, b, store.index);
    assert StepAt(frame, b, states, store.index);
    assert states[store.index + 1].mem(slot, k) == ByteOf(w, k - load.offset);
    RangeKept(frame, b, states, load, store, k);
  }

  lemma LaterStoreSpares(frame: Frame, b: Block, load: Access, store: Access, i: nat, k: int)
    requires SlotsAgree(frame, b) && SizedStores(b, load) && AccessAt(b, load.index) == Some(load) &&
             load.base.LocalSlot?
    requires LastAccess(b, StoreTouching(load), |b.insts|) == Some(store) && store.index < i < load.index &&
             Covers(load, k)
    ensures Spares(frame, b, i, AccessSlot(frame, load), k)
  {
    hide End;
    LocalAccessShape(frame, b, i);
    LocalAccessShape(frame, b, load.index);
    if IsLocalStore(b.insts[i]) && AccessSlot(frame, AccessAt(b, i).value) == AccessSlot(frame, load) {
      var a := AccessAt(b, i).value;
      assert SameSlot(load, a) && !StoreTouching(load)(a);
      OverlapExact(load, a);
    }
  }

  /**
   Forwarding at any width: a reported store covers exactly the loaded range, and at the load that range
   still holds what the store left there.
   */
  lemma ForwardedRange(frame: Frame, b: Block, states: seq<State>, v: Value, before: nat)
    requires Run(frame, b, states) && SlotsAgree(frame, b)
    requires StoredValueSource(b, v, before).sourceAvailable
    requires var src := StoredValueSource(b, v, before);
             var load, store := src.load.value, src.store.value;
             && SizedStores(b, load) && load.index <= |b.insts|
             && OthersKeep(b, states, AccessSlot(frame, load), store.index + 1, load.index)
    ensures var src := StoredValueSource(b, v, before);
            var load, store, slot := src.load.value, src.store.value, AccessSlot(frame, src.load.value);
            && AccessSlot(frame, store) == slot && store.index < load.index
            && forall k :: Covers(load, k) ==>
                 Covers(store, k) && states[load.index].mem(slot, k) == states[store.index + 1].mem(slot, k)
  {
    hide StepAt, OthersKeep, SizedStores;
    var src := StoredValueSource(b, v, before);
    var load, store := src.load.value, src.store.value;
    forall k | Covers(load, k)
      ensures Covers(store, k)
      ensures states[load.index].mem(AccessSlot(frame, load), k) ==
              states[store.index + 1].mem(AccessSlot(frame, load), k)
    {
      RangeKept(frame, b, states, load, store, k);
    }
  }

  /**
   Store-to-load forwarding: when a source store is reported, the loaded bytes are those that store
   wrote; with names defined once, a load of at most eight bytes gives the low bytes of the stored word.
   */
  lemma ForwardingSound(frame: Frame, b: Block, states: seq<State>, v: Value, before: nat, w: U64)
    requires Run(frame, b, states) && SlotsAgree(frame, b)
    requires StoredValueSource(b, v, before).sourceAvailable
    requires var load, store := StoredValueSource(b, v, before).load.value, StoredValueSource(b, v, before).store.value;
             && SizedStores(b, load) && load.index <= |b.insts|
             && OthersKeep(b, states, AccessSlot(frame, load), store.index + 1, load.index)
             && Holds(states[store.index], StoredValueSource(b, v, before).stored.value, w)
    ensures var load := StoredValueSource(b, v, before).load.value;
            && (forall k :: Covers(load, k) ==>
                  states[load.index].mem(AccessSlot(frame, load), k) == ByteOf(w, k - load.offset))
            && (DefinedOnce(b) && load.size <= 8 ==> Holds(states[Limit(b, before)], v, LowBytes(w, load.size)))
  {
    hide StepAt, ReadWord, ByteOf, SizedStores, SlotsAgree, Pow256, Holds;
    var load, store := StoredValueSource(b, v, before).load.value, StoredValueSource(b, v, before).store.value;
    var slot := AccessSlot(frame, load);
    forall k | Covers(load, k)
      ensures states[load.index].mem(slot, k) == ByteOf(w, k - load.offset)
    {
      StoredBytes(frame, b, states, load, store, w, k);
    }
    if DefinedOnce(b) && load.size <= 8 {
      LoadedValue(frame, b, states, v, load, before);
      WordFromBytes(states[load.index].mem, slot, load.offset, load.size, w);
      NowHolds(states[Limit(b, before)], v, LowBytes(w, load.size));
    }
  }

  lemma NowHolds(s: State, v: Value, w: U64)
    requires v.Named? && v.name in s.env && s.env[v.name] == w
    ensures Holds(s, v, w)
  {
  }
}
