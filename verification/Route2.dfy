/** The direct-global dependency search of src/backend/bir/bir_route2.cpp and its prebuilt index. */
module Route2 {
  import opened Machine
  import opened Bir
  import opened Route1

  /** What the search says of a value: nothing, no global load, or the load it meets first. */
  datatype Dependency = UnknownDependency | NoGlobalLoad | GlobalLoad(index: nat, globalName: string)

  const DEPTH_LIMIT: nat := 64

  /** `route2_find_direct_global_dependency`: of a select, only the two selected values are searched. */
  function FindDependency(b: Block, v: Value, before: nat, depth: nat): Dependency
    decreases before
  {
    if depth > DEPTH_LIMIT then UnknownDependency
    else
      match LastProducer(b, v, before)
      case None => UnknownDependency
      case Some(i) =>
        match b.insts[i]
        case LoadGlobal(_, name, _) => GlobalLoad(i, name)
        case LoadLocal(_, _) => NoGlobalLoad
        case Select(_, _, _, _, t, f) =>
          var first := FindDependency(b, t, i, depth + 1);
          if first.NoGlobalLoad? then FindDependency(b, f, i, depth + 1) else first
        case Cast(_, operand) => FindDependency(b, operand, i, depth + 1)
        case Binary(_, _, lhs, rhs) =>
          var first := FindDependency(b, lhs, i, depth + 1);
          if first.NoGlobalLoad? then FindDependency(b, rhs, i, depth + 1) else first
        case _ => UnknownDependency
  }

  // ------------------------------------------------------ the operand tree

  datatype Tree = Leaf(leaf: Dependency) | Unary(child: Tree) | Pair(left: Tree, right: Tree)

  /** The producers behind a value, down to loads and to values nothing is known of. */
  function OperandTree(b: Block, v: Value, before: nat): Tree
    decreases before
  {
    match LastProducer(b, v, before)
    case None => Leaf(UnknownDependency)
    case Some(i) =>
      match b.insts[i]
      case LoadGlobal(_, name, _) => Leaf(GlobalLoad(i, name))
      case LoadLocal(_, _) => Leaf(NoGlobalLoad)
      case Select(_, _, _, _, t, f) => Pair(OperandTree(b, t, i), OperandTree(b, f, i))
      case Cast(_, operand) => Unary(OperandTree(b, operand, i))
      case Binary(_, _, lhs, rhs) => Pair(OperandTree(b, lhs, i), OperandTree(b, rhs, i))
      case _ => Leaf(UnknownDependency)
  }

  /** The tree with nothing known below its first `levels` levels. */
  function Cut(t: Tree, levels: nat): Tree
    decreases t
  {
    if levels == 0 then Leaf(UnknownDependency)
    else
      match t
      case Leaf(_) => t
      case Unary(c) => Unary(Cut(c, levels - 1))
      case Pair(l, r) => Pair(Cut(l, levels - 1), Cut(r, levels - 1))
  }

  /** How many levels of the tree say something. */
  function Height(t: Tree): nat
  {
    match t
    case Leaf(d) => if d.UnknownDependency? then 0 else 1
    case Unary(c) => 1 + Height(c)
    case Pair(l, r) => 1 + if Height(l) < Height(r) then Height(r) else Height(l)
  }

  lemma {:induction false} CutKeeps(t: Tree, levels: nat)
    ensures Cut(t, levels) == t <==> Height(t) <= levels
    decreases t
  {
    if levels > 0 {
      match t
      case Leaf(_) =>
      case Unary(c) => CutKeeps(c, levels - 1);
      case Pair(l, r) =>
        CutKeeps(l, levels - 1);
        CutKeeps(r, levels - 1);
    }
  }

  function Leaves(t: Tree): seq<Dependency>
  {
    match t
    case Leaf(d) => [d]
    case Unary(c) => Leaves(c)
    case Pair(l, r) => Leaves(l) + Leaves(r)
  }

  /** The first leaf that is not a local load, or that there is none. */
  function FirstOther(leaves: seq<Dependency>): Dependency
  {
    if leaves == [] then NoGlobalLoad
    else if leaves[0].NoGlobalLoad? then FirstOther(leaves[1..])
    else leaves[0]
  }

  lemma {:induction false} FirstOtherAppend(a: seq<Dependency>, b: seq<Dependency>)
    ensures FirstOther(a + b) == if FirstOther(a).NoGlobalLoad? then FirstOther(b) else FirstOther(a)
  {
    if a == [] {
      assert a + b == b;
    } else {
      FirstOtherAppend(a[1..], b);
      assert (a + b)[1..] == a[1..] + b;
    }
  }

  /** The values a producer's search goes into, in order. */
  function Children(inst: Inst): seq<Value>
  {
    match inst
    case Select(_, _, _, _, t, f) => [t, f]
    case Cast(_, operand) => [operand]
    case Binary(_, _, lhs, rhs) => [lhs, rhs]
    case _ => []
  }

  function LeafOf(inst: Inst, i: nat): Dependency
  {
    match inst
    case LoadGlobal(_, name, _) => GlobalLoad(i, name)
    case LoadLocal(_, _) => NoGlobalLoad
    case _ => UnknownDependency
  }

  lemma SearchStep(b: Block, v: Value, before: nat, depth: nat, i: nat)
    requires depth <= 64 && LastProducer(b, v, before) == Some(i)
    ensures var c := Children(b.insts[i]);
            FindDependency(b, v, before, depth) ==
            if c == [] then LeafOf(b.insts[i], i)
            else
              var first := FindDependency(b, c[0], i, depth + 1);
              if |c| == 2 && first.NoGlobalLoad? then FindDependency(b, c[1], i, depth + 1) else first
  {
    hide LastProducer;
    ProducerBefore(b, v, before);
  }

  lemma TreeStep(b: Block, v: Value, before: nat, levels: nat, i: nat)
    requires levels > 0 && LastProducer(b, v, before) == Some(i)
    ensures var c := Children(b.insts[i]);
            CutLeaves(b, v, before, levels) ==
            if c == [] then [LeafOf(b.insts[i], i)]
            else if |c| == 1 then CutLeaves(b, c[0], i, levels - 1)
            else CutLeaves(b, c[0], i, levels - 1) + CutLeaves(b, c[1], i, levels - 1)
  {
    hide LastProducer;
    ProducerBefore(b, v, before);
  }

  function CutLeaves(b: Block, v: Value, before: nat, levels: nat): seq<Dependency>
  {
    Leaves(Cut(OperandTree(b, v, before), levels))
  }

  /**
   From depth `depth` the search returns the leftmost leaf that is not a local load, of the first
   `65 - depth` levels of the operand tree.
   */
  lemma {:induction false} SearchIsLeftmostLeaf(b: Block, v: Value, before: nat, depth: nat)
    requires depth <= 65
    ensures FindDependency(b, v, before, depth) == FirstOther(Leaves(Cut(OperandTree(b, v, before), 65 - depth)))
    decreases before
  {
    hide FirstOther, Leaves, FindDependency, OperandTree, LastProducer, Cut;
    ProducerBefore(b, v, before);
    if depth == 65 || LastProducer(b, v, before).None? {
      NothingKnown(b, v, before, depth);
    } else {
      var i := LastProducer(b, v, before).value;
      var c := Children(b.insts[i]);
      SearchStep(b, v, before, depth, i);
      TreeStep(b, v, before, 65 - depth, i);
      if c == [] {
        FirstOfOne(LeafOf(b.insts[i], i));
      } else {
        SearchIsLeftmostLeaf(b, c[0], i, depth + 1);
        if |c| == 2 {
          SearchIsLeftmostLeaf(b, c[1], i, depth + 1);
          FirstOtherAppend(CutLeaves(b, c[0], i, 64 - depth), CutLeaves(b, c[1], i, 64 - depth));
        }
      }
    }
  }

  lemma NothingKnown(b: Block, v: Value, before: nat, depth: nat)
    requires depth == 65 || (depth < 65 && LastProducer(b, v, before).None?)
    ensures FindDependency(b, v, before, depth) == UnknownDependency
    ensures FirstOther(CutLeaves(b, v, before, 65 - depth)) == UnknownDependency
  {
    FirstOfOne(UnknownDependency);
  }

  lemma ProducerBefore(b: Block, v: Value, before: nat)
    ensures LastProducer(b, v, before).Some? ==> LastProducer(b, v, before).value < before
    ensures LastProducer(b, v, before).Some? ==> LastProducer(b, v, before).value < |b.insts|
  {
  }

  lemma FirstOfOne(d: Dependency)
    ensures FirstOther([d]) == d
  {
    assert [d][1..] == [];
  }

  lemma {:induction false} FirstOtherMembers(leaves: seq<Dependency>)
    ensures FirstOther(leaves).NoGlobalLoad? <==> forall d :: d in leaves ==> d.NoGlobalLoad?
    ensures !FirstOther(leaves).NoGlobalLoad? ==> FirstOther(leaves) in leaves
  {
    if leaves != [] {
      FirstOtherMembers(leaves[1..]);
      assert leaves[0] in leaves && forall d :: d in leaves <==> d == leaves[0] || d in leaves[1..];
    }
  }

  /** "No global load" is exact: it is answered when the leaves of 65 levels are local loads, and only then. */
  lemma NoGlobalLoadExact(b: Block, v: Value, before: nat)
    ensures var leaves := Leaves(Cut(OperandTree(b, v, before), 65));
            && (FindDependency(b, v, before, 0).NoGlobalLoad? <==> forall d :: d in leaves ==> d.NoGlobalLoad?)
            && (FindDependency(b, v, before, 0).GlobalLoad? ==> FindDependency(b, v, before, 0) in leaves)
  {
    SearchIsLeftmostLeaf(b, v, before, 0);
    FirstOtherMembers(Leaves(Cut(OperandTree(b, v, before), 65)));
  }

  lemma {:induction false} HeightBound(b: Block, v: Value, before: nat)
    ensures Height(OperandTree(b, v, before)) <= before
    decreases before
  {
    if LastProducer(b, v, before).Some? {
      var i := LastProducer(b, v, before).value;
      var inst := b.insts[i];
      if inst.Select? {
        HeightBound(b, inst.trueValue, i);
        HeightBound(b, inst.falseValue, i);
      } else if inst.Binary? {
        HeightBound(b, inst.lhs, i);
        HeightBound(b, inst.rhs, i);
      } else if inst.Cast? {
        HeightBound(b, inst.operand, i);
      }
    }
  }

  /** The limit cuts no tree of up to 65 levels, so no query over the first 65 instructions. */
  lemma LimitNotReached(b: Block, v: Value, before: nat)
    requires Height(OperandTree(b, v, before)) <= 65 || before <= 65
    ensures FindDependency(b, v, before, 0) == FirstOther(Leaves(OperandTree(b, v, before)))
  {
    HeightBound(b, v, before);
    SearchIsLeftmostLeaf(b, v, before, 0);
    CutKeeps(OperandTree(b, v, before), 65);
  }

  function CastName(i: nat): Value
  {
    Named(Int64, seq(i + 1, _ => 'x'))
  }

  /** A local load and `n - 1` casts, each of the value before it. */
  function CastBlock(n: nat): Block
  {
    Block("", None, seq(n, i requires 0 <= i < n =>
      if i == 0 then LoadLocal(CastName(0), None) else Cast(CastName(i), CastName(i - 1))), OtherTerminator)
  }

  lemma {:induction false} CastLeaves(n: nat, i: nat, levels: nat)
    requires i < n
    ensures Leaves(Cut(OperandTree(CastBlock(n), CastName(i), i + 1), levels)) ==
            [if i < levels then NoGlobalLoad else UnknownDependency]
    decreases i
  {
    var b, v := CastBlock(n), CastName(i);
    forall j | 0 <= j <= i
      ensures Produces(b, j, v) <==> j == i
    {
      assert |CastName(j).name| == j + 1;
    }
    if i > 0 && levels > 0 {
      CastLeaves(n, i - 1, levels - 1);
    }
  }

  /** The search follows 65 levels and gives up on the next. */
  lemma SixtyFiveLevels()
    ensures FindDependency(CastBlock(65), CastName(64), 65, 0) == NoGlobalLoad
    ensures FindDependency(CastBlock(66), CastName(65), 66, 0) == UnknownDependency
  {
    hide FindDependency, OperandTree, Cut, Leaves, CastBlock, CastName;
    CastLeaves(65, 64, 65);
    CastLeaves(66, 65, 65);
    SearchIsLeftmostLeaf(CastBlock(65), CastName(64), 65, 0);
    SearchIsLeftmostLeaf(CastBlock(66), CastName(65), 66, 0);
    FirstOfOne(UnknownDependency);
    FirstOfOne(NoGlobalLoad);
  }

  lemma {:induction false} LoadLeaf(b: Block, v: Value, before: nat, i: nat, name: string)
    requires GlobalLoad(i, name) in Leaves(OperandTree(b, v, before))
    ensures i < Limit(b, before) && b.insts[i].LoadGlobal? && b.insts[i].globalName == name
    decreases before
  {
    var k := LastProducer(b, v, before).value;
    var inst := b.insts[k];
    match inst
    case Select(_, _, _, _, t, f) =>
      if GlobalLoad(i, name) in Leaves(OperandTree(b, t, k)) {
        LoadLeaf(b, t, k, i, name);
      } else {
        LoadLeaf(b, f, k, i, name);
      }
    case Binary(_, _, lhs, rhs) =>
      if GlobalLoad(i, name) in Leaves(OperandTree(b, lhs, k)) {
        LoadLeaf(b, lhs, k, i, name);
      } else {
        LoadLeaf(b, rhs, k, i, name);
      }
    case Cast(_, operand) => LoadLeaf(b, operand, k, i, name);
    case _ =>
  }

  lemma {:induction false} CutLeavesAreLeaves(t: Tree, levels: nat, d: Dependency)
    requires d in Leaves(Cut(t, levels)) && !d.UnknownDependency?
    ensures d in Leaves(t)
    decreases t
  {
    if levels > 0 {
      match t
      case Leaf(_) =>
      case Unary(c) => CutLeavesAreLeaves(c, levels - 1, d);
      case Pair(l, r) =>
        if d in Leaves(Cut(l, levels - 1)) {
          CutLeavesAreLeaves(l, levels - 1, d);
        } else {
          CutLeavesAreLeaves(r, levels - 1, d);
        }
    }
  }

  /** A reported load is a global load of that name before the position. */
  lemma ReportedLoad(b: Block, v: Value, before: nat)
    requires FindDependency(b, v, before, 0).GlobalLoad?
    ensures var d := FindDependency(b, v, before, 0);
            d.index < Limit(b, before) && b.insts[d.index].LoadGlobal? && b.insts[d.index].globalName == d.globalName
  {
    var d := FindDependency(b, v, before, 0);
    NoGlobalLoadExact(b, v, before);
    CutLeavesAreLeaves(OperandTree(b, v, before), 65, d);
    LoadLeaf(b, v, before, d.index, d.globalName);
  }

  // ------------------------------------------------------ records and index

  datatype ValueRecord =
    ValueRecord(root: Value, rootIndex: nat, rootKind: ProducerKind, rootGlobal: string, scalarMaterialization: bool,
                dependency: Dependency)

  /** `route2_select_chain_value_record`. */
  function DirectRecord(b: Block, v: Value, before: nat): Option<ValueRecord>
  {
    match LastProducer(b, v, before)
    case None => None
    case Some(i) =>
      var inst := b.insts[i];
      var produced := ProducedValue(inst).value;
      Some(ValueRecord(produced, i, KindOf(inst).value, if inst.LoadGlobal? then inst.globalName else "",
                       LastProducer(b, produced, before).Some?, FindDependency(b, produced, before, 0)))
  }

  /**
   A record exists exactly for a value with a producer before the position. It names that producer; its
   global is the one the root itself loads, if it does; its dependency is the leftmost leaf of the
   value's own tree, which for a root that loads a global is that load.
   */
  lemma RecordExact(b: Block, v: Value, before: nat)
    ensures DirectRecord(b, v, before).Some? <==>
            IsNamed(v) && exists i :: 0 <= i < Limit(b, before) && Produces(b, i, v)
    ensures DirectRecord(b, v, before).Some? ==>
              var r := DirectRecord(b, v, before).value;
              && r.rootIndex < Limit(b, before) && Produces(b, r.rootIndex, v) && r.root == v && r.scalarMaterialization
              && (forall i :: r.rootIndex < i < Limit(b, before) ==> !Produces(b, i, v))
              && r.dependency == FirstOther(Leaves(Cut(OperandTree(b, v, before), 65)))
              && (r.dependency.GlobalLoad? ==>
                    var load := r.dependency.index;
                    && load <= r.rootIndex && b.insts[load].LoadGlobal?
                    && b.insts[load].globalName == r.dependency.globalName)
              && (b.insts[r.rootIndex].LoadGlobal? ==> r.dependency == GlobalLoad(r.rootIndex, r.rootGlobal))
              && (!b.insts[r.rootIndex].LoadGlobal? ==> r.rootGlobal == "")
  {
    hide OperandTree, Cut, Leaves;
    if LastProducer(b, v, before).Some? {
      var i := LastProducer(b, v, before).value;
      assert ProducedValue(b.insts[i]).value == v;
      SearchIsLeftmostLeaf(b, v, before, 0);
      SearchFromRoot(b, v, before, i + 1);
      if FindDependency(b, v, before, 0).GlobalLoad? {
        assert LastProducer(b, v, i + 1) == Some(i);
        ReportedLoad(b, v, i + 1);
      }
    }
  }

  /** The query for a produced value just after its own instruction. */
  function RecordAfter(b: Block, i: nat): Option<ValueRecord>
    requires i < |b.insts| && KindOf(b.insts[i]).Some?
  {
    DirectRecord(b, ProducedValue(b.insts[i]).value, i + 1)
  }

  ghost predicate IsValueIndex(b: Block, records: seq<ValueRecord>, n: nat)
    requires n <= |b.insts|
  {
    && (forall r :: r in records ==>
          r.rootIndex < n && KindOf(b.insts[r.rootIndex]).Some? && RecordAfter(b, r.rootIndex) == Some(r))
    && (forall i :: 0 <= i < n && KindOf(b.insts[i]).Some? && RecordAfter(b, i).Some? ==>
          RecordAfter(b, i).value in records)
    && (forall k, l :: 0 <= k < l < |records| ==> records[k].rootIndex < records[l].rootIndex)
  }

  lemma RecordAfterRoot(b: Block, i: nat)
    requires i < |b.insts| && KindOf(b.insts[i]).Some?
    ensures var v := ProducedValue(b.insts[i]).value;
            && LastProducer(b, v, i + 1) == (if IsNamed(v) then Some(i) else None)
            && (RecordAfter(b, i).Some? <==> IsNamed(v))
            && (IsNamed(v) ==> RecordAfter(b, i).value.rootIndex == i && RecordAfter(b, i).value.root == v)
  {
    hide FindDependency;
    var v := ProducedValue(b.insts[i]).value;
    if IsNamed(v) {
      assert Produces(b, i, v);
    }
  }

  lemma SkipToProducer(b: Block, records: seq<ValueRecord>, i: nat, n: nat)
    requires i <= n <= |b.insts| && IsValueIndex(b, records, i)
    requires forall m :: i <= m < n ==> KindOf(b.insts[m]).None?
    ensures IsValueIndex(b, records, n)
  {
    hide RecordAfter;
  }

  lemma NextRecord(b: Block, records: seq<ValueRecord>, i: nat)
    requires i < |b.insts| && KindOf(b.insts[i]).Some? && IsValueIndex(b, records, i)
    ensures var r := RecordAfter(b, i);
            IsValueIndex(b, if r.Some? then records + [r.value] else records, i + 1)
  {
    hide DirectRecord;
    RecordAfterRoot(b, i);
  }

  /** `route2_build_select_chain_value_index`: one query per record of the producer index, just after it. */
  method BuildValueIndex(b: Block) returns (records: seq<ValueRecord>)
    ensures IsValueIndex(b, records, |b.insts|)
  {
    hide DirectRecord, IsValueIndex;
    NoRecordsYet(b);
    var producers := BuildProducerIndex(b);
    records := [];
    ghost var i: nat := 0;
    for k := 0 to |producers|
      invariant i <= |b.insts| && IsValueIndex(b, records, i)
      invariant i == (if k == 0 then 0 else producers[k - 1].index + 1)
    {
      var producer := producers[k];
      assert producer in producers;
      forall m | i <= m < producer.index
        ensures KindOf(b.insts[m]).None?
      {
        GapHasNoProducer(b, producers, k, m);
      }
      SkipToProducer(b, records, i, producer.index);
      NextRecord(b, records, producer.index);
      var record := DirectRecord(b, producer.value, producer.index + 1);
      if record.Some? {
        records := records + [record.value];
      }
      i := producer.index + 1;
    }
    forall m | i <= m < |b.insts|
      ensures KindOf(b.insts[m]).None?
    {
      GapHasNoProducer(b, producers, |producers|, m);
    }
    SkipToProducer(b, records, i, |b.insts|);
  }

  lemma NoRecordsYet(b: Block)
    ensures IsValueIndex(b, [], 0)
  {
  }

  /** Asking right after the root or later gives the same record. */
  lemma RecordStable(b: Block, v: Value, before: nat)
    requires LastProducer(b, v, before).Some?
    ensures var i := LastProducer(b, v, before).value;
            KindOf(b.insts[i]).Some? && DirectRecord(b, v, before) == RecordAfter(b, i)
  {
    var i := LastProducer(b, v, before).value;
    var produced := ProducedValue(b.insts[i]).value;
    RecordAfterRoot(b, i);
    SameValueSameProducer(b, v, produced, before);
    SearchFromRoot(b, produced, before, i + 1);
  }

  lemma {:induction false} SameValueSameProducer(b: Block, v: Value, w: Value, before: nat)
    requires v.Named? && w.Named? && v.name == w.name && v.ty == w.ty
    ensures LastProducer(b, v, before) == LastProducer(b, w, before)
  {
    assert v == w;
  }

  lemma SearchFromRoot(b: Block, v: Value, before: nat, before': nat)
    requires LastProducer(b, v, before) == LastProducer(b, v, before')
    ensures FindDependency(b, v, before, 0) == FindDependency(b, v, before', 0)
  {
  }

  /** `route2_find_select_chain_value_record`: looking a value up equals computing its record. */
  method FindValueRecord(records: seq<ValueRecord>, v: Value, before: nat, ghost b: Block)
    returns (r: Option<ValueRecord>)
    requires IsValueIndex(b, records, |b.insts|)
    ensures r == DirectRecord(b, v, before)
  {
    hide FindDependency;
    if !IsNamed(v) {
      return None;
    }
    var k := |records|;
    while k > 0
      invariant 0 <= k <= |records|
      invariant forall l :: k <= l < |records| ==> !RootMatches(records[l], v, before)
    {
      k := k - 1;
      if RootMatches(records[k], v, before) {
        FoundRecord(b, records, v, before, k);
        return Some(records[k]);
      }
    }
    MissedRecord(b, records, v, before);
    return None;
  }

  predicate RootMatches(r: ValueRecord, v: Value, before: nat)
  {
    SameValue(r.root, v) && r.rootIndex < before
  }

  lemma FoundRecord(b: Block, records: seq<ValueRecord>, v: Value, before: nat, k: nat)
    requires IsValueIndex(b, records, |b.insts|) && IsNamed(v) && k < |records| && RootMatches(records[k], v, before)
    requires forall l :: k < l < |records| ==> !RootMatches(records[l], v, before)
    ensures DirectRecord(b, v, before) == Some(records[k])
  {
    hide FindDependency;
    var i := records[k].rootIndex;
    assert records[k] in records;
    RecordAfterRoot(b, i);
    assert Produces(b, i, v);
    var last := LastProducer(b, v, before).value;
    RecordAfterRoot(b, last);
    assert RecordAfter(b, last).value in records;
    RecordStable(b, v, before);
  }

  lemma MissedRecord(b: Block, records: seq<ValueRecord>, v: Value, before: nat)
    requires IsValueIndex(b, records, |b.insts|) && IsNamed(v)
    requires forall l :: 0 <= l < |records| ==> !RootMatches(records[l], v, before)
    ensures DirectRecord(b, v, before).None?
  {
    hide FindDependency;
    forall j | 0 <= j < Limit(b, before)
      ensures !Produces(b, j, v)
    {
      if KindOf(b.insts[j]).Some? {
        RecordAfterRoot(b, j);
      }
    }
  }
}
