/**
 The bounds-certificate chain for local-array indexing of
 src/backend/bir/bir_local_array_semantic_gep.hpp: selected guard edge, interval effect scan, range
 certificate, proof fact, checker input, address provenance, semantic GEP.
 */
module LocalArrayGep {
  import opened Machine
  import opened Bir

  /** A C++ pointer: null, or an address and the object found there. */
  datatype Ref<+T> = Null | To(address: nat, target: T)

  predicate SamePointer<T>(p: Ref<T>, q: Ref<T>)
  {
    p.To? && q.To? && p.address == q.address
  }

  // ------------------------------------------------------ element paths

  datatype CarrierStatus =
    | CarrierAvailable | MissingSourceObject | MissingDerivation | MissingElementPath | MissingIndexIdentity
    | MissingIndexRangeProof | ElementOutOfBounds | UnknownProvenance | ScalarBoundary | CoordinateConfusion
    | OtherCarrier(code: nat)

  datatype Role = NoRole | AddressDerivation | LoadConsumer | StoreConsumer | UnknownConsumer

  datatype Index = ConstantIndex(constant: I64) | DynamicIndex(value: Value)

  /** Which element an address denotes. */
  datatype PathName = PathName(result: string, sourceObject: string, derivation: string)

  /** Where the address is computed. */
  datatype Producer = Producer(lookupKey: string, functionName: string, block: string, instruction: Option<nat>)

  datatype ElementPath =
    ElementPath(name: PathName, producer: Producer, role: Role, coordinateAvailable: bool, indices: seq<Index>,
                elementType: TypeKind, elementSize: U64, byteOffset: U64, elementCount: U64, scalarInBounds: bool,
                status: CarrierStatus)

  function DynamicIndices(indices: seq<Index>): seq<Value>
  {
    if indices == [] then []
    else (if indices[0].DynamicIndex? then [indices[0].value] else []) + DynamicIndices(indices[1..])
  }

  predicate HasSingleDynamic(path: ElementPath)
  {
    |DynamicIndices(path.indices)| == 1
  }

  function SingleDynamic(path: ElementPath): Value
    requires HasSingleDynamic(path)
  {
    DynamicIndices(path.indices)[0]
  }

  /** `single_dynamic_local_array_index`: stops at the second dynamic index. */
  method FindSingleDynamic(path: ElementPath) returns (index: Option<Value>, sawMultiple: bool)
    ensures sawMultiple <==> |DynamicIndices(path.indices)| > 1
    ensures index == (if DynamicIndices(path.indices) == [] then None else Some(DynamicIndices(path.indices)[0]))
  {
    index, sawMultiple := None, false;
    assert path.indices[0..] == path.indices;
    for i := 0 to |path.indices|
      invariant DynamicIndices(path.indices) ==
                (if index.Some? then [index.value] else []) + DynamicIndices(path.indices[i..])
    {
      assert path.indices[i..][1..] == path.indices[i + 1..];
      if path.indices[i].DynamicIndex? {
        if index.Some? {
          sawMultiple := true;
          return;
        }
        index := Some(path.indices[i].value);
      }
    }
  }

  /** The same named value at the same type. */
  predicate SameNamed(l: Value, r: Value)
  {
    IsNamed(l) && l == r
  }

  // ------------------------------------------------------ the guard edge

  datatype Outcome = NoOutcome | TrueEdge | FalseEdge
  datatype Contribution = NoContribution | Lower | Upper | UnknownContribution
  datatype Predicate = UnknownPredicate | PSlt | PSle | PSgt | PSge | PUlt | PUle | PUgt | PUge | PEq | PNe

  datatype PathStatus =
    | PathAvailable | PathMissingElementPath | PathMissingLookupKey | PathMissingCoordinate | PathUnsupportedRole
    | PathMissingProofSource | PathFunctionMismatch | PathMissingEdge | PathMissingOutcome | PathNonCovering
    | PathNonDominating | PathUnsupportedBoundary | PathMissingOrdering | PathConfusion | PathRawShape | PathTargetOnly

  /** The guard: a comparison, the bound read off it, and the edge taken. */
  datatype Guard =
    Guard(functionName: string, block: string, instruction: Option<nat>, comparison: Predicate, compareType: TypeKind,
          lhs: Value, rhs: Value, contribution: Contribution, bound: Option<I64>, inclusive: bool,
          outcome: Outcome, selectedLabel: string, otherLabel: string)

  /** What control-flow analysis says of the edge and the address computation. */
  datatype Coverage = Coverage(validityKnown: bool, reaches: bool, covers: bool, dominates: bool, guards: bool)

  datatype PathInputs =
    PathInputs(elementPath: Ref<ElementPath>, guard: Guard, proofSourceAvailable: bool, coverage: Coverage,
               sameBlock: bool, sameBlockOrdered: bool, confusion: bool, rawShapeOnly: bool, targetOnly: bool,
               unsupportedBoundary: bool)

  datatype SelectedPath =
    SelectedPath(status: PathStatus, elementPath: Ref<ElementPath>, name: PathName, producer: Producer, role: Role,
                 coordinateAvailable: bool, guard: Guard, coverage: Coverage)

  const NO_NAME := PathName("", "", "")
  const NO_PRODUCER := Producer("", "", "", None)

  /** The checks of `evaluate_local_array_selected_proof_edge_path`, in source order. */
  function PathStatusOf(inputs: PathInputs): PathStatus
  {
    var g, c := inputs.guard, inputs.coverage;
    if inputs.rawShapeOnly then PathRawShape
    else if inputs.targetOnly then PathTargetOnly
    else if inputs.unsupportedBoundary then PathUnsupportedBoundary
    else if inputs.confusion then PathConfusion
    else if inputs.elementPath.Null? then PathMissingElementPath
    else
      var path := inputs.elementPath.target;
      if path.producer.lookupKey == "" then PathMissingLookupKey
      else if !path.coordinateAvailable then PathMissingCoordinate
      else if !path.role.AddressDerivation? then PathUnsupportedRole
      else if !inputs.proofSourceAvailable then PathMissingProofSource
      else if g.functionName != path.producer.functionName then PathFunctionMismatch
      else if g.outcome.NoOutcome? then PathMissingOutcome
      else if g.selectedLabel == "" || g.otherLabel == "" then PathMissingEdge
      else if inputs.sameBlock && !inputs.sameBlockOrdered then PathMissingOrdering
      else if !c.validityKnown || !c.reaches || !c.covers then PathNonCovering
      else if !c.dominates && !c.guards then PathNonDominating
      else PathAvailable
  }

  function EvaluateSelectedPath(inputs: PathInputs): SelectedPath
  {
    var early := inputs.rawShapeOnly || inputs.targetOnly || inputs.unsupportedBoundary || inputs.confusion ||
      inputs.elementPath.Null?;
    SelectedPath(PathStatusOf(inputs), inputs.elementPath,
                 if early then NO_NAME else inputs.elementPath.target.name,
                 if early then NO_PRODUCER else inputs.elementPath.target.producer,
                 if early then NoRole else inputs.elementPath.target.role,
                 if early then false else inputs.elementPath.target.coordinateAvailable,
                 inputs.guard, inputs.coverage)
  }

  // ------------------------------------------------------ coordinates

  datatype Coordinate = Coordinate(block: Option<nat>, labelText: string, instruction: Option<nat>, tieBreak: nat)

  predicate HasCoordinate(c: Coordinate)
  {
    c.block.Some? && c.labelText != "" && c.instruction.Some?
  }

  function Or0(x: Option<nat>): nat
  {
    if x.Some? then x.value else 0
  }

  function CompareNat(a: nat, b: nat): int
  {
    if a < b then -1 else if a > b then 1 else 0
  }

  function CompareText(a: string, b: string): int
  {
    if a == b then 0
    else if a == "" then -1
    else if b == "" then 1
    else if a[0] < b[0] then -1
    else if a[0] > b[0] then 1
    else CompareText(a[1..], b[1..])
  }

  /** `compare_local_array_effect_source_coordinates`: block, instruction, tie-break, label. */
  function CompareCoordinates(l: Coordinate, r: Coordinate): int
  {
    if Or0(l.block) != Or0(r.block) then CompareNat(Or0(l.block), Or0(r.block))
    else if Or0(l.instruction) != Or0(r.instruction) then CompareNat(Or0(l.instruction), Or0(r.instruction))
    else if l.tieBreak != r.tieBreak then CompareNat(l.tieBreak, r.tieBreak)
    else CompareText(l.labelText, r.labelText)
  }

  lemma {:induction false} TextOrder(a: string, b: string)
    ensures CompareText(a, b) == -CompareText(b, a)
    ensures CompareText(a, b) == 0 <==> a == b
    ensures -1 <= CompareText(a, b) <= 1
    decreases |a|
  {
    if a != b && a != "" && b != "" && a[0] == b[0] {
      TextOrder(a[1..], b[1..]);
      assert a == [a[0]] + a[1..] && b == [b[0]] + b[1..];
    }
  }

  lemma {:induction false} TextOrderTransitive(a: string, b: string, c: string)
    requires CompareText(a, b) <= 0 && CompareText(b, c) <= 0
    ensures CompareText(a, c) <= 0
    ensures CompareText(a, b) < 0 || CompareText(b, c) < 0 ==> CompareText(a, c) < 0
    decreases |b|
  {
    if a != b && b != c && a != "" && b != "" && c != "" && a[0] == b[0] == c[0] {
      TextOrderTransitive(a[1..], b[1..], c[1..]);
      TextOrder(a[1..], c[1..]);
    }
  }

  /** The comparison is a total order on coordinates that are present. */
  lemma CoordinateOrder(a: Coordinate, b: Coordinate, c: Coordinate)
    ensures CompareCoordinates(a, b) == -CompareCoordinates(b, a)
    ensures HasCoordinate(a) && HasCoordinate(b) ==> (CompareCoordinates(a, b) == 0 <==> a == b)
    ensures CompareCoordinates(a, b) <= 0 && CompareCoordinates(b, c) <= 0 ==> CompareCoordinates(a, c) <= 0
  {
    TextOrder(a.labelText, b.labelText);
    if CompareText(a.labelText, b.labelText) <= 0 && CompareText(b.labelText, c.labelText) <= 0 {
      TextOrderTransitive(a.labelText, b.labelText, c.labelText);
    }
  }

  datatype Interval = Interval(proof: Coordinate, endpoint: Coordinate)

  /** The guard itself is outside, the address computation is inside. */
  predicate InInterval(i: Interval, c: Coordinate)
  {
    CompareCoordinates(i.proof, c) < 0 && CompareCoordinates(c, i.endpoint) <= 0
  }

  // The order without the comparison: block, then instruction, then tie-break, then label.

  /** Texts in dictionary order: at the first difference `a` ends or has the smaller character. */
  ghost predicate TextBefore(a: string, b: string)
  {
    exists k: nat :: DiffersAt(a, b, k)
  }

  predicate DiffersAt(a: string, b: string, k: nat)
  {
    k <= |a| && k < |b| && a[..k] == b[..k] && (k == |a| || a[k] < b[k])
  }

  lemma {:induction false} CompareTextExact(a: string, b: string)
    ensures CompareText(a, b) < 0 <==> TextBefore(a, b)
    decreases |a|
  {
    if a != "" && b != "" && a[0] == b[0] {
      CompareTextExact(a[1..], b[1..]);
      assert a == b <==> a[1..] == b[1..] by {
        assert a == [a[0]] + a[1..] && b == [b[0]] + b[1..];
      }
      if TextBefore(a[1..], b[1..]) {
        var k: nat :| DiffersAt(a[1..], b[1..], k);
        assert a[..k + 1] == [a[0]] + a[1..][..k] && b[..k + 1] == [b[0]] + b[1..][..k];
        assert DiffersAt(a, b, k + 1);
      }
      if TextBefore(a, b) {
        var k: nat :| DiffersAt(a, b, k);
        assert k > 0 && a[1..][..k - 1] == a[..k][1..] && b[1..][..k - 1] == b[..k][1..];
        assert DiffersAt(a[1..], b[1..], k - 1);
      }
    } else if a == "" && b != "" {
      assert DiffersAt(a, b, 0);
    } else if a != "" && b != "" {
      assert a[0] < b[0] ==> DiffersAt(a, b, 0);
      forall k: nat | DiffersAt(a, b, k)
        ensures a[0] < b[0]
      {
        assert k > 0 ==> a[..k][0] == b[..k][0];
      }
    }
  }

  datatype Spot = Spot(block: nat, instruction: nat, tieBreak: nat, labelText: string)

  /** Where a coordinate stands; a missing number counts as zero. */
  function SpotOf(c: Coordinate): Spot
  {
    Spot(Or0(c.block), Or0(c.instruction), c.tieBreak, c.labelText)
  }

  ghost predicate Before(a: Spot, b: Spot)
  {
    || a.block < b.block
    || (a.block == b.block && a.instruction < b.instruction)
    || (a.block == b.block && a.instruction == b.instruction && a.tieBreak < b.tieBreak)
    || (a.block == b.block && a.instruction == b.instruction && a.tieBreak == b.tieBreak &&
        TextBefore(a.labelText, b.labelText))
  }

  lemma CompareExact(a: Coordinate, b: Coordinate)
    ensures CompareCoordinates(a, b) < 0 <==> Before(SpotOf(a), SpotOf(b))
    ensures CompareCoordinates(a, b) == 0 <==> SpotOf(a) == SpotOf(b)
  {
    CompareTextExact(a.labelText, b.labelText);
    TextOrder(a.labelText, b.labelText);
  }

  /** After the guard, and before the address computation or at it. */
  ghost predicate Scanned(i: Interval, c: Coordinate)
  {
    && Before(SpotOf(i.proof), SpotOf(c))
    && (Before(SpotOf(c), SpotOf(i.endpoint)) || SpotOf(c) == SpotOf(i.endpoint))
  }

  /** The scan looks at exactly the coordinates after the guard and up to the endpoint, which is included. */
  lemma ScannedExact(i: Interval, c: Coordinate)
    ensures InInterval(i, c) <==> Scanned(i, c)
  {
    CompareExact(i.proof, c);
    CompareExact(c, i.endpoint);
  }

  // ------------------------------------------------------ the effect stream

  datatype Family =
    | IndexDefinition | PhiOrAliasTransfer | CallOrHelper | InlineAsm | PublicationFamily | MoveBundle
    | ParallelCopy | UnknownFamily

  datatype SourceStatus =
    | PreservesIndex | RedefinesIndexValue | PhiOrAliasUnresolved | ClobbersIndex | UnknownModeled | UnsupportedModeled

  datatype EffectSource = EffectSource(family: Family, status: SourceStatus, at: Coordinate)

  datatype StreamStatus =
    | StreamAvailable | MissingBuilder | MissingLowerBoundary | MissingEndpointCoordinate | MissingSourceCoordinate
    | UnorderedBoundary | UnsupportedEffect

  /** The address computation as the prepared code sees it. */
  datatype Bridge =
    Bridge(available: bool, name: PathName, lookupKey: string, functionName: string, labelText: string,
           block: Option<nat>,
           instruction: Option<nat>, resultValue: string)

  datatype Stream =
    Stream(status: StreamStatus, interval: Interval, selectedPath: Ref<SelectedPath>, bridge: Ref<Bridge>,
           sources: seq<EffectSource>)

  datatype EffectStatus =
    | EffectAvailable | EffectMissingLookupKey | EffectMissingCoordinate | EffectUnsupportedRole | EffectMissingIndex
    | EffectOperandMismatch | EffectMissingOutcome | EffectMissingValidity | EffectNotCovering | EffectMissingBridge
    | EffectConfusion | EffectMissingOrdering | EffectMissingStream | EffectDuplicateStream
    | EffectMissingSourceCoordinate
    | EffectUnordered | IndexRedefined | IndexAliasUnresolved | CallUnknown | CallClobbers | AsmUnknown | AsmClobbers
    | PublicationUnknown | PublicationClobbers | MoveUnknown | MoveClobbers | CopyUnknown | CopyClobbers
    | EffectUnknown | EffectRawShape

  /** `local_array_interval_effect_status_for_source`. */
  function SourceEffect(s: EffectSource): EffectStatus
  {
    match s.status
    case PreservesIndex => EffectAvailable
    case RedefinesIndexValue => IndexRedefined
    case PhiOrAliasUnresolved => IndexAliasUnresolved
    case ClobbersIndex =>
      (match s.family
       case CallOrHelper => CallClobbers
       case InlineAsm => AsmClobbers
       case PublicationFamily => PublicationClobbers
       case MoveBundle => MoveClobbers
       case ParallelCopy => CopyClobbers
       case IndexDefinition => IndexRedefined
       case PhiOrAliasTransfer => IndexAliasUnresolved
       case UnknownFamily => EffectUnknown)
    case _ =>
      match s.family
      case CallOrHelper => CallUnknown
      case InlineAsm => AsmUnknown
      case PublicationFamily => PublicationUnknown
      case MoveBundle => MoveUnknown
      case ParallelCopy => CopyUnknown
      case IndexDefinition => IndexRedefined
      case PhiOrAliasTransfer => IndexAliasUnresolved
      case UnknownFamily => EffectUnknown
  }

  /** The first complaint about the sources, if any: a missing coordinate anywhere, an effect inside the interval. */
  function ScanSources(i: Interval, sources: seq<EffectSource>): (r: EffectStatus)
    ensures r.EffectAvailable? <==>
              forall s :: s in sources ==> HasCoordinate(s.at) && (InInterval(i, s.at) ==> s.status.PreservesIndex?)
  {
    if sources == [] then EffectAvailable
    else
      var s := sources[0];
      if !HasCoordinate(s.at) then EffectMissingSourceCoordinate
      else if InInterval(i, s.at) && !SourceEffect(s).EffectAvailable? then SourceEffect(s)
      else ScanSources(i, sources[1..])
  }

  method ScanEffectSources(i: Interval, sources: seq<EffectSource>) returns (r: EffectStatus)
    ensures r == ScanSources(i, sources)
  {
    assert sources[0..] == sources;
    for k := 0 to |sources|
      invariant ScanSources(i, sources) == ScanSources(i, sources[k..])
    {
      var s := sources[k];
      assert sources[k..][1..] == sources[k + 1..];
      if !HasCoordinate(s.at) {
        return EffectMissingSourceCoordinate;
      }
      if !InInterval(i, s.at) {
        continue;
      }
      if !SourceEffect(s).EffectAvailable? {
        return SourceEffect(s);
      }
    }
    return EffectAvailable;
  }

  /** A source the scan has nothing against. */
  ghost predicate Unobjectionable(i: Interval, s: EffectSource)
  {
    HasCoordinate(s.at) && (Scanned(i, s.at) ==> s.status.PreservesIndex?)
  }

  /**
   The scan is clean exactly when all sources have coordinates and those after the guard, up to and
   including the endpoint, preserve the index; otherwise it gives the complaint about the first that is not so.
   */
  lemma {:induction false} ScanExact(i: Interval, sources: seq<EffectSource>)
    ensures ScanSources(i, sources).EffectAvailable? <==> forall s :: s in sources ==> Unobjectionable(i, s)
    ensures forall k :: 0 <= k < |sources| && FirstObjection(i, sources, k) ==>
              ScanSources(i, sources) ==
              if HasCoordinate(sources[k].at) then SourceEffect(sources[k]) else EffectMissingSourceCoordinate
  {
    hide InInterval, Scanned, HasCoordinate, SourceEffect;
    if sources != [] {
      var rest := sources[1..];
      ScanExact(i, rest);
      ScannedExact(i, sources[0].at);
      Complains(sources[0]);
      forall k | 0 <= k < |sources| && FirstObjection(i, sources, k)
        ensures ScanSources(i, sources) ==
                if HasCoordinate(sources[k].at) then SourceEffect(sources[k]) else EffectMissingSourceCoordinate
      {
        if k > 0 {
          assert rest[k - 1] == sources[k];
          forall j | 0 <= j < k - 1
            ensures Unobjectionable(i, rest[j])
          {
            assert rest[j] == sources[j + 1];
          }
          assert FirstObjection(i, rest, k - 1);
        }
      }
      assert forall s :: s in sources <==> s == sources[0] || s in rest;
    }
  }

  ghost predicate FirstObjection(i: Interval, sources: seq<EffectSource>, k: nat)
    requires k < |sources|
  {
    !Unobjectionable(i, sources[k]) && forall j :: 0 <= j < k ==> Unobjectionable(i, sources[j])
  }

  /** What a complaint blames, and whether it says that the index is lost. */
  function Blames(e: EffectStatus): Option<(Family, bool)>
  {
    match e
    case CallClobbers => Some((CallOrHelper, true))
    case CallUnknown => Some((CallOrHelper, false))
    case AsmClobbers => Some((InlineAsm, true))
    case AsmUnknown => Some((InlineAsm, false))
    case PublicationClobbers => Some((PublicationFamily, true))
    case PublicationUnknown => Some((PublicationFamily, false))
    case MoveClobbers => Some((MoveBundle, true))
    case MoveUnknown => Some((MoveBundle, false))
    case CopyClobbers => Some((ParallelCopy, true))
    case CopyUnknown => Some((ParallelCopy, false))
    case _ => None
  }

  /** The complaint says whether the index is lost or in doubt, and blames the kind of code the source is. */
  lemma Complains(s: EffectSource)
    ensures SourceEffect(s).EffectAvailable? <==> s.status.PreservesIndex?
    ensures s.status.RedefinesIndexValue? ==> SourceEffect(s) == IndexRedefined
    ensures s.status.PhiOrAliasUnresolved? ==> SourceEffect(s) == IndexAliasUnresolved
    ensures s.status.ClobbersIndex? || s.status.UnknownModeled? || s.status.UnsupportedModeled? ==>
              match s.family
              case IndexDefinition => SourceEffect(s) == IndexRedefined
              case PhiOrAliasTransfer => SourceEffect(s) == IndexAliasUnresolved
              case UnknownFamily => SourceEffect(s) == EffectUnknown
              case _ => Blames(SourceEffect(s)) == Some((s.family, s.status.ClobbersIndex?))
  {
  }

  predicate StreamMatchesPath(stream: Stream, path: Ref<SelectedPath>)
    requires path.To?
  {
    stream.selectedPath.To? &&
    (SamePointer(stream.selectedPath, path) ||
     (var l, r := stream.selectedPath.target, path.target;
      && l.name.result != "" && l.name == r.name && l.producer == r.producer
      && l.guard.functionName == r.guard.functionName && l.guard.block == r.guard.block
      && l.guard.instruction == r.guard.instruction && l.guard.selectedLabel == r.guard.selectedLabel))
  }

  predicate StreamMatchesBridge(stream: Stream, bridge: Ref<Bridge>)
    requires bridge.To?
  {
    stream.bridge.To? &&
    (SamePointer(stream.bridge, bridge) ||
     (var l, r := stream.bridge.target, bridge.target;
      && l.name.result != "" && l.name == r.name && l.lookupKey == r.lookupKey && l.functionName == r.functionName
      && l.labelText == r.labelText && l.block == r.block && l.instruction == r.instruction &&
         l.resultValue == r.resultValue))
  }

  predicate StreamMatches(stream: Stream, path: Ref<SelectedPath>, bridge: Ref<Bridge>)
    requires path.To? && bridge.To?
  {
    StreamMatchesPath(stream, path) && StreamMatchesBridge(stream, bridge)
  }

  /** Where a guard stands and which way it is left. */
  function EdgeOf(g: Guard): (string, string, Option<nat>, string)
  {
    (g.functionName, g.block, g.instruction, g.selectedLabel)
  }

  /** A stream belongs to a path and an endpoint by address, or because their names, places and edges are equal. */
  lemma StreamMatchesExact(stream: Stream, path: Ref<SelectedPath>, bridge: Ref<Bridge>)
    requires path.To? && bridge.To?
    ensures StreamMatches(stream, path, bridge) <==>
            && stream.selectedPath.To? && stream.bridge.To?
            && (var l, r := stream.selectedPath.target, path.target;
                || stream.selectedPath.address == path.address
                || (l.name.result != "" && l.name == r.name && l.producer == r.producer &&
                    EdgeOf(l.guard) == EdgeOf(r.guard)))
            && (var l, r := stream.bridge.target, bridge.target;
                || stream.bridge.address == bridge.address
                || (l.name.result != "" && l == r.(available := l.available)))
  {
  }

  /** `find_local_array_ordered_effect_source_stream`: the only matching stream, or that there are several. */
  method FindEffectStream(streams: seq<Stream>, path: Ref<SelectedPath>, bridge: Ref<Bridge>)
    returns (found: Option<nat>, duplicate: bool)
    requires path.To? && bridge.To?
    ensures duplicate <==>
              exists i, j :: 0 <= i < j < |streams| && StreamMatches(streams[i], path, bridge) &&
                StreamMatches(streams[j], path, bridge)
    ensures found.Some? ==> found.value < |streams| && StreamMatches(streams[found.value], path, bridge)
    ensures found.Some? ==> forall i :: 0 <= i < |streams| && StreamMatches(streams[i], path, bridge) ==>
            i == found.value
    ensures found.None? && !duplicate ==> forall i :: 0 <= i < |streams| ==> !StreamMatches(streams[i], path, bridge)
  {
    hide StreamMatches;
    found, duplicate := None, false;
    for i := 0 to |streams|
      invariant found.Some? ==> found.value < i && StreamMatches(streams[found.value], path, bridge)
      invariant found.Some? ==> forall k :: 0 <= k < i && StreamMatches(streams[k], path, bridge) ==> k == found.value
      invariant found.None? ==> forall k :: 0 <= k < i ==> !StreamMatches(streams[k], path, bridge)
    {
      if !StreamMatches(streams[i], path, bridge) {
        continue;
      }
      if found.Some? {
        return None, true;
      }
      found := Some(i);
    }
  }

  datatype EffectInputs =
    EffectInputs(selectedPath: Ref<SelectedPath>, bridge: Ref<Bridge>, stream: Ref<Stream>, duplicateStream: bool,
                 confusion: bool, rawShapeOnly: bool)

  datatype IntervalEffect =
    IntervalEffect(status: EffectStatus, selectedPath: Ref<SelectedPath>, producer: Producer,
                   dynamicIndex: Option<Value>,
                   proofFunction: string, proofBlock: string, selectedLabel: string)

  /** The checks that come before the dynamic index is looked for. */
  predicate IndexLookedFor(path: SelectedPath)
  {
    && path.producer.lookupKey != "" && path.coordinateAvailable && path.role.AddressDerivation?
    && !path.guard.outcome.NoOutcome? && path.guard.selectedLabel != ""
    && path.coverage.validityKnown && path.coverage.reaches && path.coverage.covers
  }

  /** The checks on the guard, before the prepared code is looked at. */
  function GuardEffect(path: SelectedPath): EffectStatus
  {
    var g := path.guard;
    if path.producer.lookupKey == "" then EffectMissingLookupKey
    else if !path.coordinateAvailable then EffectMissingCoordinate
    else if !path.role.AddressDerivation? then EffectUnsupportedRole
    else if g.outcome.NoOutcome? || g.selectedLabel == "" then EffectMissingOutcome
    else if !path.coverage.validityKnown then EffectMissingValidity
    else if !path.coverage.reaches || !path.coverage.covers then EffectNotCovering
    else if path.elementPath.Null? || !HasSingleDynamic(path.elementPath.target) then EffectMissingIndex
    else if !SameNamed(g.lhs, SingleDynamic(path.elementPath.target)) &&
      !SameNamed(g.rhs, SingleDynamic(path.elementPath.target))
    then EffectOperandMismatch
    else if g.block == path.producer.block &&
            (g.instruction.None? || path.producer.instruction.None? ||
             g.instruction.value >= path.producer.instruction.value)
    then EffectMissingOrdering
    else EffectAvailable
  }

  /** The checks on the stream and the scan of its interval. */
  function StreamEffect(inputs: EffectInputs): EffectStatus
    requires inputs.selectedPath.To?
  {
    if inputs.bridge.Null? || !inputs.bridge.target.available then EffectMissingBridge
    else
      var bridge := inputs.bridge.target;
      if bridge.block.None? || bridge.instruction.None? || bridge.labelText == "" then EffectMissingSourceCoordinate
      else if inputs.duplicateStream then EffectDuplicateStream
      else if inputs.stream.Null? then EffectMissingStream
      else
        var stream := inputs.stream.target;
        match stream.status
        case MissingBuilder => EffectMissingStream
        case MissingLowerBoundary => EffectMissingSourceCoordinate
        case MissingEndpointCoordinate => EffectMissingSourceCoordinate
        case MissingSourceCoordinate => EffectMissingSourceCoordinate
        case UnorderedBoundary => EffectUnordered
        case UnsupportedEffect => EffectUnknown
        case StreamAvailable =>
          var i := stream.interval;
          if !StreamMatchesPath(stream, inputs.selectedPath) || !StreamMatchesBridge(stream, inputs.bridge) then
            EffectMissingStream
          else if !HasCoordinate(i.proof) || !HasCoordinate(i.endpoint) then EffectMissingSourceCoordinate
          else if CompareCoordinates(i.endpoint, Coordinate(bridge.block, bridge.labelText, bridge.instruction, 0)) != 0
          then EffectMissingSourceCoordinate
          else if CompareCoordinates(i.proof, i.endpoint) >= 0 then EffectUnordered
          else ScanSources(i, stream.sources)
  }

  function EffectStatusOf(inputs: EffectInputs): EffectStatus
  {
    if inputs.rawShapeOnly then EffectRawShape
    else if inputs.confusion then EffectConfusion
    else if inputs.selectedPath.Null? || !inputs.selectedPath.target.status.PathAvailable? then EffectMissingValidity
    else if !GuardEffect(inputs.selectedPath.target).EffectAvailable? then GuardEffect(inputs.selectedPath.target)
    else StreamEffect(inputs)
  }

  /** `evaluate_local_array_interval_effect`. */
  function EvaluateIntervalEffect(inputs: EffectInputs): IntervalEffect
  {
    if inputs.rawShapeOnly || inputs.confusion || inputs.selectedPath.Null? ||
      !inputs.selectedPath.target.status.PathAvailable?
    then IntervalEffect(EffectStatusOf(inputs), inputs.selectedPath, NO_PRODUCER, None, "", "", "")
    else
      var path := inputs.selectedPath.target;
      var single := IndexLookedFor(path) && path.elementPath.To? && HasSingleDynamic(path.elementPath.target);
      IntervalEffect(EffectStatusOf(inputs), inputs.selectedPath, path.producer,
                     if single then Some(SingleDynamic(path.elementPath.target)) else None,
                     path.guard.functionName, path.guard.block, path.guard.selectedLabel)
  }

  // ------------------------------------------------------ what the scan proves

  /** Something executed between the guard and the address, and the index after it. */
  datatype Event = Event(at: Coordinate, index: int)

  function IndexBefore(start: int, events: seq<Event>, k: nat): int
    requires k <= |events|
  {
    if k == 0 then start else events[k - 1].index
  }

  /** Every event that changes the index is a source of the stream, and not one marked as preserving it. */
  ghost predicate Listed(stream: Stream, start: int, events: seq<Event>)
  {
    forall k :: 0 <= k < |events| && events[k].index != IndexBefore(start, events, k) ==>
      ListedChange(stream, events[k].at)
  }

  ghost predicate ListedChange(stream: Stream, at: Coordinate)
  {
    exists s :: s in stream.sources && s.at == at && !s.status.PreservesIndex?
  }

  /** Coordinates are positions in the layout of the code, so a run between guard and address can leave them. */
  ghost predicate StaysInside(stream: Stream, events: seq<Event>)
  {
    forall k :: 0 <= k < |events| ==> Scanned(stream.interval, events[k].at)
  }

  /** The sources that the scan skips preserve the index as well. */
  ghost predicate SkippedPreserve(stream: Stream)
  {
    forall s :: s in stream.sources && !Scanned(stream.interval, s.at) ==> s.status.PreservesIndex?
  }

  lemma {:induction false} CleanScanKeepsIndex(stream: Stream, start: int, events: seq<Event>, k: nat)
    requires ScanSources(stream.interval, stream.sources).EffectAvailable? && Listed(stream, start, events)
    requires SkippedPreserve(stream) || StaysInside(stream, events)
    requires k <= |events|
    ensures IndexBefore(start, events, k) == start
  {
    hide InInterval, Scanned, HasCoordinate, SourceEffect;
    ScanExact(stream.interval, stream.sources);
    if k > 0 {
      CleanScanKeepsIndex(stream, start, events, k - 1);
      assert SkippedPreserve(stream) || Scanned(stream.interval, events[k - 1].at);
    }
  }

  /**
   What a clean scan proves of every run that a stream lists: the index reaches the endpoint unchanged
   exactly if the sources outside the interval, which the scan does not judge, preserve it too.
   */
  lemma CleanScanExact(stream: Stream)
    requires ScanSources(stream.interval, stream.sources).EffectAvailable?
    ensures SkippedPreserve(stream) <==>
            forall start, events :: Listed(stream, start, events) ==> IndexBefore(start, events, |events|) == start
  {
    hide ScanSources, Scanned;
    if SkippedPreserve(stream) {
      forall start, events | Listed(stream, start, events)
        ensures IndexBefore(start, events, |events|) == start
      {
        CleanScanKeepsIndex(stream, start, events, |events|);
      }
    } else {
      var event := SkippedChange(stream, 0, 1);
      assert IndexBefore(0, [event], 1) == 1;
    }
  }

  /** A skipped source that does not preserve the index lists a run that sets it to anything. */
  lemma SkippedChange(stream: Stream, start: int, index: int) returns (event: Event)
    requires !SkippedPreserve(stream)
    ensures event.index == index && Listed(stream, start, [event])
  {
    var s :| s in stream.sources && !Scanned(stream.interval, s.at) && !s.status.PreservesIndex?;
    event := Event(s.at, index);
  }

  // ------------------------------------------------------ the range certificate

  datatype RangeStatus =
    | RangeAvailable | RangeMissingElementPath | MissingProofFact | MissingCertificate | MissingSelectedPath
    | SelectedPathOnly | MissingIntervalEffect | IntervalEffectOnly | MissingDynamicIndex | MissingProofSource
    | UnsupportedProofSource | MissingProducerCoordinate | RangeConfusion | MissingLowerBound | MissingUpperBound
    | UnsupportedPredicate | UnsupportedIndexWidth | OperandRoleMismatch | BoundValueMismatch | ProofFunctionMismatch
    | ProofNotDominating | PathNotCovering | MissingPathValidity | MissingNoClobber | RangeIndexClobbered
    | RangeIndexRedefined | RangeAliasUnresolved | RangeCallUnknown | RangeCallClobbers | RangeAsmUnknown
    | RangeAsmClobbers
    | RangePublicationUnknown | RangePublicationClobbers | RangeRawShape | RangeTargetOnly | RangeUnsupportedBoundary

  datatype RangePredicate = RUnknown | RSlt | RSle | RSge | RUge | RUlt | RUle
  datatype ProofSource = NoSource | BranchCondition | ExplicitCompare

  datatype Position = Position(functionName: string, block: string, instruction: Option<nat>)

  /** What a certificate says: where the bounds come from, what they are, and that they still hold. */
  datatype Bounds =
    Bounds(source: ProofSource, lhs: Value, rhs: Value, compareType: TypeKind, lowerPredicate: RangePredicate,
           upperPredicate: RangePredicate, lower: I64, lowerInclusive: bool, upper: U64, upperExclusive: bool,
           validityKnown: bool, dominates: bool, covers: bool, noClobberKnown: bool)

  datatype Clobbers =
    Clobbers(clobbered: bool, redefined: bool, aliasUnresolved: bool, callUnknown: bool, callClobbers: bool,
             asmUnknown: bool, publicationUnknown: bool, publicationClobbers: bool)

  const NO_CLOBBERS := Clobbers(false, false, false, false, false, false, false, false)

  datatype RangeInputs =
    RangeInputs(elementPath: Ref<ElementPath>, consumer: Position, proof: Position, bounds: Bounds,
                lowerAvailable: bool,
                upperAvailable: bool, rolesMatch: bool, clobbers: Clobbers, rawShapeOnly: bool, targetOnly: bool,
                unsupportedBoundary: bool)

  datatype RangeProof =
    RangeProof(status: RangeStatus, elementPath: Ref<ElementPath>, dynamicIndex: Option<Value>, consumer: Position,
               proof: Position, bounds: Bounds)

  const NO_POSITION := Position("", "", None)
  const NO_VALUE := Immediate(Void, 0)
  const NO_BOUNDS :=
    Bounds(NoSource, NO_VALUE, NO_VALUE, Void, RUnknown, RUnknown, 0, true, 0, true, false, false, false, false)

  function NoRangeProof(status: RangeStatus, path: Ref<ElementPath>): RangeProof
  {
    RangeProof(status, path, None, NO_POSITION, NO_POSITION, NO_BOUNDS)
  }

  /** The checks that need the dynamic index. */
  function BoundsStatus(inputs: RangeInputs, path: ElementPath, index: Value): RangeStatus
  {
    var b, c := inputs.bounds, inputs.clobbers;
    if b.source.NoSource? then MissingProofSource
    else if inputs.consumer.functionName != "" && inputs.proof.functionName != "" &&
      inputs.consumer.functionName != inputs.proof.functionName
    then ProofFunctionMismatch
    else if !inputs.lowerAvailable then MissingLowerBound
    else if !inputs.upperAvailable then MissingUpperBound
    else if !(b.lowerPredicate.RSge? || b.lowerPredicate.RUge?) || !(b.upperPredicate.RSlt? || b.upperPredicate.RUlt?)
    then UnsupportedPredicate
    else if !(index.ty.Int32? || index.ty.Int64?) || b.compareType != index.ty then UnsupportedIndexWidth
    else if !inputs.rolesMatch then OperandRoleMismatch
    else if b.lower != 0 || !b.lowerInclusive || b.upper != path.elementCount || !b.upperExclusive then
      BoundValueMismatch
    else if !b.validityKnown then MissingPathValidity
    else if !b.dominates then ProofNotDominating
    else if !b.covers then PathNotCovering
    else if !b.noClobberKnown then MissingNoClobber
    else if c.clobbered then RangeIndexClobbered
    else if c.redefined then RangeIndexRedefined
    else if c.callUnknown then RangeCallUnknown
    else if c.callClobbers then RangeCallClobbers
    else if c.asmUnknown then RangeAsmUnknown
    else if c.publicationUnknown then RangePublicationUnknown
    else if c.publicationClobbers then RangePublicationClobbers
    else RangeAvailable
  }

  /** `evaluate_local_array_index_range_proof`. */
  function EvaluateRangeProof(inputs: RangeInputs): RangeProof
  {
    var record := RangeProof(RangeAvailable, inputs.elementPath, None, inputs.consumer, inputs.proof, inputs.bounds);
    if inputs.rawShapeOnly then record.(status := RangeRawShape)
    else if inputs.targetOnly then record.(status := RangeTargetOnly)
    else if inputs.unsupportedBoundary then record.(status := RangeUnsupportedBoundary)
    else if inputs.elementPath.Null? then record.(status := RangeMissingElementPath)
    else
      var dynamic := DynamicIndices(inputs.elementPath.target.indices);
      if |dynamic| > 1 || inputs.clobbers.aliasUnresolved then record.(status := RangeAliasUnresolved)
      else if dynamic == [] then record.(status := MissingDynamicIndex)
      else record.(status := BoundsStatus(inputs, inputs.elementPath.target, dynamic[0]),
                   dynamicIndex := Some(dynamic[0]))
  }

  /** When bounds prove an index in range, whoever gives them. */
  lemma RangeProofExact(inputs: RangeInputs)
    ensures EvaluateRangeProof(inputs).status.RangeAvailable? <==>
            && inputs.elementPath.To? && !inputs.rawShapeOnly && !inputs.targetOnly && !inputs.unsupportedBoundary
            && inputs.clobbers == NO_CLOBBERS && HasSingleDynamic(inputs.elementPath.target)
            && inputs.lowerAvailable && inputs.upperAvailable && inputs.rolesMatch
            && (var b, ty := inputs.bounds, SingleDynamic(inputs.elementPath.target).ty;
                && !b.source.NoSource?
                && (inputs.consumer.functionName == inputs.proof.functionName || inputs.consumer.functionName == "" ||
                    inputs.proof.functionName == "")
                && (b.lowerPredicate.RSge? || b.lowerPredicate.RUge?)
                && (b.upperPredicate.RSlt? || b.upperPredicate.RUlt?)
                && b.compareType == ty && (ty.Int32? || ty.Int64?)
                && b.lower == 0 && b.lowerInclusive && b.upper == inputs.elementPath.target.elementCount
                && b.upperExclusive && b.validityKnown && b.dominates && b.covers && b.noClobberKnown)
  {
    hide DynamicIndices;
  }

  predicate PathMatchesElement(path: SelectedPath, element: Ref<ElementPath>)
    requires element.To?
  {
    SamePointer(path.elementPath, element) ||
    (path.name.result != "" && path.name == element.target.name && path.producer == element.target.producer)
  }

  predicate EffectMatchesPath(effect: IntervalEffect, path: Ref<SelectedPath>)
    requires path.To?
  {
    var p := path.target;
    SamePointer(effect.selectedPath, path) ||
    (&& p.elementPath.To? && HasSingleDynamic(p.elementPath.target)
     && effect.producer == p.producer && effect.proofFunction == p.guard.functionName &&
        effect.proofBlock == p.guard.block
     && effect.selectedLabel == p.guard.selectedLabel && effect.dynamicIndex.Some?
     && SameNamed(effect.dynamicIndex.value, SingleDynamic(p.elementPath.target)))
  }

  function RangeStatusOfPath(s: PathStatus): RangeStatus
  {
    match s
    case PathAvailable => MissingIntervalEffect
    case PathMissingElementPath => RangeMissingElementPath
    case PathMissingLookupKey => MissingProducerCoordinate
    case PathMissingCoordinate => MissingProducerCoordinate
    case PathUnsupportedRole => UnsupportedProofSource
    case PathMissingProofSource => MissingProofSource
    case PathFunctionMismatch => ProofFunctionMismatch
    case PathMissingEdge => MissingPathValidity
    case PathMissingOutcome => MissingPathValidity
    case PathNonCovering => PathNotCovering
    case PathNonDominating => ProofNotDominating
    case PathUnsupportedBoundary => RangeUnsupportedBoundary
    case PathMissingOrdering => RangeUnsupportedBoundary
    case PathConfusion => RangeConfusion
    case PathRawShape => RangeRawShape
    case PathTargetOnly => RangeTargetOnly
  }

  function RangeStatusOfEffect(s: EffectStatus): RangeStatus
  {
    match s
    case EffectAvailable => RangeAvailable
    case EffectMissingLookupKey => MissingProducerCoordinate
    case EffectMissingCoordinate => MissingProducerCoordinate
    case EffectMissingSourceCoordinate => MissingProducerCoordinate
    case EffectUnsupportedRole => UnsupportedProofSource
    case EffectMissingIndex => MissingDynamicIndex
    case EffectOperandMismatch => OperandRoleMismatch
    case EffectMissingOutcome => MissingPathValidity
    case EffectMissingValidity => MissingPathValidity
    case EffectNotCovering => PathNotCovering
    case EffectMissingBridge => RangeUnsupportedBoundary
    case EffectMissingOrdering => RangeUnsupportedBoundary
    case EffectUnordered => RangeUnsupportedBoundary
    case EffectConfusion => RangeConfusion
    case EffectMissingStream => MissingIntervalEffect
    case EffectDuplicateStream => MissingIntervalEffect
    case IndexRedefined => RangeIndexRedefined
    case IndexAliasUnresolved => RangeAliasUnresolved
    case CallUnknown => RangeCallUnknown
    case CallClobbers => RangeCallClobbers
    case AsmUnknown => RangeAsmUnknown
    case AsmClobbers => RangeAsmClobbers
    case PublicationUnknown => RangePublicationUnknown
    case MoveUnknown => RangePublicationUnknown
    case CopyUnknown => RangePublicationUnknown
    case EffectUnknown => RangePublicationUnknown
    case PublicationClobbers => RangePublicationClobbers
    case MoveClobbers => RangePublicationClobbers
    case CopyClobbers => RangePublicationClobbers
    case EffectRawShape => RangeRawShape
  }

  predicate IsUnsignedUpper(p: Predicate) { p.PUlt? || p.PUle? }
  predicate IsSignedUpper(p: Predicate) { p.PSlt? || p.PSle? }

  datatype CertificateInputs =
    CertificateInputs(elementPath: Ref<ElementPath>, selectedPath: Ref<SelectedPath>, effect: Ref<IntervalEffect>,
                      effectOnly: bool)

  /** The exclusive upper bound a guard gives; an inclusive bound is moved up by one. */
  function ExclusiveBound(g: Guard): (r: Option<I64>)
    requires g.bound.Some?
  {
    if !g.inclusive then g.bound
    else if g.bound.value == INT64_MAX then None
    else Some(g.bound.value + 1)
  }

  /** `evaluate_local_array_index_range_proof_certificate`. */
  function EvaluateCertificate(inputs: CertificateInputs): RangeProof
  {
    if inputs.elementPath.Null? then NoRangeProof(RangeMissingElementPath, inputs.elementPath)
    else if inputs.effectOnly then NoRangeProof(IntervalEffectOnly, inputs.elementPath)
    else if inputs.selectedPath.Null? then NoRangeProof(MissingSelectedPath, inputs.elementPath)
    else
      var path, selected := inputs.elementPath.target, inputs.selectedPath.target;
      if !PathMatchesElement(selected, inputs.elementPath) then NoRangeProof(RangeConfusion, inputs.elementPath)
      else if !selected.status.PathAvailable? then NoRangeProof(RangeStatusOfPath(selected.status), inputs.elementPath)
      else if inputs.effect.Null? then NoRangeProof(SelectedPathOnly, inputs.elementPath)
      else if !EffectMatchesPath(inputs.effect.target, inputs.selectedPath) then
        NoRangeProof(MissingIntervalEffect, inputs.elementPath)
      else if !inputs.effect.target.status.EffectAvailable? then
        NoRangeProof(RangeStatusOfEffect(inputs.effect.target.status), inputs.elementPath)
      else if DynamicIndices(path.indices) == [] then NoRangeProof(MissingDynamicIndex, inputs.elementPath)
      else if !HasSingleDynamic(path) then NoRangeProof(RangeAliasUnresolved, inputs.elementPath)
      else BoundCertificate(inputs.elementPath, selected)
  }

  function BoundCertificate(elementPath: Ref<ElementPath>, selected: SelectedPath): RangeProof
    requires elementPath.To? && HasSingleDynamic(elementPath.target)
  {
    var g, c, index := selected.guard, selected.coverage, SingleDynamic(elementPath.target);
    if g.bound.None? || !g.contribution.Upper? then NoRangeProof(MissingUpperBound, elementPath)
    else if !IsUnsignedUpper(g.comparison) && !IsSignedUpper(g.comparison) then
      NoRangeProof(UnsupportedPredicate, elementPath)
    else if ExclusiveBound(g).None? || ExclusiveBound(g).value < 0 then
      NoRangeProof(RangeUnsupportedBoundary, elementPath)
    else
      var unsigned := IsUnsignedUpper(g.comparison);
      EvaluateRangeProof(
        RangeInputs(
          elementPath,
          Position(selected.producer.functionName, selected.producer.block, selected.producer.instruction),
          Position(g.functionName, g.block, g.instruction),
          Bounds(BranchCondition, g.lhs, g.rhs, g.compareType,
                 if unsigned then RUge else RSge, if unsigned then RUlt else RSlt,
                 0, true, ExclusiveBound(g).value, true, c.validityKnown, c.dominates || c.guards, c.covers, true),
          true, true, SameNamed(g.lhs, index) || SameNamed(g.rhs, index), NO_CLOBBERS, false, false, false))
  }

  // ------------------------------------------------------ proof fact and checker

  datatype ProofFact =
    ProofFact(status: RangeStatus, elementPath: Ref<ElementPath>, dynamicIndex: Option<Value>, producer: Producer,
              proof: Position, bounds: Bounds)

  predicate ProofMatchesElement(proof: RangeProof, element: Ref<ElementPath>)
    requires element.To?
  {
    proof.elementPath.To? &&
    (SamePointer(proof.elementPath, element) ||
     (var l, r := proof.elementPath.target, element.target;
      l.name.result != "" && l.name == r.name && l.producer == r.producer))
  }

  /** The checks of `evaluate_local_array_proof_fact` on a matching certificate. */
  function FactStatus(path: ElementPath, proof: RangeProof): RangeStatus
  {
    var b := proof.bounds;
    if !proof.status.RangeAvailable? then proof.status
    else if |DynamicIndices(path.indices)| > 1 then RangeAliasUnresolved
    else if DynamicIndices(path.indices) == [] then MissingDynamicIndex
    else if proof.dynamicIndex.None? || !SameNamed(proof.dynamicIndex.value, DynamicIndices(path.indices)[0]) then
      OperandRoleMismatch
    else if !path.coordinateAvailable || path.producer.lookupKey == "" then MissingProducerCoordinate
    else if proof.consumer != Position(path.producer.functionName, path.producer.block, path.producer.instruction) then
      RangeConfusion
    else if b.lower != 0 || !b.lowerInclusive || b.upper != path.elementCount || !b.upperExclusive then
      BoundValueMismatch
    else if !b.validityKnown then MissingPathValidity
    else if !b.dominates then ProofNotDominating
    else if !b.covers then PathNotCovering
    else if !b.noClobberKnown then MissingNoClobber
    else RangeAvailable
  }

  /** `evaluate_local_array_proof_fact`. */
  function EvaluateProofFact(elementPath: Ref<ElementPath>, proof: Ref<RangeProof>): ProofFact
  {
    if elementPath.Null? then ProofFact(RangeMissingElementPath, elementPath, None, NO_PRODUCER, NO_POSITION, NO_BOUNDS)
    else
      var path := elementPath.target;
      var nothing := ProofFact(MissingCertificate, elementPath, None, path.producer, NO_POSITION, NO_BOUNDS);
      if proof.Null? then nothing
      else if !ProofMatchesElement(proof.target, elementPath) then nothing.(status := RangeConfusion)
      else
        ProofFact(FactStatus(path, proof.target), elementPath, proof.target.dynamicIndex, path.producer,
                  proof.target.proof,
                  proof.target.bounds)
  }

  datatype CheckerInput = CheckerInput(status: RangeStatus, elementPath: Ref<ElementPath>, record: RangeProof)

  predicate FactMatchesElement(fact: ProofFact, element: Ref<ElementPath>)
    requires element.To?
  {
    SamePointer(fact.elementPath, element) ||
    (&& HasSingleDynamic(element.target) && fact.producer == element.target.producer && fact.dynamicIndex.Some?
     && SameNamed(fact.dynamicIndex.value, SingleDynamic(element.target)))
  }

  /** `evaluate_local_array_index_range_checker_input`: the fact is turned back into inputs and checked again. */
  function EvaluateCheckerInput(elementPath: Ref<ElementPath>, fact: Ref<ProofFact>): CheckerInput
  {
    if elementPath.Null? then
      CheckerInput(RangeMissingElementPath, elementPath, NoRangeProof(RangeMissingElementPath, Null))
    else if fact.Null? then CheckerInput(MissingProofFact, elementPath, NoRangeProof(MissingProofFact, elementPath))
    else if !FactMatchesElement(fact.target, elementPath) then
      CheckerInput(RangeConfusion, elementPath, NoRangeProof(RangeConfusion, elementPath))
    else if !fact.target.status.RangeAvailable? then
      CheckerInput(fact.target.status, elementPath, NoRangeProof(fact.target.status, elementPath))
    else
      var f := fact.target;
      var roles := HasSingleDynamic(elementPath.target) &&
                   (SameNamed(f.bounds.lhs, SingleDynamic(elementPath.target)) ||
                    SameNamed(f.bounds.rhs, SingleDynamic(elementPath.target)));
      var record :=
        EvaluateRangeProof(
          RangeInputs(elementPath, Position(f.producer.functionName, f.producer.block, f.producer.instruction),
                      f.proof, f.bounds,
                      true, true, roles, NO_CLOBBERS, false, false, false));
      CheckerInput(record.status, elementPath, record)
  }

  /** The certificate of a path evaluated on the element path itself. */
  ghost predicate CertifiedOn(elementPath: Ref<ElementPath>, inputs: PathInputs, selectedPath: Ref<SelectedPath>,
                              effect: Ref<IntervalEffect>)
  {
    && elementPath.To? && inputs.elementPath == elementPath
    && selectedPath.To? && selectedPath.target == EvaluateSelectedPath(inputs)
    && EvaluateCertificate(CertificateInputs(elementPath, selectedPath, effect, false)).status.RangeAvailable?
  }

  lemma CertificateShape(elementPath: Ref<ElementPath>, inputs: PathInputs, selectedPath: Ref<SelectedPath>,
                         effect: Ref<IntervalEffect>)
    requires CertifiedOn(elementPath, inputs, selectedPath, effect)
    ensures var proof := EvaluateCertificate(CertificateInputs(elementPath, selectedPath, effect, false));
            && selectedPath.target.status.PathAvailable?
            && effect.To? && EffectMatchesPath(effect.target, selectedPath) && effect.target.status.EffectAvailable?
            && HasSingleDynamic(elementPath.target)
            && proof == BoundCertificate(elementPath, selectedPath.target)
  {
    hide EffectMatchesPath, BoundCertificate, PathStatusOf;
  }

  /**
   An available certificate, built from a path evaluated on the same element path, passes the proof
   fact stage, and the checker reproduces it field for field.
   */
  lemma CheckerReproducesCertificate(elementPath: Ref<ElementPath>, inputs: PathInputs, selectedPath: Ref<SelectedPath>,
                                     effect: Ref<IntervalEffect>, a: nat, b: nat)
    requires CertifiedOn(elementPath, inputs, selectedPath, effect)
    ensures var proof := EvaluateCertificate(CertificateInputs(elementPath, selectedPath, effect, false));
            var fact := EvaluateProofFact(elementPath, To(a, proof));
            && fact.status.RangeAvailable?
            && EvaluateCheckerInput(elementPath, To(b, fact)) == CheckerInput(RangeAvailable, elementPath, proof)
  {
    hide EvaluateCertificate, EffectMatchesPath;
    CertificateShape(elementPath, inputs, selectedPath, effect);
  }

  /** Bounds that prove an index of the path: known, from zero inclusive to the element count, and still valid. */
  predicate BoundsHold(path: ElementPath, b: Bounds)
  {
    && b.lower == 0 && b.lowerInclusive && b.upper == path.elementCount && b.upperExclusive
    && b.validityKnown && b.dominates && b.covers && b.noClobberKnown
  }

  /** When a certificate, from whatever source, becomes a proof fact. */
  lemma FactExact(elementPath: Ref<ElementPath>, proof: Ref<RangeProof>)
    ensures EvaluateProofFact(elementPath, proof).status.RangeAvailable? <==>
            && elementPath.To? && proof.To? && proof.target.status.RangeAvailable?
            && proof.target.elementPath.To? && HasSingleDynamic(elementPath.target)
            && (var l, r := proof.target.elementPath, elementPath;
                || l.address == r.address
                || (l.target.name.result != "" &&
                    l.target.name == r.target.name && l.target.producer == r.target.producer))
            && proof.target.dynamicIndex == Some(SingleDynamic(elementPath.target))
            && IsNamed(SingleDynamic(elementPath.target))
            && (var path := elementPath.target;
                && path.coordinateAvailable && path.producer.lookupKey != ""
                && proof.target.consumer ==
                   Position(path.producer.functionName, path.producer.block, path.producer.instruction)
                && BoundsHold(path, proof.target.bounds))
  {
    hide DynamicIndices;
  }

  /** When a proof fact, from whatever source, satisfies the checker, which tests its bounds again. */
  lemma CheckerExact(elementPath: Ref<ElementPath>, fact: Ref<ProofFact>)
    ensures EvaluateCheckerInput(elementPath, fact).status.RangeAvailable? <==>
            && elementPath.To? && fact.To? && fact.target.status.RangeAvailable?
            && HasSingleDynamic(elementPath.target)
            && (var path, f, b, index :=
                  elementPath.target, fact.target, fact.target.bounds, SingleDynamic(elementPath.target);
                && (|| (f.elementPath.To? && f.elementPath.address == elementPath.address)
                    || (f.producer == path.producer && f.dynamicIndex == Some(index)))
                && !b.source.NoSource?
                && (f.producer.functionName == f.proof.functionName || f.producer.functionName == "" ||
                    f.proof.functionName == "")
                && (b.lowerPredicate.RSge? || b.lowerPredicate.RUge?)
                && (b.upperPredicate.RSlt? || b.upperPredicate.RUlt?)
                && b.compareType == index.ty && (index.ty.Int32? || index.ty.Int64?)
                && IsNamed(index) && (b.lhs == index || b.rhs == index) && BoundsHold(path, b))
  {
    hide DynamicIndices;
  }

  // ------------------------------------------------------ bounds read off a branch

  datatype Facts = Facts(comparison: Predicate, contribution: Contribution, bound: Option<I64>, inclusive: bool)

  function PredicateOf(op: Opcode): Predicate
  {
    match op
    case Slt => PSlt
    case Sle => PSle
    case Sgt => PSgt
    case Sge => PSge
    case Ult => PUlt
    case Ule => PUle
    case Ugt => PUgt
    case Uge => PUge
    case _ => UnknownPredicate
  }

  predicate IsUpperOpcode(op: Opcode) { op.Slt? || op.Sle? || op.Ult? || op.Ule? }
  predicate IsInclusiveOpcode(op: Opcode) { op.Sle? || op.Sge? || op.Ule? || op.Uge? }

  /** `selected_proof_edge_bound_facts`: which edge is taken plays no part. */
  function BoundFacts(path: ElementPath, op: Opcode, ty: TypeKind, lhs: Value, rhs: Value): Option<Facts>
  {
    if PredicateOf(op).UnknownPredicate? || !HasSingleDynamic(path) || !SingleDynamic(path).Named? ||
      SingleDynamic(path).ty != ty then None
    else
      var index := SingleDynamic(path);
      if lhs == index && rhs.Immediate? && rhs.ty == ty then
        Some(Facts(PredicateOf(op), if IsUpperOpcode(op) then Upper else Lower,
                   Some(rhs.immediate), IsInclusiveOpcode(op)))
      else if rhs == index && lhs.Immediate? && lhs.ty == ty then
        Some(Facts(PredicateOf(op), if IsUpperOpcode(op) then Lower else Upper,
                   Some(lhs.immediate), IsInclusiveOpcode(op)))
      else None
  }

  ghost predicate GuardFrom(g: Guard, path: ElementPath, op: Opcode)
  {
    BoundFacts(path, op, g.compareType, g.lhs, g.rhs) == Some(Facts(g.comparison, g.contribution, g.bound, g.inclusive))
  }

  // What taking an edge says about the index.

  predicate IsWord(x: int, ty: TypeKind) { 0 <= x < Span(ty) }

  predicate FitsType(c: int, ty: TypeKind) { 0 - Span(ty) <= 2 * c < Span(ty) }

  /** The comparison of a branch on two words. */
  predicate Compares(p: Predicate, ty: TypeKind, x: int, y: int)
  {
    match p
    case PUlt => x < y
    case PUle => x <= y
    case PUgt => x > y
    case PUge => x >= y
    case PSlt => AsSigned(x, ty) < AsSigned(y, ty)
    case PSle => AsSigned(x, ty) <= AsSigned(y, ty)
    case PSgt => AsSigned(x, ty) > AsSigned(y, ty)
    case PSge => AsSigned(x, ty) >= AsSigned(y, ty)
    case PEq => x == y
    case _ => x != y
  }

  /** With this word in the index, execution leaves the guard on the selected edge. */
  predicate TakesEdge(g: Guard, x: int)
    requires g.rhs.Immediate?
  {
    var holds := Compares(g.comparison, g.compareType, x, WordAt(g.rhs.immediate, g.compareType));
    if g.outcome.TrueEdge? then holds else !holds
  }

  /** The largest signed number of the type. */
  function MaxSigned(ty: TypeKind): int
  {
    if ty.Int32? then 0x7fff_ffff else INT64_MAX
  }

  /** The guard holds of every word, so its false edge is never taken. */
  predicate AlwaysHolds(g: Guard)
  {
    g.bound.Some? &&
      ((g.comparison.PUle? && g.bound.value == -1) || (g.comparison.PSle? && g.bound.value == MaxSigned(g.compareType)))
  }

  /** When an available certificate is a proof: an unsigned guard left on its true edge, or an edge never taken. */
  predicate GuardProves(g: Guard)
  {
    || (g.outcome.TrueEdge? && IsUnsignedUpper(g.comparison) && !AlwaysHolds(g))
    || (g.outcome.FalseEdge? && AlwaysHolds(g))
  }

  ghost predicate ProvesInBounds(g: Guard, count: nat)
    requires g.rhs.Immediate?
  {
    forall x :: IsWord(x, g.compareType) && TakesEdge(g, x) ==> 0 <= AsSigned(x, g.compareType) < count
  }

  /** An available certificate has the index on the left, compared with its element count. */
  lemma AvailableGuard(elementPath: Ref<ElementPath>, selected: SelectedPath, op: Opcode)
    requires elementPath.To? && HasSingleDynamic(elementPath.target)
    requires GuardFrom(selected.guard, elementPath.target, op)
    requires BoundCertificate(elementPath, selected).status.RangeAvailable?
    ensures var g, path := selected.guard, elementPath.target;
            && g.lhs == SingleDynamic(path) && g.rhs.Immediate? && g.bound == Some(g.rhs.immediate)
            && (g.compareType.Int32? || g.compareType.Int64?)
            && (IsUnsignedUpper(g.comparison) || IsSignedUpper(g.comparison))
            && g.inclusive == (g.comparison.PUle? || g.comparison.PSle?)
            && path.elementCount == g.rhs.immediate + (if g.inclusive then 1 else 0)
  {
  }

  /** Of the words that leave the guard on the selected edge, one is out of bounds. */
  function BadWord(g: Guard): int
    requires g.bound.Some?
  {
    if g.outcome.TrueEdge? then Span(g.compareType) - 1
    else if IsUnsignedUpper(g.comparison) then Span(g.compareType) - 1
    else if g.inclusive then g.bound.value + 1
    else g.bound.value
  }

  lemma UnsignedTrueEdge(g: Guard, count: nat, x: int)
    requires g.rhs.Immediate? && g.bound == Some(g.rhs.immediate) && (g.compareType.Int32? || g.compareType.Int64?)
    requires IsUnsignedUpper(g.comparison) && g.outcome.TrueEdge? && !AlwaysHolds(g)
    requires g.inclusive == g.comparison.PUle? && count == g.rhs.immediate + (if g.inclusive then 1 else 0)
    requires FitsType(g.rhs.immediate, g.compareType) && IsWord(x, g.compareType) && TakesEdge(g, x)
    ensures 0 <= AsSigned(x, g.compareType) < count
  {
  }

  lemma NeverTaken(g: Guard, x: int)
    requires g.rhs.Immediate? && g.bound == Some(g.rhs.immediate) && (g.compareType.Int32? || g.compareType.Int64?)
    requires g.outcome.FalseEdge? && AlwaysHolds(g) && IsWord(x, g.compareType)
    ensures !TakesEdge(g, x)
  {
  }

  lemma BadWordTaken(g: Guard, count: nat)
    requires g.rhs.Immediate? && g.bound == Some(g.rhs.immediate) && (g.compareType.Int32? || g.compareType.Int64?)
    requires (IsUnsignedUpper(g.comparison) || IsSignedUpper(g.comparison)) && !g.outcome.NoOutcome? && !GuardProves(g)
    requires g.inclusive == (g.comparison.PUle? || g.comparison.PSle?) &&
             count == g.rhs.immediate + (if g.inclusive then 1 else 0)
    requires FitsType(g.rhs.immediate, g.compareType)
    ensures IsWord(BadWord(g), g.compareType) && TakesEdge(g, BadWord(g))
    ensures !(0 <= AsSigned(BadWord(g), g.compareType) < count)
  {
  }

  /**
   Exactly when an available certificate proves the index in bounds. The code reads the bound off the
   predicate whichever edge is selected, so it is a proof for unsigned guards on the true edge only
   (and for edges that are never taken).
   */
  lemma CertificateExact(elementPath: Ref<ElementPath>, selected: SelectedPath, op: Opcode)
    requires elementPath.To? && HasSingleDynamic(elementPath.target)
    requires GuardFrom(selected.guard, elementPath.target, op) && !selected.guard.outcome.NoOutcome?
    requires BoundCertificate(elementPath, selected).status.RangeAvailable?
    requires selected.guard.rhs.Immediate? ==> FitsType(selected.guard.rhs.immediate, selected.guard.compareType)
    ensures selected.guard.rhs.Immediate?
    ensures ProvesInBounds(selected.guard, elementPath.target.elementCount) <==> GuardProves(selected.guard)
  {
    hide BoundCertificate, GuardFrom, TakesEdge, AlwaysHolds, BadWord;
    AvailableGuard(elementPath, selected, op);
    var g, count := selected.guard, elementPath.target.elementCount;
    if GuardProves(g) {
      forall x | IsWord(x, g.compareType) && TakesEdge(g, x)
        ensures 0 <= AsSigned(x, g.compareType) < count
      {
        if g.outcome.TrueEdge? {
          UnsignedTrueEdge(g, count, x);
        } else {
          NeverTaken(g, x);
        }
      }
    } else {
      BadWordTaken(g, count);
    }
  }

  /** If the index is known not to be negative, signed guards prove too, again on the true edge. */
  lemma SignedCertificateExact(elementPath: Ref<ElementPath>, selected: SelectedPath, op: Opcode)
    requires elementPath.To? && HasSingleDynamic(elementPath.target)
    requires GuardFrom(selected.guard, elementPath.target, op) && !selected.guard.outcome.NoOutcome?
    requires BoundCertificate(elementPath, selected).status.RangeAvailable?
    requires selected.guard.rhs.Immediate? ==> FitsType(selected.guard.rhs.immediate, selected.guard.compareType)
    requires IsSignedUpper(selected.guard.comparison)
    ensures selected.guard.rhs.Immediate?
    ensures var g, count := selected.guard, elementPath.target.elementCount;
            (forall x :: IsWord(x, g.compareType) && TakesEdge(g, x) && AsSigned(x, g.compareType) >= 0 ==>
               AsSigned(x, g.compareType) < count) <==>
            g.outcome.TrueEdge? || AlwaysHolds(g)
  {
    hide BoundCertificate, GuardFrom;
    AvailableGuard(elementPath, selected, op);
    var g := selected.guard;
    if !g.outcome.TrueEdge? && !AlwaysHolds(g) {
      assert IsWord(BadWord(g), g.compareType) && TakesEdge(g, BadWord(g));
    }
  }

  // ------------------------------------------------------ the chain as a bounds proof

  lemma AvailableEffectScanned(inputs: EffectInputs)
    requires EvaluateIntervalEffect(inputs).status.EffectAvailable?
    ensures inputs.stream.To? &&
            ScanSources(inputs.stream.target.interval, inputs.stream.target.sources).EffectAvailable?
  {
    hide GuardEffect, ScanSources, StreamMatchesPath, StreamMatchesBridge, CompareCoordinates;
  }

  /** The guard proves the bound for every word, or it is signed and this word is known not to be negative. */
  predicate ProvesFor(g: Guard, x: int)
  {
    GuardProves(g) || (IsSignedUpper(g.comparison) && g.outcome.TrueEdge? && AsSigned(x, g.compareType) >= 0)
  }

  /** Certificate and effect of one chain, as the stages compute them. */
  ghost predicate Chained(elementPath: Ref<ElementPath>, inputs: PathInputs, selectedPath: Ref<SelectedPath>,
                          effect: Ref<IntervalEffect>, effectInputs: EffectInputs, op: Opcode)
  {
    && CertifiedOn(elementPath, inputs, selectedPath, effect)
    && effect.To? && effect.target == EvaluateIntervalEffect(effectInputs)
    && GuardFrom(inputs.guard, elementPath.target, op)
    && (inputs.guard.rhs.Immediate? ==> FitsType(inputs.guard.rhs.immediate, inputs.guard.compareType))
  }

  lemma ChainShape(elementPath: Ref<ElementPath>, inputs: PathInputs, selectedPath: Ref<SelectedPath>,
                   effect: Ref<IntervalEffect>, effectInputs: EffectInputs, op: Opcode)
    requires Chained(elementPath, inputs, selectedPath, effect, effectInputs, op)
    ensures elementPath.To? && inputs.guard.rhs.Immediate? && inputs.guard.bound == Some(inputs.guard.rhs.immediate)
    ensures inputs.guard.compareType.Int32? || inputs.guard.compareType.Int64?
    ensures IsUnsignedUpper(inputs.guard.comparison) || IsSignedUpper(inputs.guard.comparison)
    ensures var g := inputs.guard;
            && g.inclusive == (g.comparison.PUle? || g.comparison.PSle?)
            && elementPath.target.elementCount == g.rhs.immediate + (if g.inclusive then 1 else 0)
    ensures ProvesInBounds(inputs.guard, elementPath.target.elementCount) <==> GuardProves(inputs.guard)
    ensures effectInputs.stream.To?
    ensures var stream := effectInputs.stream.target;
            ScanSources(stream.interval, stream.sources).EffectAvailable?
  {
    hide EvaluateCertificate, EffectMatchesPath, BoundCertificate, EvaluateIntervalEffect, GuardFrom, GuardProves,
         PathStatusOf, ProvesInBounds, ScanSources;
    CertificateShape(elementPath, inputs, selectedPath, effect);
    OutcomeKnown(inputs);
    AvailableGuard(elementPath, selectedPath.target, op);
    CertificateExact(elementPath, selectedPath.target, op);
    AvailableEffectScanned(effectInputs);
  }

  /**
   Soundness of the chain: with a certificate whose guard proves, a run that left the guard on the
   selected edge and an effect stream that lists what ran since, the index is within the array at the
   endpoint, if the sources skipped by the scan preserve it or the run stays inside the interval.
   */
  lemma IndexInBounds(elementPath: Ref<ElementPath>, inputs: PathInputs, selectedPath: Ref<SelectedPath>,
                      effect: Ref<IntervalEffect>, effectInputs: EffectInputs, op: Opcode, x: int, events: seq<Event>)
    requires Chained(elementPath, inputs, selectedPath, effect, effectInputs, op)
    requires inputs.guard.rhs.Immediate? && ProvesFor(inputs.guard, x)
    requires IsWord(x, inputs.guard.compareType) && TakesEdge(inputs.guard, x)
    requires effectInputs.stream.To? ==>
               && Listed(effectInputs.stream.target, AsSigned(x, inputs.guard.compareType), events)
               && (SkippedPreserve(effectInputs.stream.target) || StaysInside(effectInputs.stream.target, events))
    ensures 0 <= IndexBefore(AsSigned(x, inputs.guard.compareType), events, |events|) < elementPath.target.elementCount
  {
    hide Chained, ScanSources, Listed, SkippedPreserve, StaysInside;
    ChainShape(elementPath, inputs, selectedPath, effect, effectInputs, op);
    CleanScanKeepsIndex(effectInputs.stream.target, AsSigned(x, inputs.guard.compareType), events, |events|);
    if !GuardProves(inputs.guard) {
      ChainFits(elementPath, inputs, selectedPath, effect, effectInputs, op);
      SignedTrueEdge(inputs.guard, elementPath.target.elementCount, x);
    }
  }

  lemma ChainFits(elementPath: Ref<ElementPath>, inputs: PathInputs, selectedPath: Ref<SelectedPath>,
                  effect: Ref<IntervalEffect>, effectInputs: EffectInputs, op: Opcode)
    requires Chained(elementPath, inputs, selectedPath, effect, effectInputs, op) && inputs.guard.rhs.Immediate?
    ensures FitsType(inputs.guard.rhs.immediate, inputs.guard.compareType)
  {
    hide CertifiedOn, EvaluateIntervalEffect, GuardFrom;
  }

  lemma SignedTrueEdge(g: Guard, count: nat, x: int)
    requires g.rhs.Immediate? && (g.compareType.Int32? || g.compareType.Int64?)
    requires IsSignedUpper(g.comparison) && g.outcome.TrueEdge? && AsSigned(x, g.compareType) >= 0
    requires g.inclusive == g.comparison.PSle? && count == g.rhs.immediate + (if g.inclusive then 1 else 0)
    requires FitsType(g.rhs.immediate, g.compareType) && IsWord(x, g.compareType) && TakesEdge(g, x)
    ensures 0 <= AsSigned(x, g.compareType) < count
  {
  }

  /** No word leaves the guard on the selected edge: it always holds and the edge is the false one, or `x < 0`. */
  predicate NoWordTakes(g: Guard)
  {
    if g.outcome.TrueEdge? then g.comparison.PUlt? && g.bound == Some(0) else AlwaysHolds(g)
  }

  lemma FirstWordTaken(g: Guard, count: nat, x: int)
    requires g.rhs.Immediate? && g.bound == Some(g.rhs.immediate) && (g.compareType.Int32? || g.compareType.Int64?)
    requires GuardProves(g) && (IsUnsignedUpper(g.comparison) || IsSignedUpper(g.comparison))
    requires g.inclusive == (g.comparison.PUle? || g.comparison.PSle?)
    requires count == g.rhs.immediate + (if g.inclusive then 1 else 0)
    requires FitsType(g.rhs.immediate, g.compareType)
    ensures NoWordTakes(g) && IsWord(x, g.compareType) ==> !TakesEdge(g, x)
    ensures !NoWordTakes(g) && 0 <= x < count ==>
              IsWord(x, g.compareType) && TakesEdge(g, x) && AsSigned(x, g.compareType) == x
    ensures !NoWordTakes(g) ==> count > 0
  {
  }

  /** Whatever word takes the edge and whatever the stream lists as run since, the index ends within the array. */
  ghost predicate EndsInBounds(g: Guard, stream: Stream, count: nat)
    requires g.rhs.Immediate?
  {
    forall x, events ::
      IsWord(x, g.compareType) && TakesEdge(g, x) && Listed(stream, AsSigned(x, g.compareType), events) ==>
        0 <= IndexBefore(AsSigned(x, g.compareType), events, |events|) < count
  }

  /**
   Exactly when the chain proves the index in bounds over every listed run: the guard proves and the
   sources outside the interval preserve the index, or no word takes the edge.
   */
  lemma ChainExact(elementPath: Ref<ElementPath>, inputs: PathInputs, selectedPath: Ref<SelectedPath>,
                   effect: Ref<IntervalEffect>, effectInputs: EffectInputs, op: Opcode)
    requires Chained(elementPath, inputs, selectedPath, effect, effectInputs, op)
    ensures elementPath.To? && inputs.guard.rhs.Immediate? && effectInputs.stream.To?
    ensures EndsInBounds(inputs.guard, effectInputs.stream.target, elementPath.target.elementCount) <==>
            GuardProves(inputs.guard) && (SkippedPreserve(effectInputs.stream.target) || NoWordTakes(inputs.guard))
  {
    hide Chained, ScanSources, Listed, SkippedPreserve, GuardProves, NoWordTakes, TakesEdge;
    ChainShape(elementPath, inputs, selectedPath, effect, effectInputs, op);
    ChainFits(elementPath, inputs, selectedPath, effect, effectInputs, op);
    var g, stream, count := inputs.guard, effectInputs.stream.target, elementPath.target.elementCount;
    if !GuardProves(g) {
      QuietRunLeaves(g, stream, count);
    } else if NoWordTakes(g) {
      forall x | IsWord(x, g.compareType)
        ensures !TakesEdge(g, x)
      {
        FirstWordTaken(g, count, x);
      }
    } else if SkippedPreserve(stream) {
      forall x, events | IsWord(x, g.compareType) && TakesEdge(g, x) &&
                         Listed(stream, AsSigned(x, g.compareType), events)
        ensures 0 <= IndexBefore(AsSigned(x, g.compareType), events, |events|) < count
      {
        IndexInBounds(elementPath, inputs, selectedPath, effect, effectInputs, op, x, events);
      }
    } else {
      FirstWordTaken(g, count, 0);
      var event := SkippedChange(stream, 0, -1);
      assert IndexBefore(0, [event], 1) == -1;
    }
  }

  /** With nothing run since, a guard that does not prove lets an index out of bounds through. */
  lemma QuietRunLeaves(g: Guard, stream: Stream, count: nat)
    requires g.rhs.Immediate? && !ProvesInBounds(g, count)
    ensures !EndsInBounds(g, stream, count)
  {
    hide TakesEdge;
    var x :| IsWord(x, g.compareType) && TakesEdge(g, x) && !(0 <= AsSigned(x, g.compareType) < count);
    assert Listed(stream, AsSigned(x, g.compareType), []);
    assert IndexBefore(AsSigned(x, g.compareType), [], 0) == AsSigned(x, g.compareType);
  }

  lemma OutcomeKnown(inputs: PathInputs)
    requires EvaluateSelectedPath(inputs).status.PathAvailable?
    ensures !inputs.guard.outcome.NoOutcome?
  {
  }

  // ------------------------------------------------------ when the chain is available

  /** Everything the first stage asks of the address computation, the edge and the control flow between them. */
  predicate EdgeStands(inputs: PathInputs)
  {
    && inputs.elementPath.To?
    && !inputs.rawShapeOnly && !inputs.targetOnly && !inputs.unsupportedBoundary && !inputs.confusion
    && (var path, g, c := inputs.elementPath.target, inputs.guard, inputs.coverage;
        && path.producer.lookupKey != "" && path.coordinateAvailable && path.role.AddressDerivation?
        && inputs.proofSourceAvailable && g.functionName == path.producer.functionName
        && !g.outcome.NoOutcome? && g.selectedLabel != "" && g.otherLabel != ""
        && (inputs.sameBlock ==> inputs.sameBlockOrdered)
        && c.validityKnown && c.reaches && c.covers && (c.dominates || c.guards))
  }

  lemma EdgeExact(inputs: PathInputs)
    ensures EvaluateSelectedPath(inputs).status.PathAvailable? <==> EdgeStands(inputs)
  {
  }

  /** The guard compares the one dynamic index, and stands before the address computation if in its block. */
  predicate GuardsIndex(path: ElementPath, g: Guard)
  {
    && HasSingleDynamic(path) && IsNamed(SingleDynamic(path))
    && (g.lhs == SingleDynamic(path) || g.rhs == SingleDynamic(path))
    && (g.block == path.producer.block ==>
          && g.instruction.Some? && path.producer.instruction.Some?
          && g.instruction.value < path.producer.instruction.value)
  }

  /** The one stream of this edge and endpoint reaches from the guard to the endpoint, and nothing it lists objects. */
  ghost predicate StreamClears(inputs: EffectInputs)
    requires inputs.selectedPath.To?
  {
    && inputs.bridge.To? && inputs.stream.To? && !inputs.duplicateStream
    && (var bridge, stream := inputs.bridge.target, inputs.stream.target;
        && bridge.available && bridge.block.Some? && bridge.instruction.Some? && bridge.labelText != ""
        && stream.status.StreamAvailable? && StreamMatches(stream, inputs.selectedPath, inputs.bridge)
        && HasCoordinate(stream.interval.proof) && HasCoordinate(stream.interval.endpoint)
        && SpotOf(stream.interval.endpoint) == Spot(bridge.block.value, bridge.instruction.value, 0, bridge.labelText)
        && Before(SpotOf(stream.interval.proof), SpotOf(stream.interval.endpoint))
        && forall s :: s in stream.sources ==> Unobjectionable(stream.interval, s))
  }

  lemma StreamExact(inputs: EffectInputs)
    requires inputs.selectedPath.To?
    ensures StreamEffect(inputs).EffectAvailable? <==> StreamClears(inputs)
  {
    hide StreamMatchesPath, StreamMatchesBridge, ScanSources, CompareCoordinates, Unobjectionable, HasCoordinate,
         Before;
    if inputs.stream.To? && inputs.bridge.To? {
      var stream, bridge := inputs.stream.target, inputs.bridge.target;
      ScanExact(stream.interval, stream.sources);
      CompareExact(stream.interval.proof, stream.interval.endpoint);
      CompareExact(stream.interval.endpoint, Coordinate(bridge.block, bridge.labelText, bridge.instruction, 0));
    }
  }

  lemma EffectExact(elementPath: Ref<ElementPath>, inputs: PathInputs, effectInputs: EffectInputs)
    requires inputs.elementPath == elementPath && EdgeStands(inputs)
    requires effectInputs.selectedPath.To? && effectInputs.selectedPath.target == EvaluateSelectedPath(inputs)
    ensures EvaluateIntervalEffect(effectInputs).status.EffectAvailable? <==>
            && !effectInputs.rawShapeOnly && !effectInputs.confusion
            && GuardsIndex(elementPath.target, inputs.guard) && StreamClears(effectInputs)
  {
    hide StreamEffect, StreamClears, DynamicIndices;
    EdgeExact(inputs);
    StreamExact(effectInputs);
  }

  /** The guard bounds the index from above by its element count, at the index's own type. */
  predicate BoundsIndex(path: ElementPath, g: Guard)
    requires HasSingleDynamic(path)
  {
    && g.bound.Some? && g.contribution.Upper? && (IsUnsignedUpper(g.comparison) || IsSignedUpper(g.comparison))
    && (g.inclusive ==> g.bound.value < INT64_MAX)
    && path.elementCount == g.bound.value + (if g.inclusive then 1 else 0)
    && g.compareType == SingleDynamic(path).ty && (g.compareType.Int32? || g.compareType.Int64?)
    && (SameNamed(g.lhs, SingleDynamic(path)) || SameNamed(g.rhs, SingleDynamic(path)))
  }

  lemma BoundExact(elementPath: Ref<ElementPath>, inputs: PathInputs)
    requires inputs.elementPath == elementPath && EdgeStands(inputs) && HasSingleDynamic(elementPath.target)
    ensures BoundCertificate(elementPath, EvaluateSelectedPath(inputs)).status.RangeAvailable? <==>
            BoundsIndex(elementPath.target, inputs.guard)
  {
    hide PathStatusOf, DynamicIndices;
  }

  /**
   A certificate is available exactly when the edge stands, the guard compares the index and bounds it by
   the element count, and the stream from the guard to the address clears it.
   */
  lemma CertifiedExact(elementPath: Ref<ElementPath>, inputs: PathInputs, selectedPath: Ref<SelectedPath>,
                       effect: Ref<IntervalEffect>, effectInputs: EffectInputs)
    requires elementPath.To? && inputs.elementPath == elementPath
    requires selectedPath.To? && selectedPath.target == EvaluateSelectedPath(inputs)
    requires effectInputs.selectedPath == selectedPath && effect.To?
    requires effect.target == EvaluateIntervalEffect(effectInputs)
    ensures CertifiedOn(elementPath, inputs, selectedPath, effect) <==>
            && EdgeStands(inputs) && !effectInputs.rawShapeOnly && !effectInputs.confusion
            && GuardsIndex(elementPath.target, inputs.guard) && BoundsIndex(elementPath.target, inputs.guard)
            && StreamClears(effectInputs)
  {
    hide PathStatusOf, DynamicIndices, StreamClears, EdgeStands, BoundsIndex, BoundCertificate, GuardEffect,
         StreamEffect;
    EdgeExact(inputs);
    EffectSelected(effectInputs);
    if EdgeStands(inputs) {
      EffectExact(elementPath, inputs, effectInputs);
      if HasSingleDynamic(elementPath.target) {
        BoundExact(elementPath, inputs);
      }
    }
  }

  lemma EffectSelected(inputs: EffectInputs)
    ensures EvaluateIntervalEffect(inputs).selectedPath == inputs.selectedPath
  {
  }

  // ------------------------------------------------------ a certificate that proves nothing

  /** An array of four at `offset`, indexed by `i` in block `body`, guarded by `i < 4` in block `entry`. */
  function SamplePath(offset: U64): ElementPath
  {
    ElementPath(PathName("p", "a", "d"), Producer("k", "f", "body", Some(0)), AddressDerivation, true,
                [DynamicIndex(Named(Int64, "i"))], Int32, 4, offset, 4, true, CarrierAvailable)
  }

  function SampleGuard(outcome: Outcome): Guard
  {
    Guard("f", "entry", Some(3), PUlt, Int64, Named(Int64, "i"), Immediate(Int64, 4), Upper, Some(4), false, outcome,
          "body", "exit")
  }

  function SampleInputs(offset: U64, outcome: Outcome): PathInputs
  {
    PathInputs(To(0, SamplePath(offset)), SampleGuard(outcome), true, Coverage(true, true, true, true, true), false,
               false, false, false, false, false)
  }

  function SampleSelected(offset: U64, outcome: Outcome): Ref<SelectedPath>
  {
    To(1, EvaluateSelectedPath(SampleInputs(offset, outcome)))
  }

  function SampleEffectInputs(offset: U64, outcome: Outcome, sources: seq<EffectSource>): EffectInputs
  {
    var selected := SampleSelected(offset, outcome);
    var bridge := To(2, Bridge(true, PathName("p", "a", "d"), "k", "f", "body", Some(1), Some(0), "p"));
    var interval := Interval(Coordinate(Some(0), "entry", Some(3), 0), Coordinate(Some(1), "body", Some(0), 0));
    EffectInputs(selected, bridge, To(3, Stream(StreamAvailable, interval, selected, bridge, sources)),
                 false, false, false)
  }

  function SampleEffect(offset: U64, outcome: Outcome, sources: seq<EffectSource>): Ref<IntervalEffect>
  {
    To(4, EvaluateIntervalEffect(SampleEffectInputs(offset, outcome, sources)))
  }

  /** Block `tail`, laid out after `body`, changes the index. */
  const TAIL := EffectSource(IndexDefinition, RedefinesIndexValue, Coordinate(Some(2), "tail", Some(0), 0))

  lemma SampleEffectAvailable(offset: U64, outcome: Outcome, sources: seq<EffectSource>)
    requires !outcome.NoOutcome? && (sources == [] || sources == [TAIL])
    ensures SampleEffect(offset, outcome, sources).target.status.EffectAvailable?
    ensures HasSingleDynamic(SamplePath(offset)) && SingleDynamic(SamplePath(offset)) == Named(Int64, "i")
  {
    assert DynamicIndices(SamplePath(offset).indices) == [Named(Int64, "i")];
    TextOrder("body", "body");
    assert forall s :: s in sources ==> s == TAIL;
  }

  lemma SampleEffectPath(offset: U64, outcome: Outcome, sources: seq<EffectSource>)
    ensures SampleEffect(offset, outcome, sources).target.selectedPath == SampleSelected(offset, outcome)
  {
  }

  lemma SampleChained(offset: U64, outcome: Outcome, sources: seq<EffectSource>)
    requires !outcome.NoOutcome? && (sources == [] || sources == [TAIL])
    ensures Chained(To(0, SamplePath(offset)), SampleInputs(offset, outcome), SampleSelected(offset, outcome),
                    SampleEffect(offset, outcome, sources), SampleEffectInputs(offset, outcome, sources), Ult)
  {
    hide EvaluateIntervalEffect, StreamEffect, DynamicIndices, CompareCoordinates;
    SampleEffectAvailable(offset, outcome, sources);
    SampleEffectPath(offset, outcome, sources);
  }

  /**
   Selected on the false edge, the same guard still yields an available certificate, though the edge
   is taken with the index at 7 and nothing changes it afterwards.
   */
  lemma FalseEdgeCounterexample()
    ensures Chained(To(0, SamplePath(0)), SampleInputs(0, FalseEdge), SampleSelected(0, FalseEdge),
                    SampleEffect(0, FalseEdge, []), SampleEffectInputs(0, FalseEdge, []), Ult)
    ensures TakesEdge(SampleGuard(FalseEdge), 7) && SamplePath(0).elementCount == 4 &&
            !GuardProves(SampleGuard(FalseEdge))
    ensures Listed(SampleEffectInputs(0, FalseEdge, []).stream.target, 7, [])
  {
    hide Chained, EvaluateSelectedPath;
    SampleChained(0, FalseEdge, []);
  }

  /** The endpoint itself is scanned: a call there that clobbers the index is the complaint. */
  lemma EndpointScanned()
    ensures var at := Coordinate(Some(1), "body", Some(0), 0);
            var inputs := SampleEffectInputs(0, TrueEdge, [EffectSource(CallOrHelper, ClobbersIndex, at)]);
            inputs.stream.target.interval.endpoint == at && EvaluateIntervalEffect(inputs).status == CallClobbers
  {
    hide ScanSources, EvaluateSelectedPath, EvaluateIntervalEffect, Before, CompareCoordinates;
    var s := EffectSource(CallOrHelper, ClobbersIndex, Coordinate(Some(1), "body", Some(0), 0));
    var inputs := SampleEffectInputs(0, TrueEdge, [s]);
    SampleStreamed([s]);
    ScanExact(inputs.stream.target.interval, [s]);
    EndpointAfterGuard();
    assert FirstObjection(inputs.stream.target.interval, [s], 0);
  }

  lemma EndpointAfterGuard()
    ensures Before(Spot(0, 3, 0, "entry"), Spot(1, 0, 0, "body"))
  {
  }

  /** The sample's status is what the scan of its sources says. */
  lemma SampleStreamed(sources: seq<EffectSource>)
    ensures var inputs := SampleEffectInputs(0, TrueEdge, sources);
            EvaluateIntervalEffect(inputs).status == ScanSources(inputs.stream.target.interval, sources)
  {
    hide ScanSources;
    assert DynamicIndices(SamplePath(0).indices) == [Named(Int64, "i")];
    TextOrder("body", "body");
  }

  /**
   The scan skips a source outside the interval. Block `tail` is laid out after the address and may
   run before it; it is listed as redefining the index, and leaves it at 9.
   */
  lemma SkippedSourceCounterexample()
    ensures Chained(To(0, SamplePath(0)), SampleInputs(0, TrueEdge), SampleSelected(0, TrueEdge),
                    SampleEffect(0, TrueEdge, [TAIL]), SampleEffectInputs(0, TrueEdge, [TAIL]), Ult)
    ensures TakesEdge(SampleGuard(TrueEdge), 2) && GuardProves(SampleGuard(TrueEdge))
    ensures Listed(SampleEffectInputs(0, TrueEdge, [TAIL]).stream.target, 2, [Event(TAIL.at, 9)])
    ensures IndexBefore(2, [Event(TAIL.at, 9)], 1) == 9 > SamplePath(0).elementCount
    ensures !SkippedPreserve(SampleEffectInputs(0, TrueEdge, [TAIL]).stream.target)
  {
    hide Chained, EvaluateSelectedPath;
    SampleChained(0, TrueEdge, [TAIL]);
    assert TAIL in SampleEffectInputs(0, TrueEdge, [TAIL]).stream.target.sources;
    ScannedExact(SampleEffectInputs(0, TrueEdge, [TAIL]).stream.target.interval, TAIL.at);
  }

  // ------------------------------------------------------ provenance and the semantic GEP

  datatype SourceObject = SourceObject(name: string, totalSize: U64, status: CarrierStatus)
  datatype DerivationKind = UnknownDerivation | ArrayDecay | AddressOfElement | DirectElement
  datatype Derivation = Derivation(result: string, sourceObject: string, kind: DerivationKind, status: CarrierStatus)

  datatype Provenance =
    Provenance(status: CarrierStatus, checkerStatus: RangeStatus, sourceObject: Ref<SourceObject>,
               derivation: Ref<Derivation>,
               elementPath: Ref<ElementPath>, checkerInput: Ref<CheckerInput>, derivationKind: DerivationKind,
               dynamicIndex: Option<Value>, elementType: TypeKind, elementSize: U64, byteOffset: U64, elementCount: U64,
               totalSize: U64, scalarInBounds: bool)

  predicate CheckerMatchesElement(checker: CheckerInput, element: Ref<ElementPath>)
    requires element.To?
  {
    checker.elementPath.To? &&
    (SamePointer(checker.elementPath, element) ||
     (&& HasSingleDynamic(element.target) && checker.elementPath.target.producer == element.target.producer
      && checker.record.dynamicIndex.Some? &&
         SameNamed(checker.record.dynamicIndex.value, SingleDynamic(element.target))))
  }

  /** Whether the element's bytes leave the object; the sum is a `size_t`. */
  predicate ElementLeaves(byteOffset: U64, elementSize: U64, totalSize: U64)
  {
    totalSize != 0 && (byteOffset + elementSize) % TWO64 > totalSize
  }

  datatype ProvenanceInputs =
    ProvenanceInputs(sourceObject: Ref<SourceObject>, derivation: Ref<Derivation>, elementPath: Ref<ElementPath>,
                     checkerInput: Ref<CheckerInput>)

  /** The checks of `evaluate_local_array_local_address_provenance`, in source order. */
  function ProvenanceStatus(inputs: ProvenanceInputs): CarrierStatus
  {
    if inputs.elementPath.Null? then MissingElementPath
    else
      var path := inputs.elementPath.target;
      if !path.status.CarrierAvailable? && !path.status.MissingIndexRangeProof? then path.status
      else if !path.coordinateAvailable then CoordinateConfusion
      else if !path.role.AddressDerivation? then UnknownProvenance
      else if inputs.sourceObject.Null? then MissingSourceObject
      else if !inputs.sourceObject.target.status.CarrierAvailable? then inputs.sourceObject.target.status
      else if inputs.sourceObject.target.name == "" || inputs.sourceObject.target.name != path.name.sourceObject then
        CoordinateConfusion
      else if inputs.derivation.Null? then MissingDerivation
      else if !inputs.derivation.target.status.CarrierAvailable? then inputs.derivation.target.status
      else if inputs.derivation.target.result == "" || inputs.derivation.target.result != path.name.derivation ||
              inputs.derivation.target.sourceObject != path.name.sourceObject
      then CoordinateConfusion
      else if inputs.derivation.target.kind.UnknownDerivation? then MissingDerivation
      else if !HasSingleDynamic(path) then MissingIndexIdentity
      else if inputs.checkerInput.Null? then MissingIndexRangeProof
      else if !CheckerMatchesElement(inputs.checkerInput.target, inputs.elementPath) then CoordinateConfusion
      else if !inputs.checkerInput.target.status.RangeAvailable? ||
        !inputs.checkerInput.target.record.status.RangeAvailable?
      then MissingIndexRangeProof
      else if path.elementType.Void? || path.elementSize == 0 then ScalarBoundary
      else if !path.scalarInBounds then ElementOutOfBounds
      else if ElementLeaves(path.byteOffset, path.elementSize, inputs.sourceObject.target.totalSize) then
        ElementOutOfBounds
      else CarrierAvailable
  }

  // How far the checks got decides which fields of the record are filled.

  predicate ObjectReached(inputs: ProvenanceInputs)
  {
    inputs.elementPath.To? &&
    var path := inputs.elementPath.target;
    (path.status.CarrierAvailable? || path.status.MissingIndexRangeProof?) && path.coordinateAvailable &&
      path.role.AddressDerivation? &&
    inputs.sourceObject.To?
  }

  predicate DerivationReached(inputs: ProvenanceInputs)
  {
    ObjectReached(inputs) && inputs.derivation.To? &&
    var source := inputs.sourceObject.target;
    source.status.CarrierAvailable? && source.name != "" && source.name == inputs.elementPath.target.name.sourceObject
  }

  predicate IndexReached(inputs: ProvenanceInputs)
  {
    DerivationReached(inputs) &&
    var d, name := inputs.derivation.target, inputs.elementPath.target.name;
    d.status.CarrierAvailable? && d.result != "" && d.result == name.derivation &&
      d.sourceObject == name.sourceObject &&
    !d.kind.UnknownDerivation? && HasSingleDynamic(inputs.elementPath.target)
  }

  /** `evaluate_local_array_local_address_provenance`. */
  function EvaluateProvenance(inputs: ProvenanceInputs): (p: Provenance)
  {
    var path := inputs.elementPath;
    Provenance(ProvenanceStatus(inputs),
               if !IndexReached(inputs) then RangeMissingElementPath
               else if inputs.checkerInput.Null? then MissingProofFact
               else inputs.checkerInput.target.status,
               inputs.sourceObject, inputs.derivation, path, inputs.checkerInput,
               if DerivationReached(inputs) then inputs.derivation.target.kind else UnknownDerivation,
               if IndexReached(inputs) then Some(SingleDynamic(path.target)) else None,
               if path.To? then path.target.elementType else Void, if path.To? then path.target.elementSize else 0,
               if path.To? then path.target.byteOffset else 0, if path.To? then path.target.elementCount else 0,
               if ObjectReached(inputs) then inputs.sourceObject.target.totalSize else 0,
               path.To? && path.target.scalarInBounds)
  }

  /** The checks of `evaluate_local_array_semantic_gep`, which looks at everything again. */
  function GepStatus(p: Provenance): CarrierStatus
  {
    if !p.status.CarrierAvailable? then p.status
    else if p.sourceObject.Null? then MissingSourceObject
    else if !p.sourceObject.target.status.CarrierAvailable? then p.sourceObject.target.status
    else if p.derivation.Null? then MissingDerivation
    else if !p.derivation.target.status.CarrierAvailable? then p.derivation.target.status
    else if p.derivationKind.UnknownDerivation? || p.derivation.target.kind.UnknownDerivation? then MissingDerivation
    else if p.elementPath.Null? then MissingElementPath
    else if !p.elementPath.target.coordinateAvailable then CoordinateConfusion
    else if !p.elementPath.target.role.AddressDerivation? then UnknownProvenance
    else if p.checkerInput.Null? || !p.checkerStatus.RangeAvailable? || !p.checkerInput.target.status.RangeAvailable? ||
            !p.checkerInput.target.record.status.RangeAvailable?
    then MissingIndexRangeProof
    else if p.elementType.Void? || p.elementSize == 0 then ScalarBoundary
    else if !p.scalarInBounds then ElementOutOfBounds
    else if ElementLeaves(p.byteOffset, p.elementSize, p.totalSize) then ElementOutOfBounds
    else CarrierAvailable
  }

  /** When the address has a provenance: every record of the chain names the same object, derivation and path. */
  lemma ProvenanceExact(inputs: ProvenanceInputs)
    ensures EvaluateProvenance(inputs).status.CarrierAvailable? <==>
            && inputs.elementPath.To? && inputs.sourceObject.To? && inputs.derivation.To? && inputs.checkerInput.To?
            && (var path, source, d, checker := inputs.elementPath.target, inputs.sourceObject.target,
                                                inputs.derivation.target, inputs.checkerInput.target;
                && (path.status.CarrierAvailable? || path.status.MissingIndexRangeProof?)
                && path.coordinateAvailable && path.role.AddressDerivation?
                && source.status.CarrierAvailable? && source.name == path.name.sourceObject != ""
                && d.status.CarrierAvailable? && d.result == path.name.derivation != ""
                && d.sourceObject == path.name.sourceObject && !d.kind.UnknownDerivation?
                && HasSingleDynamic(path) && checker.elementPath.To?
                && (|| checker.elementPath.address == inputs.elementPath.address
                    || (checker.elementPath.target.producer == path.producer && IsNamed(SingleDynamic(path)) &&
                        checker.record.dynamicIndex == Some(SingleDynamic(path))))
                && checker.status.RangeAvailable? && checker.record.status.RangeAvailable?
                && !path.elementType.Void? && path.elementSize != 0 && path.scalarInBounds
                && (source.totalSize == 0 || (path.byteOffset + path.elementSize) % TWO64 <= source.totalSize))
  {
    hide DynamicIndices;
  }

  /** The GEP stage accepts exactly what the provenance stage accepted, and passes its refusals on. */
  lemma GepAgreesWithProvenance(inputs: ProvenanceInputs)
    ensures GepStatus(EvaluateProvenance(inputs)) == ProvenanceStatus(inputs)
  {
    hide CheckerMatchesElement, ElementLeaves;
  }

  /** The bytes of the element that an index names lie in the object. */
  predicate ElementInside(path: ElementPath, source: SourceObject, index: int)
  {
    && 0 <= path.byteOffset + index * path.elementSize
    && path.byteOffset + (index + 1) * path.elementSize <= source.totalSize
  }

  predicate ArrayInside(path: ElementPath, source: SourceObject)
  {
    path.byteOffset + path.elementCount * path.elementSize <= source.totalSize
  }

  /**
   What an available GEP says about the element at the path's own offset: it lies in the object exactly
   when the object's size is known and the sum the code compares did not wrap.
   */
  lemma AvailableGepElement(inputs: ProvenanceInputs)
    requires GepStatus(EvaluateProvenance(inputs)).CarrierAvailable?
    ensures inputs.elementPath.To? && inputs.sourceObject.To? && inputs.checkerInput.To?
    ensures inputs.checkerInput.target.record.status.RangeAvailable?
    ensures var path, source := inputs.elementPath.target, inputs.sourceObject.target;
            ElementInside(path, source, 0) <==> source.totalSize != 0 && path.byteOffset + path.elementSize < TWO64
  {
    hide CheckerMatchesElement;
    GepAgreesWithProvenance(inputs);
  }

  lemma ElementsBelow(path: ElementPath, source: SourceObject, index: nat, count: nat)
    requires index < count && path.byteOffset + count * path.elementSize <= source.totalSize
    ensures ElementInside(path, source, index)
  {
    assert (index + 1) * path.elementSize <= count * path.elementSize by {
      assert (count - index - 1) * path.elementSize >= 0;
      assert count * path.elementSize == (index + 1) * path.elementSize + (count - index - 1) * path.elementSize;
    }
    assert index * path.elementSize >= 0;
  }

  /** All elements of an array lie in the object exactly when its last byte does. */
  lemma AllElementsInside(path: ElementPath, source: SourceObject)
    requires path.elementCount > 0
    ensures (forall i :: 0 <= i < path.elementCount ==> ElementInside(path, source, i)) <==> ArrayInside(path, source)
  {
    if ArrayInside(path, source) {
      forall i | 0 <= i < path.elementCount
        ensures ElementInside(path, source, i)
      {
        ElementsBelow(path, source, i, path.elementCount);
      }
    } else {
      assert !ElementInside(path, source, path.elementCount - 1);
    }
  }

  /** The element the index names at the endpoint lies in its object, in every listed run. */
  ghost predicate AddressesInside(g: Guard, stream: Stream, path: ElementPath, source: SourceObject)
    requires g.rhs.Immediate?
  {
    forall x, events ::
      IsWord(x, g.compareType) && TakesEdge(g, x) && Listed(stream, AsSigned(x, g.compareType), events) ==>
        ElementInside(path, source, IndexBefore(AsSigned(x, g.compareType), events, |events|))
  }

  /**
   The closing step, which no stage checks: with the index proved in bounds, every element that a run
   addresses lies in the object exactly when the whole array does, or no word takes the edge.
   */
  lemma AddressedElementExact(elementPath: Ref<ElementPath>, inputs: PathInputs, selectedPath: Ref<SelectedPath>,
                              effect: Ref<IntervalEffect>, effectInputs: EffectInputs, op: Opcode,
                              source: SourceObject)
    requires Chained(elementPath, inputs, selectedPath, effect, effectInputs, op)
    requires GuardProves(inputs.guard) && effectInputs.stream.To? && SkippedPreserve(effectInputs.stream.target)
    ensures elementPath.To? && inputs.guard.rhs.Immediate?
    ensures AddressesInside(inputs.guard, effectInputs.stream.target, elementPath.target, source) <==>
            ArrayInside(elementPath.target, source) || NoWordTakes(inputs.guard)
  {
    hide Chained, ScanSources, Listed, SkippedPreserve, GuardProves, NoWordTakes, TakesEdge, ElementInside;
    ChainShape(elementPath, inputs, selectedPath, effect, effectInputs, op);
    ChainFits(elementPath, inputs, selectedPath, effect, effectInputs, op);
    var g, stream, path := inputs.guard, effectInputs.stream.target, elementPath.target;
    if NoWordTakes(g) {
      forall x | IsWord(x, g.compareType)
        ensures !TakesEdge(g, x)
      {
        FirstWordTaken(g, path.elementCount, x);
      }
    } else if ArrayInside(path, source) {
      forall x, events | IsWord(x, g.compareType) && TakesEdge(g, x) &&
                         Listed(stream, AsSigned(x, g.compareType), events)
        ensures ElementInside(path, source, IndexBefore(AsSigned(x, g.compareType), events, |events|))
      {
        IndexInBounds(elementPath, inputs, selectedPath, effect, effectInputs, op, x, events);
        ElementsBelow(path, source, IndexBefore(AsSigned(x, g.compareType), events, |events|), path.elementCount);
      }
    } else {
      FirstWordTaken(g, path.elementCount, path.elementCount - 1);
      LastElementAddressed(g, stream, path, source);
    }
  }

  lemma LastElementAddressed(g: Guard, stream: Stream, path: ElementPath, source: SourceObject)
    requires g.rhs.Immediate? && path.elementCount > 0 && !ArrayInside(path, source)
    requires var x := path.elementCount - 1;
             IsWord(x, g.compareType) && TakesEdge(g, x) && AsSigned(x, g.compareType) == x
    ensures !AddressesInside(g, stream, path, source)
  {
    hide TakesEdge;
    var x := path.elementCount - 1;
    assert Listed(stream, AsSigned(x, g.compareType), []) && IndexBefore(x, [], 0) == x;
  }

  /** The whole chain: a certificate on a well-formed path ends in an available semantic GEP. */
  lemma CertificateReachesGep(elementPath: Ref<ElementPath>, inputs: PathInputs, selectedPath: Ref<SelectedPath>,
                              effect: Ref<IntervalEffect>, source: Ref<SourceObject>, derivation: Ref<Derivation>,
                              a: nat, b: nat, c: nat)
    requires CertifiedOn(elementPath, inputs, selectedPath, effect)
    requires source.To? && source.target.status.CarrierAvailable? &&
             source.target.name == elementPath.target.name.sourceObject != ""
    requires derivation.To? && derivation.target.status.CarrierAvailable? && !derivation.target.kind.UnknownDerivation?
    requires derivation.target.result == elementPath.target.name.derivation != "" &&
             derivation.target.sourceObject == elementPath.target.name.sourceObject
    requires var path := elementPath.target;
             && (path.status.CarrierAvailable? || path.status.MissingIndexRangeProof?) && !path.elementType.Void? &&
                path.elementSize != 0
             && path.scalarInBounds && !ElementLeaves(path.byteOffset, path.elementSize, source.target.totalSize)
    ensures var proof := EvaluateCertificate(CertificateInputs(elementPath, selectedPath, effect, false));
            var checker := EvaluateCheckerInput(elementPath, To(b, EvaluateProofFact(elementPath, To(a, proof))));
            var inputs := ProvenanceInputs(source, derivation, elementPath, To(c, checker));
            GepStatus(EvaluateProvenance(inputs)).CarrierAvailable?
  {
    hide EvaluateCertificate, EvaluateCheckerInput, EvaluateProofFact, ElementLeaves, GepStatus, EffectMatchesPath;
    CheckerReproducesCertificate(elementPath, inputs, selectedPath, effect, a, b);
    CertificateShape(elementPath, inputs, selectedPath, effect);
    SelectedPathChecked(inputs);
    var proof := EvaluateCertificate(CertificateInputs(elementPath, selectedPath, effect, false));
    var checker := EvaluateCheckerInput(elementPath, To(b, EvaluateProofFact(elementPath, To(a, proof))));
    GepAgreesWithProvenance(ProvenanceInputs(source, derivation, elementPath, To(c, checker)));
  }

  lemma SelectedPathChecked(inputs: PathInputs)
    requires EvaluateSelectedPath(inputs).status.PathAvailable?
    ensures inputs.elementPath.To? && inputs.elementPath.target.coordinateAvailable &&
            inputs.elementPath.target.role.AddressDerivation?
  {
  }

  // ------------------------------------------------------ available GEPs that leave their object

  function SampleProvenance(offset: U64, totalSize: U64): ProvenanceInputs
  {
    var path := To(0, SamplePath(offset));
    var certificate :=
      CertificateInputs(path, SampleSelected(offset, TrueEdge), SampleEffect(offset, TrueEdge, []), false);
    var fact := EvaluateProofFact(path, To(5, EvaluateCertificate(certificate)));
    ProvenanceInputs(To(7, SourceObject("a", totalSize, CarrierAvailable)),
                     To(8, Derivation("d", "a", ArrayDecay, CarrierAvailable)), path,
                     To(9, EvaluateCheckerInput(path, To(6, fact))))
  }

  lemma SampleGepAvailable(offset: U64, totalSize: U64)
    requires !ElementLeaves(offset, 4, totalSize)
    ensures GepStatus(EvaluateProvenance(SampleProvenance(offset, totalSize))).CarrierAvailable?
  {
    hide EvaluateCertificate, EvaluateCheckerInput, EvaluateProofFact, ElementLeaves, GepStatus, EvaluateSelectedPath,
         EvaluateIntervalEffect, EvaluateProvenance;
    SampleChained(offset, TrueEdge, []);
    CertificateReachesGep(To(0, SamplePath(offset)), SampleInputs(offset, TrueEdge), SampleSelected(offset, TrueEdge),
                          SampleEffect(offset, TrueEdge, []), SampleProvenance(offset, totalSize).sourceObject,
                          SampleProvenance(offset, totalSize).derivation, 5, 6, 9);
  }

  /** Four elements of four bytes in an object of eight: the GEP is available, and index 3 names bytes 12 to 16. */
  lemma SmallObjectCounterexample()
    ensures GepStatus(EvaluateProvenance(SampleProvenance(0, 8))).CarrierAvailable?
    ensures TakesEdge(SampleGuard(TrueEdge), 3) && GuardProves(SampleGuard(TrueEdge))
    ensures !ElementInside(SamplePath(0), SampleProvenance(0, 8).sourceObject.target, 3)
  {
    hide GepStatus, EvaluateProvenance;
    SampleGepAvailable(0, 8);
  }

  /** An offset four below 2^64: the compared sum wraps to zero, and the GEP is available. */
  lemma WrappingSumCounterexample()
    ensures GepStatus(EvaluateProvenance(SampleProvenance(TWO64 - 4, 16))).CarrierAvailable?
    ensures !ElementInside(SamplePath(TWO64 - 4), SampleProvenance(TWO64 - 4, 16).sourceObject.target, 0)
  {
    hide GepStatus, EvaluateProvenance;
    SampleGepAvailable(TWO64 - 4, 16);
  }
}
