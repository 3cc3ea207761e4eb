/** Return chains of src/backend/bir/bir_route8.cpp: which values flow into the return, and how they are published. */
module Route8 {
  import opened Machine
  import opened Bir

  // ------------------------------------------------------ identities and keys

  /** Where a value stands; the source keeps its address. */
  datatype Place =
    | ResultOf(block: Block, index: nat) | LhsOf(block: Block, index: nat) | RhsOf(block: Block, index: nat)
    | ReturnedBy(block: Block) | Elsewhere(address: nat)

  /** A value by id when it has one, by name and type, by address or by constant otherwise. */
  datatype Identity =
    Identity(at: Option<Place>, name: string, ty: TypeKind, nameId: Option<nat>, constant: Option<I64>)

  const NOTHING := Identity(None, "", Void, None, None)

  function IdentityOf(v: Value, at: Place): Identity
  {
    match v
    case Named(ty, name) => Identity(Some(at), name, ty, None, None)
    case Immediate(ty, c) => Identity(Some(at), "", ty, None, Some(c))
  }

  predicate IsPresent(x: Identity)
  {
    x.at.Some? || x.name != "" || x.nameId.Some? || x.constant.Some?
  }

  /** `route8_value_key_matches`: the first part that either side gives decides. */
  predicate ValueMatches(record: Identity, query: Identity)
  {
    if record.nameId.Some? || query.nameId.Some? then record.nameId == query.nameId
    else if record.name != "" || query.name != "" then record.name == query.name && record.ty == query.ty
    else if record.at.Some? || query.at.Some? then record.at == query.at
    else if record.constant.Some? || query.constant.Some? then
      record.constant == query.constant && record.ty == query.ty
    else false
  }

  predicate IdentityMatches(l: Identity, r: Identity)
  {
    (!IsPresent(l) && !IsPresent(r)) || (ValueMatches(l, r) && ValueMatches(r, l))
  }

  datatype Owner = Owner(functionId: Option<nat>, link: Option<nat>, name: string)

  /** Each part is compared only when both sides give it. */
  predicate OwnersMatch(record: Owner, query: Owner)
  {
    && (record.functionId.Some? && query.functionId.Some? ==> record.functionId == query.functionId)
    && (record.link.Some? && query.link.Some? ==> record.link == query.link)
    && (record.name != "" && query.name != "" ==> record.name == query.name)
  }

  predicate BlockMatches(labelText: string, labelId: Option<nat>, b: Block)
  {
    if labelId.Some? || b.labelId.Some? then labelId == b.labelId else labelText == b.labelText
  }

  /** `block` is the block the key points to, none for a null pointer. */
  datatype Key = Key(owner: Owner, block: Option<Block>, labelText: string, labelId: Option<nat>, index: nat,
                     value: Identity)

  function KeyFor(owner: Owner, b: Block, index: nat, v: Value, at: Place): Key
  {
    Key(owner, Some(b), b.labelText, b.labelId, index, IdentityOf(v, at))
  }

  predicate KeyMatches(record: Key, query: Key)
  {
    && query.block.Some?
    && OwnersMatch(record.owner, query.owner)
    && record.index == query.index
    && BlockMatches(record.labelText, record.labelId, query.block.value)
    && ValueMatches(record.value, query.value)
  }

  datatype Status = Available | DuplicateRecord | MissingBlock | MissingInstruction | MissingChainValue | NoMatch

  datatype Record = Record(available: bool, status: Status, key: Key, terminal: Identity, next: Identity)

  // ------------------------------------------------------ chains in a block

  predicate IsScalarOpcode(op: Opcode): (r: bool)
    ensures r <==> !IsComparison(op)
  {
    op.Add? || op.Sub? || op.Mul? || op.And? || op.Or? || op.Xor? || op.Shl? || op.LShr? || op.AShr? || op.SDiv? ||
    op.UDiv? || op.SRem? || op.URem?
  }

  predicate IsScalarBinary(inst: Inst)
  {
    inst.Binary? && IsScalarOpcode(inst.op)
  }

  predicate HasName(v: Value, name: string)
  {
    IsNamed(v) && v.name == name
  }

  /** Instruction `j` takes the value called `name` and passes its own result on. */
  predicate Continues(b: Block, j: nat, name: string)
  {
    && j < |b.insts| && IsScalarBinary(b.insts[j]) && IsNamed(b.insts[j].result)
    && (HasName(b.insts[j].lhs, name) || HasName(b.insts[j].rhs, name))
  }

  /** The name the greedy run from `j` ends with. */
  function ChainEnd(b: Block, name: string, j: nat): string
    decreases |b.insts| - j
  {
    if Continues(b, j, name) then ChainEnd(b, b.insts[j].result.name, j + 1) else name
  }

  predicate Starts(b: Block, i: nat)
  {
    i < |b.insts| && IsScalarBinary(b.insts[i]) && IsNamed(b.insts[i].result)
  }

  predicate ReturnsNamed(b: Block)
  {
    b.terminator.Return? && b.terminator.returned.Some? && IsNamed(b.terminator.returned.value)
  }

  predicate IsReturnChain(b: Block, i: nat)
  {
    ReturnsNamed(b) && Starts(b, i) && HasName(b.terminator.returned.value, ChainEnd(b, b.insts[i].result.name, i + 1))
  }

  /** The operand the next instruction combines the value with, when that is named. */
  function NextOperand(b: Block, i: nat): Identity
    requires Starts(b, i)
  {
    var name := b.insts[i].result.name;
    if !Continues(b, i + 1, name) then NOTHING
    else
      var next := b.insts[i + 1];
      var (other, at) :=
        if HasName(next.lhs, name) then (next.rhs, RhsOf(b, i + 1)) else (next.lhs, LhsOf(b, i + 1));
      if IsNamed(other) then IdentityOf(other, at) else NOTHING
  }

  function RecordFor(owner: Owner, b: Block, i: nat): Record
    requires IsReturnChain(b, i)
  {
    Record(true, Available, KeyFor(owner, b, i, b.insts[i].result, ResultOf(b, i)),
           IdentityOf(b.terminator.returned.value, ReturnedBy(b)), NextOperand(b, i))
  }

  // What a return chain is, without the scan.

  /** A binary, not a comparison, whose result has a name. */
  predicate Passes(inst: Inst)
  {
    inst.Binary? && !IsComparison(inst.op) && inst.result.Named? && inst.result.name != ""
  }

  /** Instruction `k` has the result of the one before it as an operand. */
  predicate Links(b: Block, k: nat)
    requires 0 < k < |b.insts|
  {
    && Passes(b.insts[k - 1]) && Passes(b.insts[k])
    && (|| (b.insts[k].lhs.Named? && b.insts[k].lhs.name == b.insts[k - 1].result.name)
        || (b.insts[k].rhs.Named? && b.insts[k].rhs.name == b.insts[k - 1].result.name))
  }

  /** Each of `n` further instructions consumes its predecessor's result, and instruction `i + n + 1` does not. */
  ghost predicate GreedyRun(b: Block, i: nat, n: nat)
  {
    && i + n < |b.insts| && Passes(b.insts[i])
    && (forall k :: i < k <= i + n ==> Links(b, k))
    && !(i + n + 1 < |b.insts| && Links(b, i + n + 1))
  }

  ghost predicate RunEndsWith(b: Block, i: nat, n: nat, name: string)
  {
    GreedyRun(b, i, n) && Passes(b.insts[i + n]) && b.insts[i + n].result.name == name
  }

  lemma StartsPasses(b: Block, i: nat)
    ensures Starts(b, i) <==> i < |b.insts| && Passes(b.insts[i])
    ensures 0 < i < |b.insts| ==> (Links(b, i) <==> Starts(b, i - 1) && Continues(b, i, b.insts[i - 1].result.name))
  {
  }

  lemma RunStarts(b: Block, i: nat, n: nat)
    requires GreedyRun(b, i, n)
    ensures Passes(b.insts[i + n])
  {
    if n > 0 {
      assert Links(b, i + n);
    }
  }

  lemma {:induction false} ChainEndIsRunEnd(b: Block, i: nat, n: nat, name: string)
    requires RunEndsWith(b, i, n, name)
    ensures ChainEnd(b, b.insts[i].result.name, i + 1) == name
    decreases n
  {
    if n > 0 {
      assert Links(b, i + 1);
      ChainEndIsRunEnd(b, i + 1, n - 1, name);
    }
  }

  lemma {:induction false} RunExists(b: Block, i: nat) returns (n: nat)
    requires i < |b.insts| && Passes(b.insts[i])
    ensures GreedyRun(b, i, n)
    decreases |b.insts| - i
  {
    if i + 1 < |b.insts| && Links(b, i + 1) {
      n := RunExists(b, i + 1);
      n := n + 1;
    } else {
      n := 0;
    }
  }

  /** A value is in a return chain exactly when the greedy run from it ends at the returned name. */
  lemma ReturnChainExact(b: Block, i: nat)
    ensures IsReturnChain(b, i) <==>
            && b.terminator.Return? && b.terminator.returned.Some? && b.terminator.returned.value.Named?
            && exists n :: RunEndsWith(b, i, n, b.terminator.returned.value.name)
  {
    hide Passes, Links, Continues, Starts, ChainEnd, GreedyRun;
    StartsPasses(b, i);
    if i < |b.insts| && Passes(b.insts[i]) {
      var n := RunExists(b, i);
      RunInside(b, i, n);
      RunStarts(b, i, n);
      var end := b.insts[i + n].result.name;
      assert RunEndsWith(b, i, n, end);
      ChainEndIsRunEnd(b, i, n, end);
      PassesNamed(b.insts[i + n]);
      forall m, name | RunEndsWith(b, i, m, name)
        ensures name == end
      {
        ChainEndIsRunEnd(b, i, m, name);
      }
    } else {
      forall n, name
        ensures !RunEndsWith(b, i, n, name)
      {
        RunInside(b, i, n);
      }
    }
  }

  lemma RunInside(b: Block, i: nat, n: nat)
    ensures GreedyRun(b, i, n) ==> i + n < |b.insts| && Passes(b.insts[i])
  {
  }

  lemma PassesNamed(inst: Inst)
    requires Passes(inst)
    ensures inst.result.Named? && inst.result.name != ""
  {
  }

  /** Taking the next step of a return chain stays in a return chain. */
  lemma NextStepIsReturnChain(b: Block, i: nat)
    requires IsReturnChain(b, i) && Continues(b, i + 1, b.insts[i].result.name)
    ensures IsReturnChain(b, i + 1)
  {
  }

  /**
   What the next-operand field of a record says. It is empty exactly when the next instruction does not
   consume the result, or does and its other operand has no name. Otherwise the next instruction's
   operands are called as the result and as this field, which has the type and the place of its operand;
   if both operands are the result, it is the right one.
   */
  ghost predicate IsOtherOperand(b: Block, i: nat, next: Identity)
    requires i < |b.insts| && Passes(b.insts[i])
  {
    if i + 1 == |b.insts| || !Links(b, i + 1) || !IsNamed(b.insts[i + 1].lhs) || !IsNamed(b.insts[i + 1].rhs)
    then next == NOTHING
    else
      var lhs, rhs := b.insts[i + 1].lhs, b.insts[i + 1].rhs;
      && multiset{lhs.name, rhs.name} == multiset{b.insts[i].result.name, next.name}
      && (|| (next.at == Some(RhsOf(b, i + 1)) && next.name == rhs.name && next.ty == rhs.ty)
          || (next.at == Some(LhsOf(b, i + 1)) && next.name == lhs.name && next.ty == lhs.ty))
      && next.nameId.None? && next.constant.None? && (lhs.name == rhs.name ==> next.at == Some(RhsOf(b, i + 1)))
  }

  lemma NextOperandExact(b: Block, i: nat)
    requires Starts(b, i)
    ensures Passes(b.insts[i]) && IsOtherOperand(b, i, NextOperand(b, i))
  {
    StartsPasses(b, i);
    if i + 1 < |b.insts| {
      StartsPasses(b, i + 1);
    }
  }

  // ------------------------------------------------------ publication

  predicate Conflicts(l: Record, r: Record)
  {
    !IdentityMatches(l.terminal, r.terminal) || !IdentityMatches(l.next, r.next)
  }

  function NameAndType(x: Identity): (string, TypeKind)
  {
    (x.name, x.ty)
  }

  /** Two published records conflict exactly when they return or combine with different values, by name and type. */
  lemma ConflictsExact(owner: Owner, b: Block, i: nat, owner': Owner, b': Block, i': nat)
    requires IsReturnChain(b, i) && IsReturnChain(b', i')
    ensures var l, r := RecordFor(owner, b, i), RecordFor(owner', b', i');
            && NameAndType(l.terminal) == (b.terminator.returned.value.name, b.terminator.returned.value.ty)
            && (Conflicts(l, r) <==>
                  NameAndType(l.terminal) != NameAndType(r.terminal) || NameAndType(l.next) != NameAndType(r.next))
  {
    hide ChainEnd, Continues, IsScalarBinary;
  }

  /** What becomes of a record when another one is published under its key. */
  function Merged(existing: Record, r: Record): Record
  {
    if existing.status.DuplicateRecord? || Conflicts(existing, r)
    then Record(false, DuplicateRecord, existing.key, NOTHING, NOTHING)
    else existing
  }

  function Published(records: seq<Record>, r: Record): seq<Record>
  {
    if records == [] then [r]
    else if KeyMatches(records[0].key, r.key) then [Merged(records[0], r)] + records[1..]
    else [records[0]] + Published(records[1..], r)
  }

  lemma PublishedStep(records: seq<Record>, r: Record)
    requires records != []
    ensures Published(records, r) ==
            if KeyMatches(records[0].key, r.key) then [Merged(records[0], r)] + records[1..]
            else [records[0]] + Published(records[1..], r)
  {
    hide KeyMatches, Merged;
  }

  lemma PublishedFrom(rs: seq<Record>, r: Record, k: nat)
    requires k < |rs| && Published(rs, r) == rs[..k] + Published(rs[k..], r)
    ensures KeyMatches(rs[k].key, r.key) ==> Published(rs, r) == rs[k := Merged(rs[k], r)]
    ensures !KeyMatches(rs[k].key, r.key) ==> Published(rs, r) == rs[..k + 1] + Published(rs[k + 1..], r)
  {
    hide KeyMatches, Merged, Published;
    PublishedStep(rs[k..], r);
    assert rs[k..][1..] == rs[k + 1..];
    assert rs[..k] + ([Merged(rs[k], r)] + rs[k + 1..]) == rs[k := Merged(rs[k], r)];
    assert rs[..k] + ([rs[k]] + Published(rs[k + 1..], r)) == rs[..k + 1] + Published(rs[k + 1..], r);
  }

  lemma PublishedNone(r: Record)
    ensures Published([], r) == [r]
  {
  }

  function PublishAll(records: seq<Record>, rs: seq<Record>): seq<Record>
    decreases |rs|
  {
    if rs == [] then records else Published(PublishAll(records, rs[..|rs| - 1]), rs[|rs| - 1])
  }

  /** The records of the first `n` instructions of a block. */
  function BlockRecords(owner: Owner, b: Block, n: nat): seq<Record>
  {
    if n == 0 then []
    else BlockRecords(owner, b, n - 1) + (if IsReturnChain(b, n - 1) then [RecordFor(owner, b, n - 1)] else [])
  }

  function FunctionRecords(owner: Owner, blocks: seq<Block>): seq<Record>
  {
    if blocks == [] then []
    else
      var last := blocks[|blocks| - 1];
      FunctionRecords(owner, blocks[..|blocks| - 1]) + BlockRecords(owner, last, |last.insts|)
  }

  lemma {:induction false} PublishAllAppend(records: seq<Record>, a: seq<Record>, b: seq<Record>)
    ensures PublishAll(records, a + b) == PublishAll(PublishAll(records, a), b)
    decreases |b|
  {
    if b == [] {
      assert a + b == a;
    } else {
      assert (a + b)[..|a + b| - 1] == a + b[..|b| - 1];
      PublishAllAppend(records, a, b[..|b| - 1]);
    }
  }

  class ReturnChainIndex {
    const owner: Owner
    const blocks: seq<Block>
    var records: seq<Record>

    /** `route8_publish_return_chain_record`. */
    method Publish(r: Record)
      modifies this
      ensures records == if r.available then Published(old(records), r) else old(records)
    {
      hide KeyMatches, Merged, Published;
      if !r.available {
        return;
      }
      var k, rs := 0, records;
      while k < |rs|
        invariant 0 <= k <= |rs|
        invariant Published(rs, r) == rs[..k] + Published(rs[k..], r)
      {
        PublishedFrom(rs, r, k);
        if KeyMatches(rs[k].key, r.key) {
          records := rs[k := Merged(rs[k], r)];
          return;
        }
        k := k + 1;
      }
      assert rs[k..] == [];
      PublishedNone(r);
      records := rs + [r];
    }

    /** `route8_publish_return_chain_records_for_block`. */
    method PublishBlock(b: Block)
      modifies this
      ensures records == PublishAll(old(records), BlockRecords(owner, b, |b.insts|))
    {
      hide Published, NextOperand, KeyFor, Starts, IsScalarBinary;
      if !ReturnsNamed(b) {
        NoRecords(owner, b, |b.insts|);
        return;
      }
      for i := 0 to |b.insts|
        invariant records == PublishAll(old(records), BlockRecords(owner, b, i))
      {
        var end := RunFrom(b, i);
        if end.Some? && HasName(b.terminator.returned.value, end.value) {
          ghost var done := BlockRecords(owner, b, i);
          assert (done + [RecordFor(owner, b, i)])[..|done|] == done;
          Publish(RecordFor(owner, b, i));
        } else {
          assert BlockRecords(owner, b, i + 1) == BlockRecords(owner, b, i);
        }
      }
    }

    constructor (owner: Owner, blocks: seq<Block>)
      ensures this.owner == owner && this.blocks == blocks
      ensures records == PublishAll([], FunctionRecords(owner, blocks))
    {
      this.owner := owner;
      this.blocks := blocks;
      records := [];
      new;
      for j := 0 to |blocks|
        invariant records == PublishAll([], FunctionRecords(owner, blocks[..j]))
        invariant this.owner == owner
      {
        PublishBlock(blocks[j]);
        assert blocks[..j + 1][..j] == blocks[..j];
        PublishAllAppend([], FunctionRecords(owner, blocks[..j]), BlockRecords(owner, blocks[j], |blocks[j].insts|));
      }
      assert blocks[..|blocks|] == blocks;
    }

    /** `route8_find_return_chain_record`. */
    method Find(key: Key) returns (r: Record)
      ensures r == Lookup(records, blocks, key)
    {
      hide KeyMatches;
      if key.block.None? {
        return Failure(MissingBlock, key);
      }
      var found: Option<Record> := None;
      for k := 0 to |records|
        invariant MatchesIn(records[..k], key) == (if found.Some? then [found.value] else [])
      {
        assert records[..k + 1][..k] == records[..k];
        MatchesGrow(records, key, k);
        if KeyMatches(records[k].key, key) {
          if found.Some? {
            MatchesPrefix(records, key, k + 1);
            return Failure(DuplicateRecord, key);
          }
          found := Some(records[k]);
        }
      }
      assert records[..|records|] == records;
      if found.Some? {
        return found.value;
      }
      return Failure(MissingStatus(blocks, key), key);
    }
  }

  lemma {:induction false} NoRecords(owner: Owner, b: Block, n: nat)
    requires !ReturnsNamed(b)
    ensures BlockRecords(owner, b, n) == []
  {
    if n > 0 {
      NoRecords(owner, b, n - 1);
    }
  }

  /** The inner loop: the name the run from `i` ends with, if `i` can start one. */
  method RunFrom(b: Block, i: nat) returns (end: Option<string>)
    ensures end == (if Starts(b, i) then Some(ChainEnd(b, b.insts[i].result.name, i + 1)) else None)
  {
    if !Starts(b, i) {
      return None;
    }
    var currentName, next := b.insts[i].result.name, i + 1;
    while next < |b.insts|
      invariant i < next <= |b.insts|
      invariant ChainEnd(b, b.insts[i].result.name, i + 1) == ChainEnd(b, currentName, next)
    {
      if !Continues(b, next, currentName) {
        break;
      }
      currentName := b.insts[next].result.name;
      next := next + 1;
    }
    return Some(currentName);
  }

  // ------------------------------------------------------ lookup

  function Failure(status: Status, key: Key): Record
  {
    Record(false, status, key, NOTHING, NOTHING)
  }

  function MatchesIn(records: seq<Record>, key: Key): seq<Record>
  {
    if records == [] then []
    else
      var last := records[|records| - 1];
      MatchesIn(records[..|records| - 1], key) + (if KeyMatches(last.key, key) then [last] else [])
  }

  lemma MatchesGrow(records: seq<Record>, key: Key, k: nat)
    requires k < |records|
    ensures MatchesIn(records[..k + 1], key) ==
            MatchesIn(records[..k], key) + (if KeyMatches(records[k].key, key) then [records[k]] else [])
  {
    hide KeyMatches;
    assert records[..k + 1][..k] == records[..k];
  }

  lemma {:induction false} MatchesPrefix(records: seq<Record>, key: Key, n: nat)
    requires n <= |records|
    ensures |MatchesIn(records, key)| >= |MatchesIn(records[..n], key)|
    decreases |records| - n
  {
    hide KeyMatches;
    if n < |records| {
      MatchesGrow(records, key, n);
      MatchesPrefix(records, key, n + 1);
    } else {
      assert records[..n] == records;
    }
  }

  /** `route8_missing_block_status` for an index built from a function. */
  function MissingStatus(blocks: seq<Block>, key: Key): Status
    requires key.block.Some?
  {
    if !IsPresent(key.value) then MissingChainValue
    else if key.index >= |key.block.value.insts| then MissingInstruction
    else if exists b :: b in blocks && BlockMatches(key.labelText, key.labelId, b) then NoMatch
    else MissingBlock
  }

  function Lookup(records: seq<Record>, blocks: seq<Block>, key: Key): Record
  {
    if key.block.None? then Failure(MissingBlock, key)
    else
      var matches := MatchesIn(records, key);
      if matches == [] then Failure(MissingStatus(blocks, key), key)
      else if |matches| > 1 then Failure(DuplicateRecord, key)
      else matches[0]
  }

  /** One matching record is returned, several are a duplicate, none is missing. */
  lemma LookupByCount(records: seq<Record>, blocks: seq<Block>, key: Key)
    requires key.block.Some?
    ensures forall i, j :: 0 <= i < j < |records| && KeyMatches(records[i].key, key) && KeyMatches(records[j].key, key)
              ==> Lookup(records, blocks, key) == Failure(DuplicateRecord, key)
    ensures forall i :: 0 <= i < |records| && OnlyMatch(records, key, i) ==> Lookup(records, blocks, key) == records[i]
    ensures (forall i :: 0 <= i < |records| ==> !KeyMatches(records[i].key, key)) ==>
              Lookup(records, blocks, key) == Failure(MissingStatus(blocks, key), key)
  {
    hide KeyMatches;
    MatchCount(records, key);
  }

  ghost predicate OnlyMatch(records: seq<Record>, key: Key, i: nat)
  {
    forall j :: 0 <= j < |records| ==> (KeyMatches(records[j].key, key) <==> j == i)
  }

  lemma {:induction false} MatchCount(records: seq<Record>, key: Key)
    ensures (forall i :: 0 <= i < |records| ==> !KeyMatches(records[i].key, key)) <==> MatchesIn(records, key) == []
    ensures forall i :: 0 <= i < |records| && OnlyMatch(records, key, i) ==> MatchesIn(records, key) == [records[i]]
    ensures forall i, j :: 0 <= i < j < |records| && KeyMatches(records[i].key, key) && KeyMatches(records[j].key, key)
              ==> |MatchesIn(records, key)| > 1
  {
    hide KeyMatches;
    if records != [] {
      var n := |records| - 1;
      MatchCount(records[..n], key);
      forall i | 0 <= i < n && OnlyMatch(records, key, i)
        ensures MatchesIn(records, key) == [records[i]]
      {
        assert OnlyMatch(records[..n], key, i) && records[..n][i] == records[i];
      }
      forall i, j | 0 <= i < j < |records| && KeyMatches(records[i].key, key) && KeyMatches(records[j].key, key)
        ensures |MatchesIn(records, key)| > 1
      {
        assert records[..n][i] == records[i] && (j < n ==> records[..n][j] == records[j]);
      }
    }
  }

  /** Which of the missing statuses is given. */
  lemma MissingStatusExact(blocks: seq<Block>, key: Key)
    requires key.block.Some?
    ensures var v, s := key.value, MissingStatus(blocks, key);
            var absent := v.at.None? && v.name == "" && v.nameId.None? && v.constant.None?;
            var known := exists j :: 0 <= j < |blocks| &&
                           RefOf(blocks[j].labelText, blocks[j].labelId) == RefOf(key.labelText, key.labelId);
            && (s == MissingChainValue <==> absent)
            && (s == MissingInstruction <==> !absent && key.index >= |key.block.value.insts|)
            && (s == NoMatch <==> !absent && key.index < |key.block.value.insts| && known)
            && (s == MissingBlock <==> !absent && key.index < |key.block.value.insts| && !known)
  {
    forall j | 0 <= j < |blocks|
      ensures BlockMatches(key.labelText, key.labelId, blocks[j]) <==>
              RefOf(blocks[j].labelText, blocks[j].labelId) == RefOf(key.labelText, key.labelId)
    {
    }
  }

  // ------------------------------------------------------ what lookup finds

  datatype Ref = ById(id: nat) | ByLabel(labelText: string)

  function RefOf(labelText: string, labelId: Option<nat>): Ref
  {
    if labelId.Some? then ById(labelId.value) else ByLabel(labelText)
  }

  /** Everything a key is compared by, besides its owner. */
  datatype Signature = Signature(index: nat, ref: Ref, name: string, ty: TypeKind)

  function SignatureOf(k: Key): Signature
  {
    Signature(k.index, RefOf(k.labelText, k.labelId), k.value.name, k.value.ty)
  }

  ghost predicate ProperKey(owner: Owner, k: Key)
  {
    && k.owner == owner && k.block.Some? && k.block.value.labelText == k.labelText && k.block.value.labelId == k.labelId
    && k.value.name != "" && k.value.nameId.None?
  }

  ghost predicate Proper(owner: Owner, r: Record)
  {
    r.available && r.status == Available && ProperKey(owner, r.key)
  }

  lemma ProperKeysMatch(owner: Owner, a: Key, b: Key)
    requires ProperKey(owner, a) && ProperKey(owner, b)
    ensures KeyMatches(a, b) <==> SignatureOf(a) == SignatureOf(b)
  {
  }

  /** The published records under one signature, in order of publication. */
  function Group(rs: seq<Record>, s: Signature): seq<Record>
  {
    if rs == [] then []
    else
      var last := rs[|rs| - 1];
      Group(rs[..|rs| - 1], s) + (if SignatureOf(last.key) == s then [last] else [])
  }

  /** What the index keeps of a group. */
  function Summary(group: seq<Record>): Record
    requires group != []
  {
    if |group| == 1 then group[0] else Merged(Summary(group[..|group| - 1]), group[|group| - 1])
  }

  lemma SummaryGrows(group: seq<Record>, r: Record)
    requires group != []
    ensures Summary(group + [r]) == Merged(Summary(group), r)
  {
    assert (group + [r])[..|group|] == group;
  }

  /** A group whose members agree with the first is kept as that first record; any other is a duplicate. */
  lemma {:induction false} SummaryExact(group: seq<Record>)
    requires group != [] && group[0].status == Available
    ensures Summary(group).key == group[0].key
    ensures (forall k :: 0 <= k < |group| ==> !Conflicts(group[0], group[k])) ==> Summary(group) == group[0]
    ensures (exists k :: 1 <= k < |group| && Conflicts(group[0], group[k])) ==>
              Summary(group) == Record(false, DuplicateRecord, group[0].key, NOTHING, NOTHING)
  {
    hide Conflicts;
    if |group| > 1 {
      var init, last := group[..|group| - 1], group[|group| - 1];
      NoSelfConflict(group[0]);
      SummaryExact(init);
      if exists k :: 1 <= k < |init| && Conflicts(init[0], init[k]) {
        var k :| 1 <= k < |init| && Conflicts(init[0], init[k]);
        assert Conflicts(group[0], group[k]);
      } else {
        assert forall k :: 0 <= k < |init| ==> !Conflicts(init[0], init[k]);
      }
    }
  }

  lemma NoSelfConflict(r: Record)
    ensures !Conflicts(r, r)
  {
  }

  ghost predicate IsKept(records: seq<Record>, done: seq<Record>, k: nat)
    requires k < |records|
  {
    var group := Group(done, SignatureOf(records[k].key));
    group != [] && records[k] == Summary(group)
  }

  /** The index holds one record per signature that was published: the summary of its group. */
  ghost predicate Tracks(owner: Owner, records: seq<Record>, done: seq<Record>)
  {
    && (forall k :: 0 <= k < |records| ==> ProperKey(owner, records[k].key) && IsKept(records, done, k))
    && (forall k, l :: 0 <= k < l < |records| ==> SignatureOf(records[k].key) != SignatureOf(records[l].key))
    && (forall s :: Group(done, s) != [] ==> HasSignature(records, s))
  }

  ghost predicate HasSignature(records: seq<Record>, s: Signature)
  {
    exists k :: 0 <= k < |records| && SignatureOf(records[k].key) == s
  }

  lemma {:induction false} PublishedAt(owner: Owner, records: seq<Record>, r: Record, k: nat)
    requires forall l :: 0 <= l < |records| ==> ProperKey(owner, records[l].key)
    requires ProperKey(owner, r.key) && k <= |records|
    requires forall l :: 0 <= l < k ==> SignatureOf(records[l].key) != SignatureOf(r.key)
    requires k < |records| ==> SignatureOf(records[k].key) == SignatureOf(r.key)
    ensures Published(records, r) == if k < |records| then records[k := Merged(records[k], r)] else records + [r]
    decreases |records|
  {
    hide KeyMatches, Merged, SignatureOf, ProperKey;
    if records != [] {
      ProperKeysMatch(owner, records[0].key, r.key);
      if k > 0 {
        PublishedAt(owner, records[1..], r, k - 1);
      }
    }
  }

  lemma GroupGrows(done: seq<Record>, r: Record, s: Signature)
    ensures Group(done + [r], s) == if SignatureOf(r.key) == s then Group(done, s) + [r] else Group(done, s)
  {
    assert (done + [r])[..|done|] == done;
    assert Group(done, s) + [] == Group(done, s);
  }

  lemma FindSignature(records: seq<Record>, s: Signature) returns (k: nat)
    ensures k <= |records|
    ensures forall l :: 0 <= l < k ==> SignatureOf(records[l].key) != s
    ensures k < |records| ==> SignatureOf(records[k].key) == s
  {
    k := 0;
    while k < |records| && SignatureOf(records[k].key) != s
      invariant 0 <= k <= |records|
      invariant forall l :: 0 <= l < k ==> SignatureOf(records[l].key) != s
    {
      k := k + 1;
    }
  }

  lemma PublishTracks(owner: Owner, records: seq<Record>, done: seq<Record>, r: Record)
    requires Tracks(owner, records, done) && Proper(owner, r)
    ensures Tracks(owner, Published(records, r), done + [r])
  {
    hide KeyMatches, Conflicts, SignatureOf, ProperKey, Published, Group;
    var s := SignatureOf(r.key);
    var k := FindSignature(records, s);
    PublishedAt(owner, records, r, k);
    var now := Published(records, r);
    KeysKept(records, now, r, k);
    forall l | 0 <= l < |now|
      ensures IsKept(now, done + [r], l)
    {
      GroupGrows(done, r, SignatureOf(now[l].key));
      if l < |records| {
        assert IsKept(records, done, l);
        if l == k {
          SummaryGrows(Group(done, s), r);
        }
      } else {
        assert !HasSignature(records, s) && Group(done, s) == [];
        assert Group(done + [r], s) == [] + [r] == [r];
      }
    }
    forall t | Group(done + [r], t) != []
      ensures HasSignature(now, t)
    {
      GroupGrows(done, r, t);
      if t == s {
        assert SignatureOf(now[k].key) == s;
      } else {
        var l :| 0 <= l < |records| && SignatureOf(records[l].key) == t;
        assert SignatureOf(now[l].key) == t;
      }
    }
  }

  lemma KeysKept(records: seq<Record>, now: seq<Record>, r: Record, k: nat)
    requires k <= |records| && now == if k < |records| then records[k := Merged(records[k], r)] else records + [r]
    ensures forall l :: 0 <= l < |records| ==> now[l].key == records[l].key
    ensures k == |records| ==> now[k] == r
  {
  }

  lemma {:induction false} PublishAllTracks(owner: Owner, rs: seq<Record>)
    requires forall r :: r in rs ==> Proper(owner, r)
    ensures Tracks(owner, PublishAll([], rs), rs)
  {
    hide Published, Proper;
    if rs == [] {
    } else {
      var init, last := rs[..|rs| - 1], rs[|rs| - 1];
      PublishAllTracks(owner, init);
      PublishTracks(owner, PublishAll([], init), init, last);
      assert init + [last] == rs;
    }
  }

  // The records a function publishes are proper, and a signature picks out its instruction.

  lemma {:induction false} BlockRecordsProper(owner: Owner, b: Block, n: nat)
    ensures forall r :: r in BlockRecords(owner, b, n) ==> Proper(owner, r)
  {
    if n > 0 {
      BlockRecordsProper(owner, b, n - 1);
    }
  }

  lemma {:induction false} FunctionRecordsProper(owner: Owner, blocks: seq<Block>)
    ensures forall r :: r in FunctionRecords(owner, blocks) ==> Proper(owner, r)
  {
    if blocks != [] {
      var last := blocks[|blocks| - 1];
      FunctionRecordsProper(owner, blocks[..|blocks| - 1]);
      BlockRecordsProper(owner, last, |last.insts|);
    }
  }

  /** What a query is compared by. */
  function QuerySignature(key: Key): Signature
    requires key.block.Some?
  {
    Signature(key.index, RefOf(key.block.value.labelText, key.block.value.labelId), key.value.name, key.value.ty)
  }

  /** No part of the owner that both sides give differs, and the query has no value id. */
  predicate CanMatch(owner: Owner, key: Key)
  {
    && key.block.Some? && key.value.nameId.None?
    && !(owner.functionId.Some? && key.owner.functionId.Some? && owner.functionId != key.owner.functionId)
    && !(owner.link.Some? && key.owner.link.Some? && owner.link != key.owner.link)
    && !(owner.name != "" && key.owner.name != "" && owner.name != key.owner.name)
  }

  lemma QueryMatches(owner: Owner, k: Key, key: Key)
    requires ProperKey(owner, k) && key.block.Some?
    ensures KeyMatches(k, key) <==> CanMatch(owner, key) && SignatureOf(k) == QuerySignature(key)
  {
  }

  lemma {:induction false} MatchesOfSignature(owner: Owner, records: seq<Record>, key: Key, k: nat)
    requires key.block.Some? && k <= |records|
    requires forall l :: 0 <= l < |records| ==> ProperKey(owner, records[l].key)
    requires forall l :: 0 <= l < |records| && l != k ==>
             !(CanMatch(owner, key) && SignatureOf(records[l].key) == QuerySignature(key))
    requires k < |records| ==> CanMatch(owner, key) && SignatureOf(records[k].key) == QuerySignature(key)
    ensures MatchesIn(records, key) == if k < |records| then [records[k]] else []
    decreases |records|
  {
    hide KeyMatches, ProperKey, CanMatch;
    if records != [] {
      var n := |records| - 1;
      QueryMatches(owner, records[n].key, key);
      MatchesOfSignature(owner, records[..n], key, if k < n then k else n);
    }
  }

  /**
   Lookup in a freshly built index, for any key and any labels: with no published record under the
   key the answer is a missing status; when all published records under it agree it is the first of
   them; otherwise it is a duplicate.
   */
  lemma LookupExact(owner: Owner, blocks: seq<Block>, key: Key)
    requires key.block.Some?
    ensures var published := FunctionRecords(owner, blocks);
            var group := if CanMatch(owner, key) then Group(published, QuerySignature(key)) else [];
            var r := Lookup(PublishAll([], published), blocks, key);
            && (group == [] ==> r == Failure(MissingStatus(blocks, key), key))
            && (group != [] && (forall k :: 0 <= k < |group| ==> !Conflicts(group[0], group[k])) ==> r == group[0])
            && (group != [] && (exists k :: 1 <= k < |group| && Conflicts(group[0], group[k])) ==>
                  !r.available && r.status == DuplicateRecord)
  {
    hide Conflicts, Published, FunctionRecords, CanMatch, KeyMatches, ProperKey;
    var published := FunctionRecords(owner, blocks);
    var records := PublishAll([], published);
    FunctionRecordsProper(owner, blocks);
    PublishAllTracks(owner, published);
    if CanMatch(owner, key) {
      var s := QuerySignature(key);
      var k := FindSignature(records, s);
      MatchesOfSignature(owner, records, key, k);
      if k < |records| {
        assert IsKept(records, published, k);
        GroupMembers(published, s);
        SummaryExact(Group(published, s));
      } else {
        assert !HasSignature(records, s);
      }
    } else {
      MatchesOfSignature(owner, records, key, |records|);
    }
  }

  lemma {:induction false} GroupMembers(rs: seq<Record>, s: Signature)
    ensures forall r :: r in Group(rs, s) ==> r in rs && SignatureOf(r.key) == s
  {
    if rs != [] {
      GroupMembers(rs[..|rs| - 1], s);
    }
  }

  // ------------------------------------------------------ distinct labels

  function BlockRef(b: Block): Ref
  {
    RefOf(b.labelText, b.labelId)
  }

  ghost predicate DistinctLabels(blocks: seq<Block>)
  {
    forall i, j :: 0 <= i < j < |blocks| ==> BlockRef(blocks[i]) != BlockRef(blocks[j])
  }

  lemma {:induction false} GroupAppend(a: seq<Record>, b: seq<Record>, s: Signature)
    ensures Group(a + b, s) == Group(a, s) + Group(b, s)
    decreases |b|
  {
    hide SignatureOf;
    if b == [] {
      assert a + b == a && Group(a, s) + [] == Group(a, s);
    } else {
      var n := |b| - 1;
      assert (a + b)[..|a + b| - 1] == a + b[..n] && (a + b)[|a + b| - 1] == b[n];
      GroupAppend(a, b[..n], s);
      var last := if SignatureOf(b[n].key) == s then [b[n]] else [];
      assert Group(a, s) + Group(b[..n], s) + last == Group(a, s) + (Group(b[..n], s) + last);
    }
  }

  /** The chain of `b` that a signature names. */
  predicate NamesChain(b: Block, s: Signature)
  {
    s.ref == BlockRef(b) && IsReturnChain(b, s.index) && b.insts[s.index].result.name == s.name &&
      b.insts[s.index].result.ty == s.ty
  }

  lemma RecordSignature(owner: Owner, b: Block, i: nat, s: Signature)
    requires IsReturnChain(b, i)
    ensures SignatureOf(RecordFor(owner, b, i).key) == s <==> s.index == i && NamesChain(b, s)
  {
    hide ChainEnd, NextOperand;
  }

  lemma NamesChainIsChain(b: Block, s: Signature)
    ensures NamesChain(b, s) ==> IsReturnChain(b, s.index) && s.index < |b.insts|
  {
  }

  lemma {:induction false} GroupOfBlock(owner: Owner, b: Block, n: nat, s: Signature)
    ensures NamesChain(b, s) ==> IsReturnChain(b, s.index)
    ensures Group(BlockRecords(owner, b, n), s) ==
            if s.index < n && NamesChain(b, s) then [RecordFor(owner, b, s.index)] else []
  {
    hide IsReturnChain, RecordFor, NamesChain, SignatureOf, Group;
    NamesChainIsChain(b, s);
    if n == 0 {
      NoGroup(s);
    } else {
      GroupOfBlock(owner, b, n - 1, s);
      var done := BlockRecords(owner, b, n - 1);
      if IsReturnChain(b, n - 1) {
        RecordSignature(owner, b, n - 1, s);
        GroupGrows(done, RecordFor(owner, b, n - 1), s);
      } else {
        assert done + [] == done;
      }
    }
  }

  lemma NoGroup(s: Signature)
    ensures Group([], s) == []
  {
  }

  lemma {:induction false} GroupOfFunction(owner: Owner, blocks: seq<Block>, s: Signature, j: nat)
    requires j <= |blocks|
    requires forall k :: 0 <= k < |blocks| && k != j ==> BlockRef(blocks[k]) != s.ref
    ensures Group(FunctionRecords(owner, blocks), s) ==
            if j < |blocks| && NamesChain(blocks[j], s) then [RecordFor(owner, blocks[j], s.index)] else []
    decreases |blocks|
  {
    hide IsReturnChain, RecordFor, BlockRecords, Group;
    if blocks == [] {
      NoGroup(s);
    } else {
      var n := |blocks| - 1;
      var last := blocks[n];
      var init := blocks[..n];
      GroupOfFunction(owner, init, s, if j < n then j else n);
      GroupAppend(FunctionRecords(owner, init), BlockRecords(owner, last, |last.insts|), s);
      GroupOfBlock(owner, last, |last.insts|, s);
      NamesChainIsChain(last, s);
    }
  }

  /**
   With distinct labels, looking up a value at an instruction finds a record exactly when the greedy
   run from that instruction ends at the returned name, and it is that instruction's own record.
   */
  lemma DistinctLookup(owner: Owner, blocks: seq<Block>, j: nat, i: nat, v: Value, at: Place)
    requires DistinctLabels(blocks) && j < |blocks|
    ensures var b := blocks[j];
            var r := Lookup(PublishAll([], FunctionRecords(owner, blocks)), blocks, KeyFor(owner, b, i, v, at));
            && (r.available <==> IsReturnChain(b, i) && SameValue(b.insts[i].result, v))
            && (r.available ==> r == RecordFor(owner, b, i))
            && (r.available ==> Passes(b.insts[i]) && IsOtherOperand(b, i, r.next))
            && (r.available ==> NameAndType(r.terminal) == (b.terminator.returned.value.name,
                                                            b.terminator.returned.value.ty))
  {
    hide Lookup, PublishAll, FunctionRecords, ChainEnd, NextOperand, Conflicts, IsOtherOperand, Continues;
    var b, key := blocks[j], KeyFor(owner, blocks[j], i, v, at);
    var s := QuerySignature(key);
    LookupExact(owner, blocks, key);
    forall k | 0 <= k < |blocks| && k != j
      ensures BlockRef(blocks[k]) != s.ref
    {
    }
    GroupOfFunction(owner, blocks, s, j);
    if NamesChain(b, s) {
      NoSelfConflict(RecordFor(owner, b, i));
      NextOperandExact(b, i);
    }
  }
}
