/**
 Publications of src/backend/bir/bir_route4_publication.cpp: which producer stands behind a value at
 a point of a block. A pointer to a block of the function is its position in the function.
 */
module Route4 {
  import opened Machine
  import opened Bir
  import opened Route1

  datatype Publication = Publication(block: nat, labelText: string, labelId: Option<nat>, value: Value, producer: nat,
                                     kind: ProducerKind)

  /** A value defined by a phi at the head of a block. */
  datatype Entry = Entry(labelText: string, labelId: Option<nat>, value: Value)

  // ------------------------------------------------------ building the index

  /** The publication of instruction `i` of block `j`, if it produces a named value. */
  function PublicationAt(blocks: seq<Block>, j: nat, i: nat): Option<Publication>
  {
    if j >= |blocks| || i >= |blocks[j].insts| || KindOf(blocks[j].insts[i]).None? ||
      !IsNamed(blocks[j].insts[i].result) then None
    else
      var b := blocks[j];
      Some(Publication(j, b.labelText, b.labelId, b.insts[i].result, i, KindOf(b.insts[i]).value))
  }

  predicate Precedes(j: nat, i: nat, j': nat, i': nat)
  {
    j < j' || (j == j' && i < i')
  }

  /** Exactly the publications before instruction `i` of block `j`, in order. */
  ghost predicate PublishedUpTo(blocks: seq<Block>, ps: seq<Publication>, j: nat, i: nat)
  {
    && (forall p :: p in ps ==>
          Precedes(p.block, p.producer, j, i) && PublicationAt(blocks, p.block, p.producer) == Some(p))
    && (forall j', i' :: Precedes(j', i', j, i) && PublicationAt(blocks, j', i').Some? ==>
          PublicationAt(blocks, j', i').value in ps)
    && (forall k, l :: 0 <= k < l < |ps| ==> Precedes(ps[k].block, ps[k].producer, ps[l].block, ps[l].producer))
  }

  ghost predicate IsPublicationIndex(blocks: seq<Block>, ps: seq<Publication>)
  {
    PublishedUpTo(blocks, ps, |blocks|, 0)
  }

  /** The named results of the phis a block starts with. */
  function EntriesFrom(b: Block, i: nat): seq<Entry>
    decreases |b.insts| - i
  {
    if i >= |b.insts| || !b.insts[i].Phi? then []
    else
      var entry := if IsNamed(b.insts[i].result) then [Entry(b.labelText, b.labelId, b.insts[i].result)] else [];
      entry + EntriesFrom(b, i + 1)
  }

  function AllEntries(blocks: seq<Block>): seq<Entry>
  {
    if blocks == [] then [] else AllEntries(blocks[..|blocks| - 1]) + EntriesFrom(blocks[|blocks| - 1], 0)
  }

  /** `route4_build_publication_availability_index`. */
  method BuildPublicationIndex(blocks: seq<Block>) returns (ps: seq<Publication>, entries: seq<Entry>)
    ensures IsPublicationIndex(blocks, ps)
    ensures entries == AllEntries(blocks)
  {
    ps, entries := [], [];
    for j := 0 to |blocks|
      invariant PublishedUpTo(blocks, ps, j, 0)
      invariant entries == AllEntries(blocks[..j])
    {
      ps := PublishBlock(blocks, j, ps);
      var more := BlockEntries(blocks[j]);
      entries := entries + more;
      assert blocks[..j + 1][..j] == blocks[..j];
    }
    assert blocks[..|blocks|] == blocks;
  }

  /** One block: a query for every producer, just after it. */
  method PublishBlock(blocks: seq<Block>, j: nat, done: seq<Publication>) returns (ps: seq<Publication>)
    requires j < |blocks| && PublishedUpTo(blocks, done, j, 0)
    ensures PublishedUpTo(blocks, ps, j + 1, 0)
  {
    hide PublishedUpTo, PublicationAt;
    var b := blocks[j];
    var records := BuildProducerIndex(b);
    ps := done;
    ghost var i: nat := 0;
    for k := 0 to |records|
      invariant i <= |b.insts| && PublishedUpTo(blocks, ps, j, i)
      invariant i == (if k == 0 then 0 else records[k - 1].index + 1)
    {
      var record := records[k];
      assert record in records;
      forall m | i <= m < record.index
        ensures KindOf(b.insts[m]).None?
      {
        GapHasNoProducer(b, records, k, m);
      }
      SkipToProducer(blocks, ps, j, i, record.index);
      PublishNext(blocks, ps, j, record.index);
      RecordPublication(blocks, j, record);
      if IsNamed(record.value) {
        var found := FindScalarProducer(records, record.value, record.index + 1, b);
        ps := ps + [Publication(j, b.labelText, b.labelId, record.value, found.value.index, found.value.kind)];
      }
      i := record.index + 1;
    }
    forall m | i <= m < |b.insts|
      ensures KindOf(b.insts[m]).None?
    {
      GapHasNoProducer(b, records, |records|, m);
    }
    SkipToProducer(blocks, ps, j, i, |b.insts|);
  }

  /** The query just after a producer of a named value answers with that producer. */
  lemma RecordPublication(blocks: seq<Block>, j: nat, record: ProducerRecord)
    requires j < |blocks| && RecordAt(blocks[j], record.index) == Some(record)
    ensures IsNamed(record.value) ==> LastProducer(blocks[j], record.value, record.index + 1) == Some(record.index)
    ensures var b := blocks[j];
            PublicationAt(blocks, j, record.index) ==
            if IsNamed(record.value)
            then Some(Publication(j, b.labelText, b.labelId, record.value, record.index, record.kind))
            else None
  {
    assert IsNamed(record.value) ==> Produces(blocks[j], record.index, record.value);
  }

  lemma PublicationPosition(blocks: seq<Block>, j: nat, i: nat)
    ensures PublicationAt(blocks, j, i).Some? ==>
              PublicationAt(blocks, j, i).value.block == j && PublicationAt(blocks, j, i).value.producer == i
  {
  }

  lemma PublishNext(blocks: seq<Block>, ps: seq<Publication>, j: nat, i: nat)
    requires PublishedUpTo(blocks, ps, j, i)
    ensures var next := PublicationAt(blocks, j, i);
            PublishedUpTo(blocks, if next.Some? then ps + [next.value] else ps, j, i + 1)
  {
    hide PublicationAt;
    PublicationPosition(blocks, j, i);
    var next := PublicationAt(blocks, j, i);
    if next.Some? {
      var now := ps + [next.value];
      forall j', i' | Precedes(j', i', j, i + 1) && PublicationAt(blocks, j', i').Some?
        ensures PublicationAt(blocks, j', i').value in now
      {
        if Precedes(j', i', j, i) {
          assert PublicationAt(blocks, j', i').value in ps;
        }
      }
      forall k | 0 <= k < |ps|
        ensures Precedes(now[k].block, now[k].producer, j, i)
      {
        assert ps[k] in ps;
      }
    }
  }

  lemma SkipToProducer(blocks: seq<Block>, ps: seq<Publication>, j: nat, i: nat, n: nat)
    requires j < |blocks| && PublishedUpTo(blocks, ps, j, i) && i <= n <= |blocks[j].insts|
    requires forall m :: i <= m < n ==> KindOf(blocks[j].insts[m]).None?
    ensures PublishedUpTo(blocks, ps, j, n)
    ensures n == |blocks[j].insts| ==> PublishedUpTo(blocks, ps, j + 1, 0)
  {
  }

  method BlockEntries(b: Block) returns (entries: seq<Entry>)
    ensures entries == EntriesFrom(b, 0)
  {
    entries := [];
    var i := 0;
    while i < |b.insts|
      invariant 0 <= i <= |b.insts|
      invariant EntriesFrom(b, 0) == entries + EntriesFrom(b, i)
    {
      if !b.insts[i].Phi? {
        return;
      }
      if IsNamed(b.insts[i].result) {
        entries := entries + [Entry(b.labelText, b.labelId, b.insts[i].result)];
      }
      i := i + 1;
    }
  }

  // ------------------------------------------------------ finding a publication

  datatype Finding = Found(publication: Publication) | MissingValue | NoMatch | MissingPublication

  /** `route4_current_block_publication_record`: the direct query on the block's own producers. */
  function DirectPublication(blocks: seq<Block>, j: nat, v: Value, before: nat): Finding
    requires j < |blocks|
  {
    if !IsNamed(v) then MissingValue
    else
      match LastProducer(blocks[j], v, before)
      case None => NoMatch
      case Some(i) =>
        var b := blocks[j];
        Found(Publication(j, b.labelText, b.labelId, v, i, KindOf(b.insts[i]).value))
  }

  /** The block a query passes: one of the function's own, or a copy that lives elsewhere. */
  datatype Queried = Own(position: nat) | Copy(block: Block)

  /** `route4_record_matches_block` for a copy: ids decide when both are known, label texts otherwise. */
  predicate LabelMatches(labelText: string, labelId: Option<nat>, b: Block)
  {
    if labelId.Some? && b.labelId.Some? then labelId == b.labelId else labelText != "" && labelText == b.labelText
  }

  predicate BlockMatches(p: Publication, at: Queried)
  {
    match at
    case Own(j) => p.block == j
    case Copy(b) => LabelMatches(p.labelText, p.labelId, b)
  }

  predicate SameName(p: Publication, at: Queried, v: Value)
  {
    v.Named? && BlockMatches(p, at) && p.value.Named? && p.value.name == v.name
  }

  /** A record of the block with that name before the position. */
  predicate NameMatches(p: Publication, at: Queried, v: Value, before: nat)
  {
    SameName(p, at, v) && p.producer < before
  }

  predicate RecordMatches(p: Publication, at: Queried, v: Value, before: nat)
  {
    NameMatches(p, at, v, before) && p.value.ty == v.ty
  }

  lemma RecordIsProducer(blocks: seq<Block>, ps: seq<Publication>, p: Publication, j: nat, v: Value, before: nat)
    requires IsPublicationIndex(blocks, ps) && p in ps && j < |blocks| && RecordMatches(p, Own(j), v, before)
    ensures p.producer < Limit(blocks[j], before) && Produces(blocks[j], p.producer, v) && p.value == v
  {
  }

  lemma ProducerIsRecord(blocks: seq<Block>, ps: seq<Publication>, j: nat, v: Value, before: nat, i: nat)
    requires IsPublicationIndex(blocks, ps) && j < |blocks| && IsNamed(v)
    requires i < Limit(blocks[j], before) && Produces(blocks[j], i, v)
    ensures PublicationAt(blocks, j, i).Some? && PublicationAt(blocks, j, i).value in ps
    ensures RecordMatches(PublicationAt(blocks, j, i).value, Own(j), v, before)
  {
  }

  /** The last record of a queried block for a value before the position. */
  function LastMatch(ps: seq<Publication>, at: Queried, v: Value, before: nat): (r: Option<Publication>)
    ensures r.None? ==> forall l :: 0 <= l < |ps| ==> !RecordMatches(ps[l], at, v, before)
    ensures r.Some? ==> exists k :: 0 <= k < |ps| && IsLastMatch(ps, at, v, before, k) && ps[k] == r.value
  {
    if ps == [] then None
    else if RecordMatches(ps[|ps| - 1], at, v, before) then
      assert IsLastMatch(ps, at, v, before, |ps| - 1);
      Some(ps[|ps| - 1])
    else
      var r := LastMatch(ps[..|ps| - 1], at, v, before);
      assert forall k :: 0 <= k < |ps| - 1 && IsLastMatch(ps[..|ps| - 1], at, v, before, k) ==>
               IsLastMatch(ps, at, v, before, k);
      r
  }

  ghost predicate IsLastMatch(ps: seq<Publication>, at: Queried, v: Value, before: nat, k: nat)
  {
    && k < |ps| && RecordMatches(ps[k], at, v, before)
    && forall l :: k < l < |ps| ==> !RecordMatches(ps[l], at, v, before)
  }

  /** Without a record the answer says whether the name is published there at another type. */
  function Answer(ps: seq<Publication>, at: Queried, v: Value, before: nat): Finding
  {
    if !IsNamed(v) then MissingValue
    else
      match LastMatch(ps, at, v, before)
      case Some(p) => Found(p)
      case None => if exists p :: p in ps && NameMatches(p, at, v, before) then NoMatch else MissingPublication
  }

  /** `route4_find_current_block_publication`: the reverse scan of the index, for any block. */
  method FindCurrentBlockPublication(ps: seq<Publication>, at: Queried, v: Value, before: nat) returns (r: Finding)
    ensures r == Answer(ps, at, v, before)
  {
    if !IsNamed(v) {
      return MissingValue;
    }
    var typeMismatch: Option<Publication> := None;
    var k := |ps|;
    assert ps[..k] == ps;
    while k > 0
      invariant 0 <= k <= |ps|
      invariant LastMatch(ps, at, v, before) == LastMatch(ps[..k], at, v, before)
      invariant typeMismatch.None? ==> forall l :: k <= l < |ps| ==> !NameMatches(ps[l], at, v, before)
      invariant typeMismatch.Some? ==> typeMismatch.value in ps && NameMatches(typeMismatch.value, at, v, before)
    {
      assert ps[..k][..k - 1] == ps[..k - 1];
      k := k - 1;
      var candidate := ps[k];
      if !NameMatches(candidate, at, v, before) {
        continue;
      }
      if candidate.value.ty != v.ty {
        typeMismatch := Some(candidate);
        continue;
      }
      return Found(candidate);
    }
    return if typeMismatch.Some? then NoMatch else MissingPublication;
  }

  /** The same id, or, unless both have one, the same text. */
  predicate Alike(a: Block, b: Block)
  {
    || (a.labelId.Some? && a.labelId == b.labelId)
    || ((a.labelId.None? || b.labelId.None?) && a.labelText != "" && a.labelText == b.labelText)
  }

  /** The query is about block `j`: that block itself, or a copy whose label only block `j` bears. */
  ghost predicate StandsFor(blocks: seq<Block>, at: Queried, j: nat)
  {
    && j < |blocks|
    && match at
       case Own(position) => position == j
       case Copy(b) =>
         forall k :: 0 <= k < |blocks| ==> (Alike(blocks[k], b) <==> k == j)
  }

  lemma StandsForMatches(blocks: seq<Block>, ps: seq<Publication>, at: Queried, j: nat, p: Publication)
    requires IsPublicationIndex(blocks, ps) && StandsFor(blocks, at, j) && p in ps
    ensures BlockMatches(p, at) <==> p.block == j
  {
  }

  /** The scan of the index names the producer the direct query on the block names. */
  lemma AnswerIsDirect(blocks: seq<Block>, ps: seq<Publication>, at: Queried, j: nat, v: Value, before: nat)
    requires IsPublicationIndex(blocks, ps) && StandsFor(blocks, at, j)
    ensures var r, direct := Answer(ps, at, v, before), DirectPublication(blocks, j, v, before);
            && (r.Found? <==> direct.Found?)
            && (r.Found? || r.MissingValue? ==> r == direct)
            && (r.NoMatch? <==> IsNamed(v) && !r.Found? && exists p :: p in ps && NameMatches(p, Own(j), v, before))
  {
    hide PublishedUpTo, StandsFor, DirectPublication;
    forall p | p in ps
      ensures BlockMatches(p, at) <==> p.block == j
    {
      StandsForMatches(blocks, ps, at, j, p);
    }
    StandsForBlock(blocks, at, j);
    if IsNamed(v) {
      if LastMatch(ps, at, v, before).Some? {
        var k :| 0 <= k < |ps| && IsLastMatch(ps, at, v, before, k) && ps[k] == LastMatch(ps, at, v, before).value;
        LastRecordIsDirect(blocks, ps, j, v, before, k);
      } else {
        NoRecordNoProducer(blocks, ps, j, v, before);
        NoProducerNoMatch(blocks, j, v, before);
      }
    } else {
      UnnamedIsMissing(blocks, j, v, before);
    }
  }

  lemma StandsForBlock(blocks: seq<Block>, at: Queried, j: nat)
    requires StandsFor(blocks, at, j)
    ensures j < |blocks|
  {
  }

  lemma NoProducerNoMatch(blocks: seq<Block>, j: nat, v: Value, before: nat)
    requires j < |blocks| && IsNamed(v) && LastProducer(blocks[j], v, before).None?
    ensures DirectPublication(blocks, j, v, before) == NoMatch
  {
  }

  lemma UnnamedIsMissing(blocks: seq<Block>, j: nat, v: Value, before: nat)
    requires j < |blocks| && !IsNamed(v)
    ensures DirectPublication(blocks, j, v, before) == MissingValue
  {
  }

  lemma LastRecordIsDirect(blocks: seq<Block>, ps: seq<Publication>, j: nat, v: Value, before: nat, k: nat)
    requires IsPublicationIndex(blocks, ps) && j < |blocks| && IsNamed(v) && k < |ps| &&
             RecordMatches(ps[k], Own(j), v, before)
    requires forall l :: k < l < |ps| ==> !RecordMatches(ps[l], Own(j), v, before)
    ensures DirectPublication(blocks, j, v, before) == Found(ps[k])
  {
    var b, i := blocks[j], ps[k].producer;
    RecordIsProducer(blocks, ps, ps[k], j, v, before);
    forall m | i < m < Limit(b, before)
      ensures !Produces(b, m, v)
    {
      if Produces(b, m, v) {
        ProducerIsRecord(blocks, ps, j, v, before, m);
        assert false;
      }
    }
  }

  lemma NoRecordNoProducer(blocks: seq<Block>, ps: seq<Publication>, j: nat, v: Value, before: nat)
    requires IsPublicationIndex(blocks, ps) && j < |blocks| && IsNamed(v)
    requires forall l :: 0 <= l < |ps| ==> !RecordMatches(ps[l], Own(j), v, before)
    ensures LastProducer(blocks[j], v, before).None?
  {
    forall m | 0 <= m < Limit(blocks[j], before)
      ensures !Produces(blocks[j], m, v)
    {
      if Produces(blocks[j], m, v) {
        ProducerIsRecord(blocks, ps, j, v, before, m);
        assert false;
      }
    }
  }

  // ------------------------------------------------------ block entries

  /** Instruction `i` of block `j` is a phi with a named result, and only phis stand before it. */
  predicate LeadingPhi(blocks: seq<Block>, j: nat, i: nat)
  {
    && j < |blocks| && i < |blocks[j].insts| && (forall k :: 0 <= k <= i ==> blocks[j].insts[k].Phi?)
    && IsNamed(blocks[j].insts[i].result)
  }

  lemma {:induction false} BlockEntriesExact(b: Block, from: nat, e: Entry)
    requires from <= |b.insts| && forall k :: 0 <= k < from ==> b.insts[k].Phi?
    ensures e in EntriesFrom(b, from) <==>
            exists i: nat :: from <= i && LeadingPhi([b], 0, i) && e == Entry(b.labelText, b.labelId, b.insts[i].result)
    decreases |b.insts| - from
  {
    if from < |b.insts| && b.insts[from].Phi? {
      BlockEntriesExact(b, from + 1, e);
      assert IsNamed(b.insts[from].result) ==> LeadingPhi([b], 0, from);
    } else {
      forall i: nat | from <= i
        ensures !LeadingPhi([b], 0, i)
      {
        assert i < |b.insts| ==> !b.insts[from].Phi?;
      }
    }
  }

  /** The entries are exactly the named phis that stand at the head of a block. */
  lemma {:induction false} EntriesExact(blocks: seq<Block>, e: Entry)
    ensures e in AllEntries(blocks) <==>
            exists j: nat, i: nat :: LeadingPhi(blocks, j, i) &&
              e == Entry(blocks[j].labelText, blocks[j].labelId, blocks[j].insts[i].result)
  {
    if blocks != [] {
      var n := |blocks| - 1;
      var init, last := blocks[..n], blocks[n];
      EntriesExact(init, e);
      BlockEntriesExact(last, 0, e);
      forall j: nat, i: nat
        ensures LeadingPhi(blocks, j, i) <==> LeadingPhi(init, j, i) || (j == n && LeadingPhi([last], 0, i))
      {
      }
      if e in AllEntries(init) {
        var j: nat, i: nat :| LeadingPhi(init, j, i) &&
          e == Entry(init[j].labelText, init[j].labelId, init[j].insts[i].result);
        assert LeadingPhi(blocks, j, i);
      }
      if e in EntriesFrom(last, 0) {
        var i: nat :| LeadingPhi([last], 0, i) && e == Entry(last.labelText, last.labelId, last.insts[i].result);
        assert LeadingPhi(blocks, n, i);
      }
    }
  }

  // ------------------------------------------------------ validating a reference

  datatype Validation =
    | Valid(publication: Publication, recordIndex: nat)
    | StaleOwner | DuplicateReference | WrongRelationship | WrongKey | MissingRecord

  /** Block-entry records are compared by label, not by block. */
  predicate EntryMatches(e: Entry, b: Block, v: Value)
  {
    && (if e.labelId.Some? || b.labelId.Some? then e.labelId == b.labelId
        else e.labelText != "" && e.labelText == b.labelText)
    && SameValue(e.value, v)
  }

  /** A wrong relationship is a phi of that value at the head of a block with the queried block's label. */
  lemma EntryMatchExact(blocks: seq<Block>, b: Block, v: Value)
    ensures (exists e :: e in AllEntries(blocks) && EntryMatches(e, b, v)) <==>
            exists j: nat, i: nat ::
              && LeadingPhi(blocks, j, i) && SameValue(blocks[j].insts[i].result, v)
              && blocks[j].labelId == b.labelId
              && (b.labelId.None? ==> blocks[j].labelText == b.labelText != "")
  {
    if exists e :: e in AllEntries(blocks) && EntryMatches(e, b, v) {
      var e :| e in AllEntries(blocks) && EntryMatches(e, b, v);
      EntriesExact(blocks, e);
    }
    forall j: nat, i: nat |
      && LeadingPhi(blocks, j, i) && SameValue(blocks[j].insts[i].result, v)
      && blocks[j].labelId == b.labelId
      && (b.labelId.None? ==> blocks[j].labelText == b.labelText != "")
      ensures exists e :: e in AllEntries(blocks) && EntryMatches(e, b, v)
    {
      var e := Entry(blocks[j].labelText, blocks[j].labelId, blocks[j].insts[i].result);
      EntriesExact(blocks, e);
      assert EntryMatches(e, b, v);
    }
  }

  /** The only producer of the value before the position. */
  predicate IsOnlyProducer(b: Block, v: Value, before: nat, i: nat)
  {
    LastProducer(b, v, before) == Some(i) && LastProducer(b, v, i).None?
  }

  predicate HasTwoProducers(b: Block, v: Value, before: nat)
  {
    LastProducer(b, v, before).Some? && LastProducer(b, v, LastProducer(b, v, before).value).Some?
  }

  /**
   `route4_validate_current_block_publication_reference`; a position past the function's blocks is
   a block of another function. Valid means exactly one producer before the position.
   */
  method ValidateReference(ps: seq<Publication>, entries: seq<Entry>, blocks: seq<Block>, j: nat, v: Value, before: nat)
    returns (r: Validation)
    requires IsPublicationIndex(blocks, ps)
    ensures r.StaleOwner? <==> j >= |blocks|
    ensures j < |blocks| ==>
              && (r.Valid? <==> exists i :: IsOnlyProducer(blocks[j], v, before, i))
              && (r.DuplicateReference? <==> HasTwoProducers(blocks[j], v, before))
              && (r.WrongRelationship? <==>
                    && IsNamed(v) && LastProducer(blocks[j], v, before).None?
                    && exists e :: e in entries && EntryMatches(e, blocks[j], v))
              && (r.WrongKey? ==> exists p :: p in ps && SameName(p, Own(j), v))
              && (r.MissingRecord? && IsNamed(v) ==> forall p :: p in ps ==> !SameName(p, Own(j), v))
    ensures r.Valid? ==>
              && r.recordIndex < |ps| && ps[r.recordIndex] == r.publication
              && DirectPublication(blocks, j, v, before) == Found(r.publication)
  {
    hide PublishedUpTo;
    if j >= |blocks| {
      return StaleOwner;
    }
    var b := blocks[j];
    if !IsNamed(v) {
      return MissingRecord;
    }
    var matchIndex: Option<nat> := None;
    var wrongKey := false;
    for k := 0 to |ps|
      invariant matchIndex.None? ==> forall l :: 0 <= l < k ==> !RecordMatches(ps[l], Own(j), v, before)
      invariant matchIndex.Some? ==> matchIndex.value < k && RecordMatches(ps[matchIndex.value], Own(j), v, before)
      invariant matchIndex.Some? ==>
                  forall l :: 0 <= l < k && l != matchIndex.value ==> !RecordMatches(ps[l], Own(j), v, before)
      invariant wrongKey ==> exists p :: p in ps && SameName(p, Own(j), v)
      invariant !wrongKey ==>
                  forall l :: 0 <= l < k && SameName(ps[l], Own(j), v) ==> RecordMatches(ps[l], Own(j), v, before)
    {
      var candidate := ps[k];
      assert candidate in ps;
      if !SameName(candidate, Own(j), v) {
        continue;
      }
      if candidate.value.ty != v.ty || candidate.producer >= before {
        wrongKey := true;
        continue;
      }
      if matchIndex.Some? {
        TwoRecordsTwoProducers(blocks, ps, j, v, before, matchIndex.value, k);
        return DuplicateReference;
      }
      matchIndex := Some(k);
    }
    if matchIndex.None? {
      NoRecordNoProducer(blocks, ps, j, v, before);
      if exists e :: e in entries && EntryMatches(e, b, v) {
        return WrongRelationship;
      }
      return if wrongKey then WrongKey else MissingRecord;
    }
    var k := matchIndex.value;
    LastRecordIsDirect(blocks, ps, j, v, before, k);
    OneRecordOneProducer(blocks, ps, j, v, before, k);
    return Valid(ps[k], k);
  }

  lemma TwoRecordsTwoProducers(blocks: seq<Block>, ps: seq<Publication>, j: nat, v: Value, before: nat, k: nat, l: nat)
    requires IsPublicationIndex(blocks, ps) && j < |blocks| && IsNamed(v) && k < l < |ps|
    requires RecordMatches(ps[k], Own(j), v, before) && RecordMatches(ps[l], Own(j), v, before)
    ensures HasTwoProducers(blocks[j], v, before)
  {
    RecordIsProducer(blocks, ps, ps[k], j, v, before);
    RecordIsProducer(blocks, ps, ps[l], j, v, before);
    assert ps[k].producer < ps[l].producer;
  }

  lemma OneRecordOneProducer(blocks: seq<Block>, ps: seq<Publication>, j: nat, v: Value, before: nat, k: nat)
    requires IsPublicationIndex(blocks, ps) && j < |blocks| && IsNamed(v) && k < |ps| &&
             RecordMatches(ps[k], Own(j), v, before)
    requires forall l :: 0 <= l < |ps| && l != k ==> !RecordMatches(ps[l], Own(j), v, before)
    requires LastProducer(blocks[j], v, before) == Some(ps[k].producer)
    ensures IsOnlyProducer(blocks[j], v, before, ps[k].producer)
  {
    var b, i := blocks[j], ps[k].producer;
    forall m | 0 <= m < Limit(b, i)
      ensures !Produces(b, m, v)
    {
      if Produces(b, m, v) {
        ProducerIsRecord(blocks, ps, j, v, before, m);
        assert false;
      }
    }
  }
}
