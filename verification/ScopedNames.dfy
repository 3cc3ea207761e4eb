/**
 The two clients of the sequence map: the qualifier-path interner of
 src/shared/qualified_name_table.hpp and the lexical scope stack of
 src/shared/local_name_table.hpp.
 */
module ScopedNames {
  import opened Machine
  import opened Interning
  import opened SequenceMaps

  const INVALID_TEXT: U32 := 0

  // --------------------------------------------------------- NamePathTable

  /** The path an id denotes; unknown ids denote the empty path. */
  function PathOf(keys: seq<Key>, id: nat): Key
  {
    if 1 <= id <= |keys| then keys[id - 1] else []
  }

  /** The map binds each path to its id and nothing else. */
  ghost predicate Indexes(m: map<Key, nat>, keys: seq<Key>)
  {
    && (forall i :: 0 <= i < |keys| ==> keys[i] in m && m[keys[i]] == i + 1)
    && (forall k :: k in m ==> k in keys)
  }

  lemma IndexesAppend(m: map<Key, nat>, keys: seq<Key>, key: Key)
    requires Indexes(m, keys) && key !in keys
    ensures Indexes(m[key := |keys| + 1], keys + [key])
  {
  }

  class NamePathTable {
    const paths: SequenceMap<nat>
    var keysById: seq<Key>

    ghost predicate Valid()
      reads this, paths
    {
      && paths.Valid() && |paths.entries| == |keysById|
      && Names(keysById, [])
      && Indexes(paths.Contents(), keysById)
    }

    constructor (hash: Key -> nat)
      ensures Valid() && keysById == [] && fresh(paths)
    {
      paths := new SequenceMap(hash);
      keysById := [];
    }

    method Find(segments: Key) returns (id: nat)
      requires Valid()
      ensures id == IdOf(keysById, segments)
    {
      var found := paths.Find(segments);
      if found.None? {
        return INVALID_ID;
      }
      DenotesUnique(keysById, found.value, IdOf(keysById, segments), segments);
      return found.value;
    }

    method Intern(segments: Key) returns (id: nat)
      requires Valid() && |keysById| + 1 < MAX_ENTRIES
      modifies this, paths
      ensures Valid()
      ensures keysById == Interned(old(keysById), [], segments)
      ensures id == IdOf(keysById, segments) && PathOf(keysById, id) == segments
    {
      if segments == [] {
        return INVALID_ID;
      }
      var found := Find(segments);
      if found != INVALID_ID {
        return found;
      }
      id := |keysById| + 1;
      IndexesAppend(paths.Contents(), keysById, segments);
      InternedNames(keysById, [], segments);
      var _, added := paths.Insert(segments, id);
      if added {
        keysById := keysById + [segments];
      }
      DenotesUnique(keysById, id, IdOf(keysById, segments), segments);
    }

    /** Any run of calls returns the ids, and leaves the paths, of the same run on a plain list. */
    method InternRun(calls: seq<Key>) returns (ids: seq<nat>)
      requires Valid() && |keysById| + |calls| < MAX_ENTRIES
      modifies this, paths
      ensures Valid() && (keysById, ids) == InternAll(old(keysById), [], calls)
    {
      hide FullyLinked, DistinctKeys, ContentsOf, Indexes, Names;
      ids := [];
      for k := 0 to |calls|
        invariant Valid() && |keysById| <= old(|keysById|) + k
        invariant (keysById, ids) == InternAll(old(keysById), [], calls[..k])
      {
        assert calls[..k + 1][..k] == calls[..k];
        var id := Intern(calls[k]);
        ids := ids + [id];
      }
      assert calls[..|calls|] == calls;
    }

    function Lookup(id: nat): (path: Key)
      reads this
      ensures path == PathOf(keysById, id)
    {
      if id == INVALID_ID || id > |keysById| then [] else keysById[id - 1]
    }

    /** Appending a segment names the prefix path with that segment at its end. */
    method Append(prefixId: nat, segment: U32) returns (id: nat)
      requires Valid() && |keysById| + 1 < MAX_ENTRIES
      modifies this, paths
      ensures Valid() && old(keysById) <= keysById
      ensures segment == INVALID_TEXT ==> id == prefixId && keysById == old(keysById)
      ensures segment != INVALID_TEXT ==>
                var path := PathOf(old(keysById), prefixId) + [segment];
                && keysById == Interned(old(keysById), [], path)
                && id == IdOf(keysById, path) && PathOf(keysById, id) == path
    {
      hide FullyLinked, DistinctKeys, ContentsOf, Indexes, Names, IdOf;
      if segment == INVALID_TEXT {
        return prefixId;
      }
      if prefixId == INVALID_ID {
        assert PathOf(keysById, prefixId) + [segment] == [segment];
        id := Intern([segment]);
        return;
      }
      var combined := Combine(Lookup(prefixId), segment);
      id := Intern(combined);
    }
  }

  method Combine(prefix: Key, segment: U32) returns (combined: Key)
    ensures combined == prefix + [segment]
  {
    combined := [];
    var i := 0;
    while i < |prefix|
      invariant 0 <= i <= |prefix| && combined == prefix[..i]
    {
      combined := combined + [prefix[i]];
      i := i + 1;
    }
    combined := combined + [segment];
  }

  // -------------------------------------------------------- LocalNameTable

  /** The value bound by the innermost scope that binds `key`. */
  function Visible<V>(scopes: seq<map<Key, V>>, key: Key): Option<V>
  {
    if scopes == [] then None
    else
      var top := scopes[|scopes| - 1];
      if key in top then Some(top[key]) else Visible(scopes[..|scopes| - 1], key)
  }

  lemma VisibleStep<V>(scopes: seq<map<Key, V>>, key: Key, i: nat)
    requires 0 < i <= |scopes|
    ensures Visible(scopes[..i], key) ==
            if key in scopes[i - 1] then Some(scopes[i - 1][key]) else Visible(scopes[..i - 1], key)
  {
    assert scopes[..i][..i - 1] == scopes[..i - 1];
  }

  /** The innermost scope that binds a key is the one whose value is visible. */
  lemma {:induction false} VisibleAtInnermost<V>(scopes: seq<map<Key, V>>, key: Key, index: nat)
    requires index <= |scopes|
    requires index < |scopes| ==> key in scopes[index]
    requires forall i :: 0 <= i < |scopes| && (index == |scopes| || index < i) ==> key !in scopes[i]
    ensures Visible(scopes, key) == if index < |scopes| then Some(scopes[index][key]) else None
    decreases |scopes|
  {
    if scopes != [] && index != |scopes| - 1 {
      VisibleAtInnermost(scopes[..|scopes| - 1], key, if index == |scopes| then index - 1 else index);
    }
  }

  function Innermost<V>(scopes: seq<map<Key, V>>): map<Key, V>
  {
    if scopes == [] then map[] else scopes[|scopes| - 1]
  }

  datatype ScopeOp<+V> = Push | Pop | Bind(key: Key, value: V) | EraseCurrent(key: Key)

  /** Binding never overwrites, and binding with no scope open opens one. */
  function Step<V>(scopes: seq<map<Key, V>>, op: ScopeOp<V>): seq<map<Key, V>>
  {
    match op
    case Push => scopes + [map[]]
    case Pop => if scopes == [] then [] else scopes[..|scopes| - 1]
    case Bind(key, value) =>
      var open := if scopes == [] then [map[]] else scopes;
      var top := |open| - 1;
      open[top := Apply(open[top], InsertOp(key, value)).0]
    case EraseCurrent(key) =>
      if scopes == [] then []
      else scopes[|scopes| - 1 := scopes[|scopes| - 1] - {key}]
  }

  function Steps<V>(scopes: seq<map<Key, V>>, ops: seq<ScopeOp<V>>): seq<map<Key, V>>
  {
    if ops == [] then scopes else Step(Steps(scopes, ops[..|ops| - 1]), ops[|ops| - 1])
  }

  /** How many scopes `ops` leave open above the scope they started in, if they never close it. */
  function OpenAfter<V>(ops: seq<ScopeOp<V>>): Option<nat>
  {
    if ops == [] then Some(0)
    else
      match OpenAfter(ops[..|ops| - 1])
      case None => None
      case Some(depth) =>
        match ops[|ops| - 1]
        case Push => Some(depth + 1)
        case Pop => if depth == 0 then None else Some(depth - 1)
        case _ => Some(depth)
  }

  /** Operations that never close their starting scope leave all scopes below it alone. */
  lemma {:induction false} InnerOpsFrame<V>(outer: seq<map<Key, V>>, inner: map<Key, V>, ops: seq<ScopeOp<V>>)
    requires OpenAfter(ops).Some?
    ensures |Steps(outer + [inner], ops)| == |outer| + 1 + OpenAfter(ops).value
    ensures outer <= Steps(outer + [inner], ops)
  {
    if ops != [] {
      InnerOpsFrame(outer, inner, ops[..|ops| - 1]);
      var before := Steps(outer + [inner], ops[..|ops| - 1]);
      var after := Step(before, ops[|ops| - 1]);
      assert forall i :: 0 <= i < |outer| ==> after[i] == before[i];
    }
  }

  /** A well-bracketed push ... pop restores the whole stack, so no outer lookup can change. */
  lemma BracketRestores<V>(outer: seq<map<Key, V>>, ops: seq<ScopeOp<V>>)
    requires OpenAfter(ops) == Some(0)
    ensures Steps(outer, [Push] + ops + [Pop]) == outer
  {
    StepsAppend(outer, [Push], ops);
    StepsAppend(outer, [Push] + ops, [Pop]);
    assert Steps(outer, [Push]) == Step(Steps(outer, []), Push);
    InnerOpsFrame(outer, map[], ops);
    var inside := Steps(outer + [map[]], ops);
    assert Steps(inside, [Pop]) == Step(Steps(inside, []), Pop);
    assert inside[..|inside| - 1] == outer;
  }

  lemma {:induction false} StepsAppend<V>(scopes: seq<map<Key, V>>, first: seq<ScopeOp<V>>, second: seq<ScopeOp<V>>)
    ensures Steps(scopes, first + second) == Steps(Steps(scopes, first), second)
  {
    if second == [] {
      assert first + second == first;
    } else {
      StepsAppend(scopes, first, second[..|second| - 1]);
      assert (first + second)[..|first + second| - 1] == first + second[..|second| - 1];
    }
  }

  class LocalNameTable<V> {
    const hash: Key -> nat
    var scopes: seq<SequenceMap<V>>
    ghost var stack: seq<map<Key, V>>

    /** `stack` lists the bindings of each open scope, outermost first. */
    ghost predicate Valid()
      reads this, scopes
    {
      && |stack| == |scopes|
      && (forall i :: 0 <= i < |scopes| ==> scopes[i].Valid() && scopes[i].Contents() == stack[i])
      && (forall i, j :: 0 <= i < j < |scopes| ==> scopes[i] != scopes[j])
    }

    /** Every open scope holds fewer than `n` entries. */
    ghost predicate Below(n: nat)
      reads this, scopes
    {
      forall i :: 0 <= i < |scopes| ==> |scopes[i].entries| < n
    }

    constructor (hash: Key -> nat)
      ensures Valid() && stack == [] && scopes == []
    {
      this.hash := hash;
      scopes, stack := [], [];
    }

    method PushScope()
      requires Valid()
      modifies this
      ensures Valid() && stack == Step(old(stack), Push)
      ensures |scopes| == |old(scopes)| + 1 && scopes[..|old(scopes)|] == old(scopes)
      ensures fresh(scopes[|old(scopes)|]) && scopes[|old(scopes)|].entries == []
    {
      var scope := new SequenceMap(hash);
      scopes, stack := scopes + [scope], stack + [map[]];
    }

    method PopScope() returns (popped: bool)
      requires Valid()
      modifies this
      ensures Valid() && popped == (old(scopes) != [])
      ensures stack == Step(old(stack), Pop)
      ensures scopes == if old(scopes) == [] then [] else old(scopes)[..|old(scopes)| - 1]
    {
      if scopes == [] {
        return false;
      }
      scopes, stack := scopes[..|scopes| - 1], stack[..|stack| - 1];
      return true;
    }

    method BindInCurrentScope(key: Key, value: V) returns (added: bool)
      requires Valid() && (scopes != [] ==> |scopes[|scopes| - 1].entries| + 1 < MAX_ENTRIES)
      modifies this, scopes
      ensures Valid() && stack == Step(old(stack), Bind(key, value))
      ensures Inserted(added) == Apply(Innermost(old(stack)), InsertOp(key, value)).1
      ensures old(scopes) != [] ==> scopes == old(scopes)
      ensures old(scopes) == [] ==> |scopes| == 1 && fresh(scopes[0])
      ensures forall n: nat :: n > 0 && old(Below(n)) ==> Below(n + 1)
    {
      hide FullyLinked, DistinctKeys, ContentsOf;
      if scopes == [] {
        PushScope();
      }
      assert forall n: nat :: n > 0 && old(Below(n)) ==> Below(n);
      added := InsertAt(|scopes| - 1, key, value);
    }

    method InsertAt(top: nat, key: Key, value: V) returns (added: bool)
      requires Valid() && top < |scopes| && |scopes[top].entries| + 1 < MAX_ENTRIES
      modifies this`stack, scopes
      ensures Valid() && stack == old(stack)[top := Apply(old(stack)[top], InsertOp(key, value)).0]
      ensures Inserted(added) == Apply(old(stack)[top], InsertOp(key, value)).1
      ensures scopes == old(scopes)
      ensures forall n: nat :: old(Below(n)) ==> Below(n + 1)
    {
      hide FullyLinked, DistinctKeys, ContentsOf;
      var _, inserted := scopes[top].Insert(key, value);
      stack := stack[top := scopes[top].Contents()];
      return inserted;
    }

    method EraseInCurrentScope(key: Key) returns (existed: bool)
      requires Valid()
      modifies this`stack, scopes
      ensures Valid() && stack == Step(old(stack), EraseCurrent(key))
      ensures existed == (old(stack) != [] && key in old(stack)[|old(stack)| - 1])
      ensures scopes == old(scopes)
      ensures forall n: nat :: old(Below(n)) ==> Below(n)
    {
      hide FullyLinked, DistinctKeys, ContentsOf;
      if scopes == [] {
        return false;
      }
      var top := |scopes| - 1;
      existed := scopes[top].Erase(key);
      stack := stack[top := scopes[top].Contents()];
    }

    /** `find_nearest_visible`: scan from the innermost scope outwards. */
    method FindNearestVisible(key: Key) returns (r: Option<V>)
      requires Valid()
      ensures r == Visible(stack, key)
    {
      hide FullyLinked, DistinctKeys, ContentsOf;
      var i := |scopes|;
      assert stack[..i] == stack && stack[..0] == [];
      while i > 0
        invariant 0 <= i <= |stack|
        invariant Visible(stack, key) == Visible(stack[..i], key)
      {
        VisibleStep(stack, key, i);
        r := scopes[i - 1].Find(key);
        if r.Some? {
          return;
        }
        i := i - 1;
      }
      return None;
    }

    /** `find_nearest_visible_scope_index`: the last scope that binds the key. */
    method FindNearestVisibleScopeIndex(key: Key) returns (index: nat)
      requires Valid()
      ensures index <= |stack|
      ensures index < |stack| ==> key in stack[index]
      ensures forall i :: 0 <= i < |stack| && (index == |stack| || index < i) ==> key !in stack[i]
    {
      hide FullyLinked, DistinctKeys, ContentsOf;
      var i := |scopes|;
      while i > 0
        invariant 0 <= i <= |stack|
        invariant forall j :: i <= j < |stack| ==> key !in stack[j]
      {
        var found := scopes[i - 1].Find(key);
        if found.Some? {
          return i - 1;
        }
        i := i - 1;
      }
      return |scopes|;
    }

    /** One call, with the stack it leaves. */
    method Do(op: ScopeOp<V>)
      requires Valid() && Below(MAX_ENTRIES - 1)
      modifies this, scopes
      ensures Valid() && stack == Step(old(stack), op)
      ensures forall i :: 0 <= i < |scopes| ==> scopes[i] in old(scopes) || fresh(scopes[i])
      ensures forall n: nat :: n > 0 && old(Below(n)) ==> Below(n + 1)
    {
      hide FullyLinked, DistinctKeys, ContentsOf;
      match op
      case Push => PushScope();
      case Pop => var _ := PopScope();
      case Bind(key, value) => var _ := BindInCurrentScope(key, value);
      case EraseCurrent(key) => var _ := EraseInCurrentScope(key);
    }

    /** Any run of calls leaves the stack of the same run on plain maps. */
    method Run(ops: seq<ScopeOp<V>>)
      requires Valid() && |ops| < MAX_ENTRIES && Below(MAX_ENTRIES - |ops|)
      modifies this, scopes
      ensures Valid() && stack == Steps(old(stack), ops)
      ensures forall i :: 0 <= i < |scopes| ==> scopes[i] in old(scopes) || fresh(scopes[i])
      ensures forall n: nat :: n > 0 && old(Below(n)) ==> Below(n + |ops|)
    {
      hide FullyLinked, DistinctKeys, ContentsOf;
      for k := 0 to |ops|
        invariant Valid() && forall n: nat :: n > 0 && old(Below(n)) ==> Below(n + k)
        invariant stack == Steps(old(stack), ops[..k])
        invariant forall i :: 0 <= i < |scopes| ==> scopes[i] in old(scopes) || fresh(scopes[i])
      {
        assert ops[..k + 1][..k] == ops[..k];
        Do(ops[k]);
      }
      assert ops[..|ops|] == ops;
    }

    /** Whatever a block binds or erases between its braces, every lookup after it is the lookup before it. */
    method LookupAroundBlock(ops: seq<ScopeOp<V>>, key: Key) returns (before: Option<V>, after: Option<V>)
      requires Valid() && OpenAfter(ops) == Some(0)
      requires |ops| + 2 < MAX_ENTRIES && Below(MAX_ENTRIES - |ops| - 2)
      modifies this, scopes
      ensures Valid() && stack == old(stack)
      ensures before == after == Visible(old(stack), key)
      ensures forall i :: 0 <= i < |scopes| ==> scopes[i] in old(scopes) || fresh(scopes[i])
      ensures forall n: nat :: n > 0 && old(Below(n)) ==> Below(n + |ops| + 2)
    {
      hide FullyLinked, DistinctKeys, ContentsOf, Visible, Steps, Below;
      before := FindNearestVisible(key);
      var block := [Push] + ops + [Pop];
      assert |block| == |ops| + 2;
      BracketRestores(stack, ops);
      Run(block);
      forall n: nat | n > 0 && old(Below(n))
        ensures Below(n + |ops| + 2)
      {
        assert Below(n + |block|);
      }
      after := FindNearestVisible(key);
    }
  }
}
