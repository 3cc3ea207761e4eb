/**
 What every interning table promises: ids count up from one in order of first use, an id
 denotes the same key for ever, and the one invalid key always gets the invalid id. The
 tables of src/shared are proved against this list.
 */
module Interning {

  const INVALID_ID: nat := 0

  ghost predicate Distinct<T>(keys: seq<T>)
  {
    forall i, j :: 0 <= i < j < |keys| ==> keys[i] != keys[j]
  }

  predicate Denotes<T(==)>(keys: seq<T>, id: nat, key: T)
  {
    1 <= id <= |keys| && keys[id - 1] == key
  }

  /** The id of `key`, or the invalid id. */
  function IdOf<T(==)>(keys: seq<T>, key: T): (id: nat)
    ensures id == INVALID_ID <==> key !in keys
    ensures id != INVALID_ID ==> Denotes(keys, id, key)
  {
    if keys == [] then INVALID_ID
    else
      var last := |keys| - 1;
      assert keys == keys[..last] + [keys[last]];
      var earlier := IdOf(keys[..last], key);
      if earlier != INVALID_ID then earlier
      else if keys[last] == key then |keys|
      else INVALID_ID
  }

  /** The list after one intern call. */
  function Interned<T(==)>(keys: seq<T>, invalid: T, key: T): (after: seq<T>)
    ensures keys <= after
  {
    if key == invalid || key in keys then keys else keys + [key]
  }

  ghost predicate Names<T>(keys: seq<T>, invalid: T)
  {
    Distinct(keys) && invalid !in keys
  }

  lemma DenotesUnique<T>(keys: seq<T>, id: nat, id': nat, key: T)
    requires Distinct(keys) && Denotes(keys, id, key) && Denotes(keys, id', key)
    ensures id == id'
  {
    assert keys[id - 1] == keys[id' - 1];
  }

  lemma InternedNames<T>(keys: seq<T>, invalid: T, key: T)
    requires Names(keys, invalid)
    ensures Names(Interned(keys, invalid, key), invalid)
    ensures key in Interned(keys, invalid, key) <==> key != invalid
  {
    if key != invalid && key !in keys {
      assert Interned(keys, invalid, key)[|keys|] == key;
    }
  }

  /** A whole run of intern calls: the final list and the id each call returned. */
  function InternAll<T(==)>(keys: seq<T>, invalid: T, calls: seq<T>): (r: (seq<T>, seq<nat>))
    ensures |r.1| == |calls|
  {
    if calls == [] then (keys, [])
    else
      var last := |calls| - 1;
      var (before, ids) := InternAll(keys, invalid, calls[..last]);
      var after := Interned(before, invalid, calls[last]);
      (after, ids + [IdOf(after, calls[last])])
  }

  ghost predicate Replied<T>(keys: seq<T>, invalid: T, key: T, id: nat)
  {
    if key == invalid then id == INVALID_ID else Denotes(keys, id, key)
  }

  lemma InternAllStep<T>(keys: seq<T>, invalid: T, calls: seq<T>)
    requires calls != []
    ensures var last := |calls| - 1;
            var (before, ids) := InternAll(keys, invalid, calls[..last]);
            var after := Interned(before, invalid, calls[last]);
            InternAll(keys, invalid, calls) == (after, ids + [IdOf(after, calls[last])])
  {
    hide IdOf, Interned;
  }

  lemma LastReplied<T>(keys: seq<T>, invalid: T, key: T)
    requires Names(keys, invalid)
    ensures var after := Interned(keys, invalid, key);
            keys <= after && Names(after, invalid) && Replied(after, invalid, key, IdOf(after, key))
  {
    InternedNames(keys, invalid, key);
  }

  lemma RepliedGrows<T>(keys: seq<T>, after: seq<T>, invalid: T, key: T, id: nat)
    requires keys <= after && Replied(keys, invalid, key, id)
    ensures Replied(after, invalid, key, id)
  {
  }

  /** A run keeps the keys it starts with, and keeps them distinct and valid. */
  lemma {:induction false} InternRunNames<T>(keys: seq<T>, invalid: T, calls: seq<T>)
    requires Names(keys, invalid)
    ensures Names(InternAll(keys, invalid, calls).0, invalid) && keys <= InternAll(keys, invalid, calls).0
    decreases |calls|
  {
    hide IdOf, Interned, Names, InternAll;
    if calls == [] {
      NothingInterned(keys, invalid);
    } else {
      InternRunNames(keys, invalid, calls[..|calls| - 1]);
      InternAllStep(keys, invalid, calls);
      LastReplied(InternAll(keys, invalid, calls[..|calls| - 1]).0, invalid, calls[|calls| - 1]);
    }
  }

  lemma NothingInterned<T>(keys: seq<T>, invalid: T)
    ensures InternAll(keys, invalid, []) == (keys, [])
  {
  }

  /** Every id returned during a run still denotes its key at the end of the run. */
  lemma {:induction false} InternRunDenotes<T>(keys: seq<T>, invalid: T, calls: seq<T>, i: nat)
    requires Names(keys, invalid) && i < |calls|
    ensures Names(InternAll(keys, invalid, calls).0, invalid)
    ensures keys <= InternAll(keys, invalid, calls).0
    ensures Replied(InternAll(keys, invalid, calls).0, invalid, calls[i], InternAll(keys, invalid, calls).1[i])
    decreases |calls|
  {
    hide IdOf, Interned, Names, Replied;
    var last := |calls| - 1;
    var (before, ids) := InternAll(keys, invalid, calls[..last]);
    InternRunNames(keys, invalid, calls[..last]);
    InternRunNames(keys, invalid, calls);
    InternAllStep(keys, invalid, calls);
    LastReplied(before, invalid, calls[last]);
    if i < last {
      InternRunDenotes(keys, invalid, calls[..last], i);
      RepliedGrows(before, InternAll(keys, invalid, calls).0, invalid, calls[i], ids[i]);
    }
  }

  lemma RepliesInjective<T>(keys: seq<T>, invalid: T, key: T, id: nat, key': T, id': nat)
    requires Names(keys, invalid)
    requires Replied(keys, invalid, key, id) && Replied(keys, invalid, key', id')
    ensures id == id' <==> key == key'
  {
    if key == key' && key != invalid {
      DenotesUnique(keys, id, id', key);
    }
  }

  /** Over any run, two calls return the same id exactly when they passed the same key. */
  lemma InternRunIsBijection<T>(keys: seq<T>, invalid: T, calls: seq<T>, i: nat, j: nat)
    requires Names(keys, invalid) && i < |calls| && j < |calls|
    ensures InternAll(keys, invalid, calls).1[i] == InternAll(keys, invalid, calls).1[j] <==> calls[i] == calls[j]
  {
    InternRunDenotes(keys, invalid, calls, i);
    InternRunDenotes(keys, invalid, calls, j);
    var (after, ids) := InternAll(keys, invalid, calls);
    RepliesInjective(after, invalid, calls[i], ids[i], calls[j], ids[j]);
  }
}
