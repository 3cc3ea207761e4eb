/**
 The string and semantic-name tables of src/shared/text_id_table.hpp and the copyable
 bundle of them in src/backend/bir/bir.hpp.
 */
module NameTables {
  import opened Machine
  import opened Interning

  /** Ids are 32-bit; a table may hold this many keys before the cast wraps. */
  const MAX_IDS: nat := 0xffff_ffff

  // ------------------------------------------------------------ byte pool

  datatype Slice = Slice(offset: nat, len: nat)

  function End(s: Slice): nat
  {
    s.offset + s.len + 1
  }

  /** The slices tile the pool in order, each followed by one NUL. */
  ghost predicate Tiled(bytes: string, slices: seq<Slice>)
  {
    && |bytes| == (if slices == [] then 0 else End(slices[|slices| - 1]))
    && (forall i :: 0 <= i < |slices| ==> End(slices[i]) <= |bytes| && bytes[slices[i].offset + slices[i].len] == '\0')
    && (forall i {:trigger StartAfter(slices, i)} :: 0 <= i < |slices| ==> slices[i].offset == StartAfter(slices, i))
  }

  function StartAfter(slices: seq<Slice>, i: nat): nat
    requires i <= |slices|
  {
    if i == 0 then 0 else End(slices[i - 1])
  }

  function SliceText(bytes: string, s: Slice): string
    requires End(s) <= |bytes|
  {
    bytes[s.offset..s.offset + s.len]
  }

  ghost function TextsOf(bytes: string, slices: seq<Slice>): (r: seq<string>)
    requires Tiled(bytes, slices)
    ensures |r| == |slices|
    ensures forall i :: 0 <= i < |slices| ==> r[i] == SliceText(bytes, slices[i])
  {
    seq(|slices|, i requires 0 <= i < |slices| => SliceText(bytes, slices[i]))
  }

  /** Two stored spellings never share a byte, not even a terminator. */
  lemma {:induction false} SlicesDisjoint(bytes: string, slices: seq<Slice>, i: nat, j: nat)
    requires Tiled(bytes, slices) && i < j < |slices|
    ensures End(slices[i]) <= slices[j].offset
    decreases j
  {
    assert slices[j].offset == StartAfter(slices, j);
    if i < j - 1 {
      SlicesDisjoint(bytes, slices, i, j - 1);
    }
  }

  lemma TiledAppend(bytes: string, slices: seq<Slice>, text: string)
    requires Tiled(bytes, slices)
    ensures Tiled(bytes + text + ['\0'], slices + [Slice(|bytes|, |text|)])
  {
    var slices' := slices + [Slice(|bytes|, |text|)];
    forall i | 0 <= i < |slices'|
      ensures slices'[i].offset == StartAfter(slices', i)
    {
      if i < |slices| {
        assert slices[i].offset == StartAfter(slices, i);
      }
    }
  }

  lemma TextsAppend(bytes: string, slices: seq<Slice>, text: string)
    requires Tiled(bytes, slices)
    requires Tiled(bytes + text + ['\0'], slices + [Slice(|bytes|, |text|)])
    ensures TextsOf(bytes + text + ['\0'], slices + [Slice(|bytes|, |text|)]) == TextsOf(bytes, slices) + [text]
  {
    var bytes' := bytes + text + ['\0'];
    forall i | 0 <= i < |slices|
      ensures SliceText(bytes', slices[i]) == SliceText(bytes, slices[i])
    {
    }
    assert SliceText(bytes', Slice(|bytes|, |text|)) == text;
  }

  /** What a C reader sees from `from`: the bytes before the next NUL. */
  function CString(bytes: string, from: nat): string
    requires from <= |bytes|
    decreases |bytes| - from
  {
    if from == |bytes| || bytes[from] == '\0' then "" else [bytes[from]] + CString(bytes, from + 1)
  }

  lemma SliceHead(bytes: string, from: nat, end: nat)
    requires from < end <= |bytes|
    ensures bytes[from..end] == [bytes[from]] + bytes[from + 1..end]
  {
  }

  lemma {:induction false} CStringStopsAtNul(bytes: string, from: nat, len: nat)
    requires from + len < |bytes| && bytes[from + len] == '\0'
    ensures CString(bytes, from) == bytes[from..from + len] <==> '\0' !in bytes[from..from + len]
    ensures CString(bytes, from) <= bytes[from..from + len]
    decreases len
  {
    if len > 0 {
      CStringStopsAtNul(bytes, from + 1, len - 1);
      SliceHead(bytes, from, from + len);
    }
  }

  // --------------------------------------------------------- StringIdTable

  /** Every id is listed in the bucket of its spelling, and buckets list only ids. */
  ghost predicate Bucketed(hash: string -> nat, texts: seq<string>, idsByHash: map<nat, seq<nat>>)
  {
    && (forall i :: 0 <= i < |texts| ==> hash(texts[i]) in idsByHash && i + 1 in idsByHash[hash(texts[i])])
    && (forall h, k :: h in idsByHash && 0 <= k < |idsByHash[h]| ==> 1 <= idsByHash[h][k] <= |texts|)
  }

  function BucketIds(idsByHash: map<nat, seq<nat>>, h: nat): seq<nat>
  {
    if h in idsByHash then idsByHash[h] else []
  }

  lemma BucketedAppend(hash: string -> nat, texts: seq<string>, idsByHash: map<nat, seq<nat>>, text: string)
    requires Bucketed(hash, texts, idsByHash)
    ensures var h := hash(text);
            Bucketed(hash, texts + [text], idsByHash[h := BucketIds(idsByHash, h) + [|texts| + 1]])
  {
    var h := hash(text);
    var bucket := BucketIds(idsByHash, h) + [|texts| + 1];
    var idsByHash' := idsByHash[h := bucket];
    var texts' := texts + [text];
    forall i | 0 <= i < |texts'|
      ensures hash(texts'[i]) in idsByHash' && i + 1 in idsByHash'[hash(texts'[i])]
    {
      if i == |texts| {
        assert bucket[|bucket| - 1] == i + 1;
      } else {
        assert i + 1 in idsByHash[hash(texts[i])];
      }
    }
  }

  class StringIdTable {
    const hash: string -> nat
    var bytes: string
    var slices: seq<Slice>
    var idsByHash: map<nat, seq<nat>>

    ghost predicate Valid()
      reads this
    {
      && Tiled(bytes, slices)
      && Names(TextsOf(bytes, slices), "")
      && Bucketed(hash, TextsOf(bytes, slices), idsByHash)
    }

    /** The spellings, in id order. */
    ghost function Texts(): (r: seq<string>)
      requires Valid()
      reads this
      ensures |r| == |slices|
    {
      TextsOf(bytes, slices)
    }

    constructor (hash: string -> nat)
      ensures Valid() && Texts() == [] && this.hash == hash
    {
      this.hash := hash;
      bytes, slices, idsByHash := "", [], map[];
    }

    /** Member-wise copy. */
    constructor Copy(other: StringIdTable)
      requires other.Valid()
      ensures Valid() && Texts() == other.Texts() && hash == other.hash
    {
      hash := other.hash;
      bytes, slices, idsByHash := other.bytes, other.slices, other.idsByHash;
    }

    method CopyFrom(other: StringIdTable)
      requires other.Valid() && hash == other.hash
      modifies this
      ensures Valid() && Texts() == old(other.Texts())
    {
      bytes, slices, idsByHash := other.bytes, other.slices, other.idsByHash;
    }

    function Lookup(id: nat): (r: string)
      requires Tiled(bytes, slices)
      reads this
      ensures r == if 1 <= id <= |slices| then TextsOf(bytes, slices)[id - 1] else ""
    {
      if id == INVALID_ID || id > |slices| then "" else SliceText(bytes, slices[id - 1])
    }

    method Find(text: string) returns (id: nat)
      requires Valid()
      ensures id == IdOf(Texts(), text)
    {
      if text == "" {
        return INVALID_ID;
      }
      var bucket := BucketIds(idsByHash, hash(text));
      id := FindInBucket(bucket, text);
      if id == INVALID_ID {
        BucketComplete(text);
      } else {
        DenotesUnique(Texts(), id, IdOf(Texts(), text), text);
      }
    }

    method FindInBucket(bucket: seq<nat>, text: string) returns (id: nat)
      requires Tiled(bytes, slices) && text != ""
      ensures id != INVALID_ID ==> Denotes(TextsOf(bytes, slices), id, text)
      ensures id == INVALID_ID ==>
                forall j :: 0 <= j < |bucket| ==> !Denotes(TextsOf(bytes, slices), bucket[j], text)
    {
      hide Tiled, SliceText;
      ghost var texts := TextsOf(bytes, slices);
      var k := 0;
      while k < |bucket|
        invariant 0 <= k <= |bucket|
        invariant forall j :: 0 <= j < k ==> !Denotes(texts, bucket[j], text)
      {
        if Lookup(bucket[k]) == text {
          return bucket[k];
        }
        k := k + 1;
      }
      return INVALID_ID;
    }

    /** A stored spelling is found in its own bucket. */
    lemma BucketComplete(text: string)
      requires Valid()
      requires var bucket := BucketIds(idsByHash, hash(text));
               forall j :: 0 <= j < |bucket| ==> !Denotes(Texts(), bucket[j], text)
      ensures text !in Texts()
    {
      var bucket := BucketIds(idsByHash, hash(text));
      forall i | 0 <= i < |Texts()|
        ensures Texts()[i] != text
      {
        assert Denotes(Texts(), i + 1, Texts()[i]);
      }
    }

    method Intern(text: string) returns (id: nat)
      requires Valid() && |slices| < MAX_IDS
      modifies this
      ensures Valid()
      ensures Texts() == Interned(old(Texts()), "", text)
      ensures id == IdOf(Texts(), text)
      ensures |slices| <= old(|slices|) + 1
    {
      if text == "" {
        return INVALID_ID;
      }
      var existing := Find(text);
      if existing != INVALID_ID {
        return existing;
      }
      TiledAppend(bytes, slices, text);
      TextsAppend(bytes, slices, text);
      BucketedAppend(hash, Texts(), idsByHash, text);
      InternedNames(Texts(), "", text);
      var offset := |bytes|;
      bytes := bytes + text + ['\0'];
      slices := slices + [Slice(offset, |text|)];
      id := |slices|;
      idsByHash := idsByHash[hash(text) := BucketIds(idsByHash, hash(text)) + [id]];
      DenotesUnique(Texts(), id, IdOf(Texts(), text), text);
    }

    /** Any run of calls returns the ids, and leaves the spellings, of the same run on a plain list. */
    method InternRun(calls: seq<string>) returns (ids: seq<nat>)
      requires Valid() && |slices| + |calls| <= MAX_IDS
      modifies this
      ensures Valid() && (Texts(), ids) == InternAll(old(Texts()), "", calls)
    {
      hide Tiled, Bucketed, Names, TextsOf, IdOf;
      ids := [];
      for k := 0 to |calls|
        invariant Valid() && |slices| <= old(|slices|) + k
        invariant (Texts(), ids) == InternAll(old(Texts()), "", calls[..k])
      {
        assert calls[..k + 1][..k] == calls[..k];
        var id := Intern(calls[k]);
        ids := ids + [id];
      }
      assert calls[..|calls|] == calls;
    }

    /** `c_str` reads back the spelling exactly when the spelling holds no NUL. */
    lemma CStrReadsSpelling(id: nat)
      requires Valid() && 1 <= id <= |slices|
      ensures CString(bytes, slices[id - 1].offset) == Lookup(id) <==> '\0' !in Lookup(id)
    {
      var s := slices[id - 1];
      CStringStopsAtNul(bytes, s.offset, s.len);
    }
  }

  // ------------------------------------------------------------ KeyIdTable

  /** A stable-id table over any key type; `zero` is the default key, which is never stored. */
  class KeyIdTable<K(==)> {
    const zero: K
    var keyById: seq<K>
    var idByKey: map<K, nat>

    ghost predicate Valid()
      reads this
    {
      && Names(keyById, zero)
      && (forall i :: 0 <= i < |keyById| ==> keyById[i] in idByKey && idByKey[keyById[i]] == i + 1)
      && (forall k :: k in idByKey ==> k in keyById)
    }

    constructor (zero: K)
      ensures Valid() && keyById == [] && this.zero == zero
    {
      this.zero := zero;
      keyById, idByKey := [], map[];
    }

    constructor Copy(other: KeyIdTable<K>)
      requires other.Valid()
      ensures Valid() && keyById == other.keyById && zero == other.zero
    {
      zero := other.zero;
      keyById, idByKey := other.keyById, other.idByKey;
    }

    method CopyFrom(other: KeyIdTable<K>)
      requires other.Valid() && zero == other.zero
      modifies this
      ensures Valid() && keyById == old(other.keyById)
    {
      keyById, idByKey := other.keyById, other.idByKey;
    }

    method Find(key: K) returns (id: nat)
      requires Valid()
      ensures id == IdOf(keyById, key)
    {
      if key == zero || key !in idByKey {
        return INVALID_ID;
      }
      DenotesUnique(keyById, IdOf(keyById, key), idByKey[key], key);
      return idByKey[key];
    }

    method Intern(key: K) returns (id: nat)
      requires Valid() && |keyById| < MAX_IDS
      modifies this
      ensures Valid()
      ensures keyById == Interned(old(keyById), zero, key)
      ensures id == IdOf(keyById, key)
    {
      var existing := Find(key);
      if existing != INVALID_ID {
        return existing;
      }
      if key == zero {
        return INVALID_ID;
      }
      InternedNames(keyById, zero, key);
      keyById := keyById + [key];
      id := |keyById|;
      idByKey := idByKey[key := id];
      DenotesUnique(keyById, IdOf(keyById, key), id, key);
    }

    /** Any run of calls returns the ids, and leaves the keys, of the same run on a plain list. */
    method InternRun(calls: seq<K>) returns (ids: seq<nat>)
      requires Valid() && |keyById| + |calls| <= MAX_IDS
      modifies this
      ensures Valid() && (keyById, ids) == InternAll(old(keyById), zero, calls)
    {
      hide Names, IdOf;
      ids := [];
      for k := 0 to |calls|
        invariant Valid() && |keyById| <= old(|keyById|) + k
        invariant (keyById, ids) == InternAll(old(keyById), zero, calls[..k])
      {
        assert calls[..k + 1][..k] == calls[..k];
        var id := Intern(calls[k]);
        ids := ids + [id];
      }
      assert calls[..|calls|] == calls;
    }

    function Lookup(id: nat): (r: Option<K>)
      reads this
      ensures r.Some? <==> 1 <= id <= |keyById|
      ensures r.Some? ==> Denotes(keyById, id, r.value)
    {
      if id == INVALID_ID || id > |keyById| then None else Some(keyById[id - 1])
    }
  }

  // ----------------------------------------------------- SemanticNameTable

  /** The spelling of a semantic id: look the text id up, then its text. */
  function SpellingIn(keys: seq<nat>, texts: seq<string>, id: nat): string
  {
    if 1 <= id <= |keys| && 1 <= keys[id - 1] <= |texts| then texts[keys[id - 1] - 1] else ""
  }

  /** No id that has a spelling changes it. */
  ghost predicate SpellingsKept(keys: seq<nat>, texts: seq<string>, keys': seq<nat>, texts': seq<string>)
  {
    forall id :: SpellingIn(keys, texts, id) != "" ==>
      SpellingIn(keys', texts', id) == SpellingIn(keys, texts, id)
  }

  lemma GrowthKeepsSpellings(keys: seq<nat>, texts: seq<string>, keys': seq<nat>, texts': seq<string>)
    requires keys <= keys' && texts <= texts'
    ensures SpellingsKept(keys, texts, keys', texts')
  {
  }

  /** Interning a spelling through a text table and then an id table gives that spelling back. */
  lemma InternedSpelling(keys: seq<nat>, texts: seq<string>, name: string)
    requires name != "" && name in texts
    ensures var textId := IdOf(texts, name);
            var keys' := Interned(keys, INVALID_ID, textId);
            SpellingIn(keys', texts, IdOf(keys', textId)) == name
  {
    var textId := IdOf(texts, name);
    var keys' := Interned(keys, INVALID_ID, textId);
    if textId !in keys {
      assert keys'[|keys|] == textId;
    }
  }

  class SemanticNameTable {
    var texts: StringIdTable?
    const ids: KeyIdTable<nat>

    ghost predicate Valid()
      reads this, ids, texts
    {
      && ids.Valid() && ids.zero == INVALID_ID
      && (texts != null ==> texts.Valid())
    }

    constructor (texts: StringIdTable?)
      requires texts != null ==> texts.Valid()
      ensures Valid() && this.texts == texts && ids.keyById == [] && fresh(ids)
    {
      this.texts := texts;
      ids := new KeyIdTable(INVALID_ID);
    }

    constructor Copy(other: SemanticNameTable)
      requires other.Valid()
      ensures Valid() && texts == other.texts && ids.keyById == other.ids.keyById && fresh(ids)
    {
      texts := other.texts;
      ids := new KeyIdTable.Copy(other.ids);
    }

    method AttachTextTable(t: StringIdTable?)
      requires ids.Valid() && ids.zero == INVALID_ID
      requires t != null ==> t.Valid()
      modifies this
      ensures Valid() && texts == t
    {
      texts := t;
    }

    function Spelling(id: nat): string
      requires Valid()
      reads this, ids, texts
    {
      if texts == null then ""
      else
        match ids.Lookup(id)
        case None => ""
        case Some(textId) => texts.Lookup(textId)
    }

    /** The text of the text id that the id stands for. */
    lemma SpellingExact(id: nat)
      requires Valid() && texts != null
      ensures Spelling(id) == SpellingIn(ids.keyById, texts.Texts(), id)
    {
      hide Tiled, Bucketed, Names, SliceText, TextsOf;
    }

    method Find(name: string) returns (id: nat)
      requires Valid()
      ensures texts != null ==> id == IdOf(ids.keyById, IdOf(texts.Texts(), name))
      ensures texts == null ==> id == INVALID_ID
    {
      if texts == null || name == "" {
        return INVALID_ID;
      }
      var textId := texts.Find(name);
      if textId == INVALID_ID {
        return INVALID_ID;
      }
      id := ids.Find(textId);
    }

    /** Interning by spelling grows the shared text table and this table's id list. */
    method Intern(name: string) returns (id: nat)
      requires Valid()
      requires texts != null ==> |texts.slices| < MAX_IDS && |ids.keyById| < MAX_IDS
      modifies texts, ids
      ensures Valid()
      ensures old(texts) == null ==> id == INVALID_ID && ids.keyById == old(ids.keyById)
      ensures old(texts) != null ==>
                && texts.Texts() == Interned(old(texts.Texts()), "", name)
                && ids.keyById == Interned(old(ids.keyById), INVALID_ID, IdOf(texts.Texts(), name))
                && id == IdOf(ids.keyById, IdOf(texts.Texts(), name))
                && Spelling(id) == name
    {
      hide Tiled, Bucketed, TextsOf, SliceText;
      if texts == null {
        return INVALID_ID;
      }
      var textId := texts.Intern(name);
      if textId == INVALID_ID {
        return INVALID_ID;
      }
      InternedSpelling(ids.keyById, texts.Texts(), name);
      id := ids.Intern(textId);
      SpellingExact(id);
    }
  }

  // ------------------------------------------------------------ NameTables

  datatype Kind = LinkName | BlockLabel | SlotName

  /** The spellings of a bundle and the text ids each of its three tables lists. */
  datatype Bundle = Bundle(texts: seq<string>, linkNames: seq<nat>, blockLabels: seq<nat>, slotNames: seq<nat>)
  {
    function Keys(kind: Kind): seq<nat>
    {
      match kind
      case LinkName => linkNames
      case BlockLabel => blockLabels
      case SlotName => slotNames
    }

    function With(kind: Kind, keys: seq<nat>): Bundle
    {
      match kind
      case LinkName => this.(linkNames := keys)
      case BlockLabel => this.(blockLabels := keys)
      case SlotName => this.(slotNames := keys)
    }

    function Spelling(kind: Kind, id: nat): string
    {
      SpellingIn(Keys(kind), texts, id)
    }

    ghost predicate Sound(kind: Kind)
    {
      Names(texts, "") && Names(Keys(kind), INVALID_ID)
    }
  }

  /** A bundle after one intern call, and the id it returned. */
  function Named(b: Bundle, kind: Kind, name: string): (Bundle, nat)
  {
    var texts := Interned(b.texts, "", name);
    var textId := IdOf(texts, name);
    var keys := Interned(b.Keys(kind), INVALID_ID, textId);
    (b.With(kind, keys).(texts := texts), IdOf(keys, textId))
  }

  function NamedAll(b: Bundle, calls: seq<(Kind, string)>): (r: (Bundle, seq<nat>))
    ensures |r.1| == |calls|
  {
    if calls == [] then (b, [])
    else
      var last := calls[|calls| - 1];
      var (before, ids) := NamedAll(b, calls[..|calls| - 1]);
      var (after, id) := Named(before, last.0, last.1);
      (after, ids + [id])
  }

  lemma NamedAllNone(b: Bundle)
    ensures NamedAll(b, []) == (b, [])
  {
  }

  lemma NamedAllStep(b: Bundle, calls: seq<(Kind, string)>, i: nat)
    requires i < |calls|
    ensures var (before, ids) := NamedAll(b, calls[..i]);
            var (after, id) := Named(before, calls[i].0, calls[i].1);
            NamedAll(b, calls[..i + 1]) == (after, ids + [id])
  {
    assert calls[..i + 1][..i] == calls[..i];
  }

  lemma NamedKeys(b: Bundle, kind: Kind, name: string, k: Kind)
    ensures var (after, id) := Named(b, kind, name);
            && after.texts == Interned(b.texts, "", name)
            && after.Keys(kind) == Interned(b.Keys(kind), INVALID_ID, IdOf(after.texts, name))
            && (k != kind ==> after.Keys(k) == b.Keys(k))
            && id == IdOf(after.Keys(kind), IdOf(after.texts, name))
  {
    hide Interned, IdOf;
  }

  lemma InternedSize<T>(keys: seq<T>, invalid: T, key: T)
    ensures |Interned(keys, invalid, key)| <= |keys| + 1
  {
  }

  lemma {:induction false} NamedAllSize(b: Bundle, calls: seq<(Kind, string)>, k: Kind)
    ensures var after := NamedAll(b, calls).0;
            |after.texts| <= |b.texts| + |calls| && |after.Keys(k)| <= |b.Keys(k)| + |calls|
    decreases |calls|
  {
    hide Interned, IdOf, Named;
    if calls != [] {
      var before := NamedAll(b, calls[..|calls| - 1]).0;
      var (kind, name) := calls[|calls| - 1];
      NamedAllSize(b, calls[..|calls| - 1], k);
      NamedKeys(before, kind, name, k);
      InternedSize(before.texts, "", name);
      InternedSize(before.Keys(kind), INVALID_ID, IdOf(Interned(before.texts, "", name), name));
    }
  }

  lemma NamedSpells(b: Bundle, kind: Kind, name: string)
    requires b.Sound(kind)
    ensures var (after, id) := Named(b, kind, name);
            after.Spelling(kind, id) == name && (name == "" ==> id == INVALID_ID)
  {
    hide Names, Interned, IdOf, Named;
    NamedKeys(b, kind, name, kind);
    var texts := Interned(b.texts, "", name);
    InternedNames(b.texts, "", name);
    InternedNames(b.Keys(kind), INVALID_ID, IdOf(texts, name));
    if name != "" {
      InternedSpelling(b.Keys(kind), texts, name);
    } else {
      IdOfMissing(texts, name);
      IdOfMissing(Interned(b.Keys(kind), INVALID_ID, INVALID_ID), INVALID_ID);
    }
  }

  lemma IdOfMissing<T>(keys: seq<T>, key: T)
    requires key !in keys
    ensures IdOf(keys, key) == INVALID_ID
  {
  }

  lemma NamedKeeps(b: Bundle, kind: Kind, name: string, k: Kind)
    requires b.Sound(k)
    ensures var after := Named(b, kind, name).0;
            after.Sound(k) && SpellingsKept(b.Keys(k), b.texts, after.Keys(k), after.texts)
  {
    hide Names, Interned, IdOf, Named, SpellingsKept;
    var after := Named(b, kind, name).0;
    NamedKeys(b, kind, name, k);
    InternedNames(b.texts, "", name);
    InternedGrows(b.texts, "", name);
    InternedGrows(b.Keys(kind), INVALID_ID, IdOf(after.texts, name));
    if k == kind {
      InternedNames(b.Keys(kind), INVALID_ID, IdOf(after.texts, name));
    }
    GrowthKeepsSpellings(b.Keys(k), b.texts, after.Keys(k), after.texts);
  }

  lemma InternedGrows<T>(keys: seq<T>, invalid: T, key: T)
    ensures keys <= Interned(keys, invalid, key)
  {
  }

  /** No run of calls changes a spelling, in any of the three tables. */
  lemma {:induction false} NamedAllKeeps(b: Bundle, calls: seq<(Kind, string)>, k: Kind)
    requires b.Sound(k)
    ensures var after := NamedAll(b, calls).0;
            after.Sound(k) && SpellingsKept(b.Keys(k), b.texts, after.Keys(k), after.texts)
    decreases |calls|
  {
    hide Names, IdOf, Interned, Named;
    if calls != [] {
      var (kind, name) := calls[|calls| - 1];
      NamedAllKeeps(b, calls[..|calls| - 1], k);
      NamedKeeps(NamedAll(b, calls[..|calls| - 1]).0, kind, name, k);
    }
  }

  /** Interning through a shared text table, each id still spells its name at the end of the run. */
  lemma {:induction false} NamedAllSpells(b: Bundle, calls: seq<(Kind, string)>, i: nat)
    requires i < |calls| && b.Sound(calls[i].0)
    ensures var (after, ids) := NamedAll(b, calls);
            after.Spelling(calls[i].0, ids[i]) == calls[i].1 && (calls[i].1 == "" ==> ids[i] == INVALID_ID)
    decreases |calls|
  {
    hide Names, IdOf, Interned, Named;
    var last := |calls| - 1;
    var (kind, name) := calls[last];
    var (before, ids) := NamedAll(b, calls[..last]);
    NamedAllKeeps(b, calls[..last], calls[i].0);
    if i < last {
      NamedAllSpells(b, calls[..last], i);
      NamedKeeps(before, kind, name, calls[i].0);
    } else {
      NamedSpells(before, kind, name);
    }
  }

  /** One text table and the three semantic tables that must keep reading it. */
  class NameTables {
    const texts: StringIdTable
    const linkNames: SemanticNameTable
    const blockLabels: SemanticNameTable
    const slotNames: SemanticNameTable

    function Table(kind: Kind): SemanticNameTable
    {
      match kind
      case LinkName => linkNames
      case BlockLabel => blockLabels
      case SlotName => slotNames
    }

    ghost function Repr(): set<object>
      reads this
    {
      {this, texts, linkNames, blockLabels, slotNames, linkNames.ids, blockLabels.ids, slotNames.ids}
    }

    ghost predicate Valid()
      reads this, Repr(), texts, linkNames, blockLabels, slotNames
    {
      && linkNames != blockLabels && linkNames != slotNames && blockLabels != slotNames
      && linkNames.ids != blockLabels.ids && linkNames.ids != slotNames.ids && blockLabels.ids != slotNames.ids
      && linkNames.texts == texts && blockLabels.texts == texts && slotNames.texts == texts
      && linkNames.Valid() && blockLabels.Valid() && slotNames.Valid()
    }

    ghost function View(): Bundle
      requires Valid()
      reads this, Repr()
    {
      Bundle(texts.Texts(), linkNames.ids.keyById, blockLabels.ids.keyById, slotNames.ids.keyById)
    }

    /** Every table reads its spellings off the bundle. */
    lemma ViewSpells(kind: Kind, id: nat)
      requires Valid()
      ensures View().Sound(kind) && View().Spelling(kind, id) == Table(kind).Spelling(id)
    {
      Table(kind).SpellingExact(id);
    }

    /** Bundles with the same lists spell every id alike. */
    lemma SpellsAlike(other: NameTables, kind: Kind, id: nat)
      requires Valid() && other.Valid() && View() == other.View()
      ensures Table(kind).Spelling(id) == other.Table(kind).Spelling(id)
    {
      ViewSpells(kind, id);
      other.ViewSpells(kind, id);
    }

    constructor (hash: string -> nat)
      ensures Valid() && fresh(Repr()) && texts.Texts() == []
    {
      var t := new StringIdTable(hash);
      texts := t;
      linkNames := new SemanticNameTable(t);
      blockLabels := new SemanticNameTable(t);
      slotNames := new SemanticNameTable(t);
    }

    /** A copy owns all its storage and spells every id as the original does. */
    constructor Copy(other: NameTables)
      requires other.Valid()
      ensures Valid() && View() == other.View() && texts.hash == other.texts.hash
      ensures fresh(Repr())
    {
      hide Tiled, Bucketed, Names, TextsOf, SpellingIn;
      var t := new StringIdTable.Copy(other.texts);
      texts := t;
      linkNames := new SemanticNameTable.Copy(other.linkNames);
      blockLabels := new SemanticNameTable.Copy(other.blockLabels);
      slotNames := new SemanticNameTable.Copy(other.slotNames);
      new;
      Reattach();
    }

    /** Copy assignment, including the self-assignment that must change nothing. */
    method AssignFrom(other: NameTables)
      requires Valid() && other.Valid() && texts.hash == other.texts.hash
      requires this == other || Repr() !! other.Repr()
      modifies texts, linkNames, blockLabels, slotNames, linkNames.ids, blockLabels.ids, slotNames.ids
      ensures Valid() && View() == old(other.View())
    {
      hide Tiled, Bucketed, Names, TextsOf, SpellingIn;
      if this == other {
        return;
      }
      texts.CopyFrom(other.texts);
      linkNames.ids.CopyFrom(other.linkNames.ids);
      blockLabels.ids.CopyFrom(other.blockLabels.ids);
      slotNames.ids.CopyFrom(other.slotNames.ids);
      Reattach();
    }

    method Reattach()
      requires texts.Valid()
      requires linkNames.ids.Valid() && blockLabels.ids.Valid() && slotNames.ids.Valid()
      requires linkNames.ids.zero == blockLabels.ids.zero == slotNames.ids.zero == INVALID_ID
      modifies linkNames, blockLabels, slotNames
      ensures linkNames.texts == blockLabels.texts == slotNames.texts == texts
      ensures linkNames.Valid() && blockLabels.Valid() && slotNames.Valid()
    {
      linkNames.AttachTextTable(texts);
      blockLabels.AttachTextTable(texts);
      slotNames.AttachTextTable(texts);
    }

    method Intern(kind: Kind, name: string) returns (id: nat)
      requires Valid() && |View().texts| < MAX_IDS && |View().Keys(kind)| < MAX_IDS
      modifies texts, Table(kind).ids
      ensures Valid() && (View(), id) == Named(old(View()), kind, name)
    {
      hide Tiled, Bucketed, Names, TextsOf, Interned, IdOf, SpellingIn;
      id := Table(kind).Intern(name);
    }

    /** Any run of calls returns the ids of the same run on plain lists; another bundle does not notice. */
    method InternRun(calls: seq<(Kind, string)>, ghost other: NameTables) returns (ids: seq<nat>)
      requires Valid() && |View().texts| + |calls| <= MAX_IDS
      requires forall k :: |View().Keys(k)| + |calls| <= MAX_IDS
      requires other.Valid() && other.Repr() !! Repr()
      modifies texts, linkNames.ids, blockLabels.ids, slotNames.ids
      ensures Valid() && (View(), ids) == NamedAll(old(View()), calls)
      ensures other.Valid() && other.View() == old(other.View())
    {
      hide Tiled, Bucketed, Names, TextsOf, Named, NamedAll;
      ids := [];
      NamedAllNone(View());
      for i := 0 to |calls|
        invariant Valid() && (View(), ids) == NamedAll(old(View()), calls[..i])
      {
        NamedAllStep(old(View()), calls, i);
        NamedAllSize(old(View()), calls[..i], calls[i].0);
        var id := Intern(calls[i].0, calls[i].1);
        ids := ids + [id];
      }
      assert calls[..|calls|] == calls;
    }
  }
}
