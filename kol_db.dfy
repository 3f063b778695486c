/**
  kol/kol.go: storing and deleting records together with their index entries.
  A record lives under ["pk", type name, id]; its index keys (KolIndex) hold
  the marker byte. Each Transact in the source runs all-or-nothing: when a
  step fails, the store is put back as it was before the transaction.
*/
module KolDb {
  import opened KeyCodec
  import opened Wrappers
  import opened KolRecord
  import opened KolStore
  import opened KolIndex

  type Data = map<Parts, Stored>

  /** A record's place: its type name and id. */
  type RecKey = (Bytes, Bytes)

  /** A stored record: its fields and the index keys they derive. */
  datatype Rec = Rec(fields: seq<Field>, keys: seq<Parts>)

  /** What the database holds, record by record. */
  type Records = map<RecKey, Rec>

  /** A change handed to the subscriptions of a type after a transaction
      (kol/kol.go:210-212, 264-266, 285-287). */
  datatype Emission = Emission(typeName: Bytes, before: Option<Obj>, after: Option<Obj>)

  /** The effect of one operation: the store, the error, the record as the
      caller's object holds it afterwards, and the changes emitted. */
  datatype Outcome = Outcome(data: Data, err: Option<KolError>, obj: Obj, events: seq<Emission>)

  // ---------------------------------------------------------------------------
  // randomBytes
  // ---------------------------------------------------------------------------

  const IdLength := 24

  /** The id randomBytes makes from 24 draws of rand.Int31. */
  function RandomId(draws: seq<int>): (id: Bytes)
    requires |draws| == IdLength
    ensures |id| == IdLength
  {
    seq(IdLength, i requires 0 <= i < IdLength => draws[i] % 256)
  }

  /** randomBytes (kol/kol.go:65-71): byte(x) keeps the low 8 bits. */
  method RandomBytes(draws: seq<int>) returns (id: Bytes)
    requires |draws| == IdLength
    ensures |id| == IdLength && forall i :: 0 <= i < IdLength ==> id[i] == draws[i] % 256
  {
    var result := new Byte[IdLength](_ => 0);
    for i := 0 to IdLength
      invariant forall j :: 0 <= j < i ==> result[j] == draws[j] % 256
    {
      result[i] := draws[i] % 256;
    }
    id := result[..];
  }

  // ---------------------------------------------------------------------------
  // get, save, create, update, Set, Del
  // ---------------------------------------------------------------------------

  /** get (kol/kol.go:230-239): "no record" becomes NotFound, and a primary
      entry that is not a record does not decode. */
  function GetSpec(m: Data, typeName: Bytes, id: Bytes): (r: Result<Obj, KolError>)
    ensures r == Failure(NotFound) <==> PkKey(typeName, id) !in m
    ensures r.Success? <==> PkKey(typeName, id) in m && m[PkKey(typeName, id)].Doc?
    ensures r.Success? ==> r.value == Obj(typeName, m[PkKey(typeName, id)].fields)
  {
    if PkKey(typeName, id) !in m then Failure(NotFound)
    else match m[PkKey(typeName, id)]
      case Doc(fs) => Success(Obj(typeName, fs))
      case Blob(_) => Failure(Undecodable)
  }

  /** save (kol/kol.go:241-247). */
  function SaveSpec(m: Data, id: Bytes, o: Obj): Data {
    m[PkKey(o.typeName, id) := Doc(o.fields)]
  }

  /** create (kol/kol.go:249-268): index, then save, in one transaction. */
  function CreateSpec(m: Data, id: Bytes, o: Obj): (Data, Option<KolError>) {
    var (m1, e) := IndexSpec(m, id, o);
    if e.Some? then (m, e) else (SaveSpec(m1, id, o), None)
  }

  /** update (kol/kol.go:270-289): remove the previous record's index
      entries, index the new one, then save, in one transaction. */
  function UpdateSpec(m: Data, id: Bytes, prev: Obj, o: Obj): (Data, Option<KolError>) {
    var (m1, e1) := DeIndexSpec(m, id, prev);
    if e1.Some? then (m, e1)
    else
      var (m2, e2) := IndexSpec(m1, id, o);
      if e2.Some? then (m, e2) else (SaveSpec(m2, id, o), None)
  }

  /** Set (kol/kol.go:300-326): a nil Id gets the fresh id and the record is
      created; otherwise the stored record is updated, or the record created
      when there is none, and any other error of get is returned. */
  function SetSpec(m: Data, o: Obj, newId: Bytes): Outcome {
    match IdOf(o)
    case Failure(e) => Outcome(m, Some(e), o, [])
    case Success(None) =>
      var o' := WithId(o, newId);
      var (m', e) := CreateSpec(m, newId, o');
      Outcome(m', e, o', if e.None? then [Emission(o.typeName, None, Some(o'))] else [])
    case Success(Some(id)) =>
      match GetSpec(m, o.typeName, id)
      case Success(prev) =>
        var (m', e) := UpdateSpec(m, id, prev, o);
        Outcome(m', e, o, if e.None? then [Emission(o.typeName, Some(prev), Some(o))] else [])
      case Failure(ge) =>
        if ge != NotFound then Outcome(m, Some(ge), o, [])
        else
          var (m', e) := CreateSpec(m, id, o);
          Outcome(m', e, o, if e.None? then [Emission(o.typeName, None, Some(o))] else [])
  }

  /** The id Del goes on with once the stored record has been read into the
      caller's record: the stored Id, or the caller's when it has none. */
  function IdAfterRead(stored: Obj, id: Bytes): Bytes {
    if IdOf(stored).Success? && IdOf(stored).value.Some? then IdOf(stored).value.value else id
  }

  /** Del (kol/kol.go:183-215): read the stored record into the argument,
      remove its index entries, then the primary entry; a missing primary
      entry is NotFound. One transaction. */
  function DelSpec(m: Data, o: Obj): Outcome {
    match IdOf(o)
    case Failure(e) => Outcome(m, Some(e), o, [])
    case Success(idv) =>
      var id := idv.GetOr([]);
      var pk := PkKey(o.typeName, id);
      if pk !in m then Outcome(m, Some(NotFound), o, [])
      else match m[pk]
        case Blob(_) => Outcome(m, Some(Undecodable), o, [])
        case Doc(fs) =>
          var stored := Obj(o.typeName, fs);
          var id' := IdAfterRead(stored, id);
          var (m1, e) := DeIndexSpec(m, id', stored);
          if e.Some? then Outcome(m, e, stored, [])
          else if PkKey(o.typeName, id') !in m1 then Outcome(m, Some(NotFound), stored, [])
          else Outcome(m1 - {PkKey(o.typeName, id')}, None, stored, [Emission(o.typeName, Some(stored), None)])
  }

  // ---------------------------------------------------------------------------
  // The store holds exactly the records and their index entries
  // ---------------------------------------------------------------------------

  predicate IsPk(k: Parts) {
    |k| == 3 && k[0] == PrimaryKey
  }

  predicate IsIndexKey(k: Parts) {
    (|k| == 5 && k[0] == SecondaryIndex) || (|k| == 7 && k[0] == ForeignIndex)
  }

  /** The record an entry belongs to: type name and id of a primary entry,
      type name and last part of an index entry. */
  function OwnerOf(k: Parts): RecKey
    requires |k| >= 3
  {
    if IsPk(k) then (k[1], k[2]) else (k[1], k[|k| - 1])
  }

  /** The index keys of a record (none if they do not derive). */
  function RecordKeys(r: RecKey, fs: seq<Field>): seq<Parts> {
    match IndexKeysSpec(r.1, Obj(r.0, fs))
    case Success(ks) => ks
    case Failure(_) => []
  }

  /** The record stored for r with fields fs. */
  function RecOf(r: RecKey, fs: seq<Field>): Rec {
    Rec(fs, RecordKeys(r, fs))
  }

  /** A record the database can hold: its Id is its key's id, its index keys
      derive, and none is derived twice. */
  predicate Storable(r: RecKey, rec: Rec) {
    && rec == RecOf(r, rec.fields)
    && IdOf(Obj(r.0, rec.fields)) == Success(Some(r.1))
    && IndexKeysSpec(r.1, Obj(r.0, rec.fields)).Success?
    && Distinct(rec.keys)
  }

  /** Every key of ks is an index entry of the record r. */
  predicate OwnedBy(r: RecKey, ks: seq<Parts>) {
    forall k :: k in ks ==> IsIndexKey(k) && OwnerOf(k) == r
  }

  /** An entry of a store holding rs: a record under its primary key, or the
      marker under one of its record's index keys. */
  predicate EntryOf(rs: Records, k: Parts, v: Stored) {
    && |k| >= 3
    && OwnerOf(k) in rs
    && if IsPk(k) then v == Doc(rs[OwnerOf(k)].fields)
       else IsIndexKey(k) && v == Marker && k in rs[OwnerOf(k)].keys
  }

  predicate AllStorable(rs: Records) {
    forall r {:trigger Storable(r, rs[r])} :: r in rs ==> Storable(r, rs[r])
  }

  predicate AllOwned(rs: Records) {
    forall r :: r in rs ==> OwnedBy(r, rs[r].keys)
  }

  predicate PksPresent(m: Data, rs: Records) {
    forall r :: r in rs ==> PkKey(r.0, r.1) in m
  }

  predicate KeysPresent(m: Data, rs: Records) {
    forall r, k :: r in rs && k in rs[r].keys ==> k in m
  }

  predicate OnlyEntries(m: Data, rs: Records) {
    forall k {:trigger m[k]} :: k in m ==> EntryOf(rs, k, m[k])
  }

  /** m holds the records rs: each under its primary key, each of their index
      keys with the marker, and nothing else. */
  predicate Represents(m: Data, rs: Records) {
    AllStorable(rs) && AllOwned(rs) && PksPresent(m, rs) && KeysPresent(m, rs) && OnlyEntries(m, rs)
  }

  /** The store after indexing and saving the record rec under r. */
  function Added(m: Data, r: RecKey, rec: Rec): Data {
    SaveSpec(PutAll(m, rec.keys, Marker), r.1, Obj(r.0, rec.fields))
  }

  /** The store after de-indexing the record rec under r and removing it. */
  function Removed(m: Data, r: RecKey, rec: Rec): Data {
    Without(m, rec.keys) - {PkKey(r.0, r.1)}
  }

  /** Every index key of a record is an index entry owned by it. */
  lemma KeysOwned(r: RecKey, fs: seq<Field>)
    ensures OwnedBy(r, RecordKeys(r, fs))
  {
    if IndexKeysSpec(r.1, Obj(r.0, fs)).Success? {
      IndexKeysShape(r.1, Obj(r.0, fs));
    }
  }

  /** A stored record sits under its primary key. */
  lemma PkEntry(m: Data, rs: Records, r: RecKey)
    requires PksPresent(m, rs) && OnlyEntries(m, rs) && r in rs
    ensures PkKey(r.0, r.1) in m && m[PkKey(r.0, r.1)] == Doc(rs[r].fields)
  {
    var v := m[PkKey(r.0, r.1)];
    assert OwnerOf(PkKey(r.0, r.1)) == r;
  }

  /** The empty store holds no records. */
  lemma EmptyRepresents()
    ensures Represents(map[], map[])
  {
  }

  /** An entry stays an entry when a record that was not there is added. */
  lemma AddOldEntry(rs: Records, r: RecKey, rec: Rec, k: Parts, v: Stored)
    requires r !in rs && EntryOf(rs, k, v)
    ensures EntryOf(rs[r := rec], k, v)
  {
  }

  lemma AddEntries(m: Data, rs: Records, r: RecKey, rec: Rec)
    requires OnlyEntries(m, rs) && r !in rs && OwnedBy(r, rec.keys)
    ensures OnlyEntries(Added(m, r, rec), rs[r := rec])
  {
    var m' := Added(m, r, rec);
    forall k | k in m'
      ensures EntryOf(rs[r := rec], k, m'[k])
    {
      if k == PkKey(r.0, r.1) {
        assert OwnerOf(k) == r;
      } else if k in rec.keys {
        assert m'[k] == Marker && OwnerOf(k) == r;
      } else {
        var v := m[k];
        assert m'[k] == v;
        AddOldEntry(rs, r, rec, k, v);
      }
    }
  }

  lemma AddPresent(m: Data, rs: Records, r: RecKey, rec: Rec)
    requires PksPresent(m, rs) && KeysPresent(m, rs)
    ensures PksPresent(Added(m, r, rec), rs[r := rec]) && KeysPresent(Added(m, r, rec), rs[r := rec])
  {
  }

  /** Adding a record that is not there yet: index its keys, then save it. */
  lemma AddRecord(m: Data, rs: Records, r: RecKey, fs: seq<Field>)
    requires Represents(m, rs) && r !in rs && Storable(r, RecOf(r, fs))
    ensures IndexSpec(m, r.1, Obj(r.0, fs)) == (PutAll(m, RecordKeys(r, fs), Marker), None)
    ensures Represents(Added(m, r, RecOf(r, fs)), rs[r := RecOf(r, fs)])
  {
    var rec := RecOf(r, fs);
    KeysOwned(r, fs);
    DerivedKeys(r, fs);
    AddEntries(m, rs, r, rec);
    AddPresent(m, rs, r, rec);
    AddOwned(rs, r, rec);
    AddStorable(rs, r, rec);
  }

  lemma DerivedKeys(r: RecKey, fs: seq<Field>)
    requires IndexKeysSpec(r.1, Obj(r.0, fs)).Success?
    ensures IndexKeysSpec(r.1, Obj(r.0, fs)) == Success(RecordKeys(r, fs))
  {
  }

  lemma AddOwned(rs: Records, r: RecKey, rec: Rec)
    requires AllOwned(rs) && OwnedBy(r, rec.keys)
    ensures AllOwned(rs[r := rec])
  {
  }

  lemma AddStorable(rs: Records, r: RecKey, rec: Rec)
    requires AllStorable(rs) && Storable(r, rec)
    ensures AllStorable(rs[r := rec])
  {
    var rs' := rs[r := rec];
    forall q | q in rs'
      ensures Storable(q, rs'[q])
    {
      if q != r {
        assert Storable(q, rs[q]);
      }
    }
  }

  /** What a stored record satisfies, unfolded. */
  lemma StoredFacts(rs: Records, r: RecKey)
    requires AllStorable(rs) && r in rs
    ensures IndexKeysSpec(r.1, Obj(r.0, rs[r].fields)) == Success(rs[r].keys)
    ensures IdOf(Obj(r.0, rs[r].fields)) == Success(Some(r.1))
    ensures Distinct(rs[r].keys)
  {
    assert Storable(r, rs[r]);
  }

  /** The index keys of a stored record are all in the store, each once. */
  lemma StoredKeysPresent(m: Data, rs: Records, r: RecKey)
    requires KeysPresent(m, rs) && r in rs
    ensures forall i :: 0 <= i < |rs[r].keys| ==> rs[r].keys[i] in m
  {
    var ks := rs[r].keys;
    forall i | 0 <= i < |ks|
      ensures ks[i] in m
    {
      assert ks[i] in ks;
    }
  }

  /** An entry of another record stays an entry when r is removed. */
  lemma DropOldEntry(rs: Records, r: RecKey, k: Parts, v: Stored)
    requires r in rs && EntryOf(rs, k, v)
    requires k !in rs[r].keys && k != PkKey(r.0, r.1)
    ensures EntryOf(rs - {r}, k, v)
  {
    if IsPk(k) {
      assert k == PkKey(OwnerOf(k).0, OwnerOf(k).1);
    }
    assert OwnerOf(k) != r;
  }

  lemma DropEntries(m: Data, rs: Records, r: RecKey)
    requires OnlyEntries(m, rs) && r in rs
    ensures OnlyEntries(Removed(m, r, rs[r]), rs - {r})
  {
    var m' := Removed(m, r, rs[r]);
    forall k | k in m'
      ensures EntryOf(rs - {r}, k, m'[k])
    {
      var v := m[k];
      DropOldEntry(rs, r, k, v);
    }
  }

  lemma DropPresent(m: Data, rs: Records, r: RecKey)
    requires PksPresent(m, rs) && KeysPresent(m, rs) && AllOwned(rs) && r in rs
    ensures PksPresent(Removed(m, r, rs[r]), rs - {r}) && KeysPresent(Removed(m, r, rs[r]), rs - {r})
  {
    var m' := Removed(m, r, rs[r]);
    assert OwnerOf(PkKey(r.0, r.1)) == r;
    forall q | q in rs - {r}
      ensures PkKey(q.0, q.1) in m'
    {
      assert OwnerOf(PkKey(q.0, q.1)) == q;
      assert !IsIndexKey(PkKey(q.0, q.1));
    }
    forall q, k | q in rs - {r} && k in rs[q].keys
      ensures k in m'
    {
      assert OwnerOf(k) == q;
    }
  }

  lemma DropStorable(rs: Records, r: RecKey)
    requires AllStorable(rs)
    ensures AllStorable(rs - {r})
  {
    forall q | q in rs - {r}
      ensures Storable(q, (rs - {r})[q])
    {
      assert Storable(q, rs[q]);
    }
  }

  /** De-indexing a stored record removes exactly its index keys. */
  lemma DeIndexStored(m: Data, rs: Records, r: RecKey)
    requires AllStorable(rs) && KeysPresent(m, rs) && r in rs
    ensures DeIndexSpec(m, r.1, Obj(r.0, rs[r].fields)) == (Without(m, rs[r].keys), None)
  {
    StoredFacts(rs, r);
    StoredKeysPresent(m, rs, r);
    RemoveAllPresent(m, rs[r].keys);
  }

  lemma PkNotIndexKey(rs: Records, r: RecKey)
    requires AllOwned(rs) && r in rs
    ensures PkKey(r.0, r.1) !in rs[r].keys
  {
    assert !IsIndexKey(PkKey(r.0, r.1));
  }

  /** Removing a stored record: its index keys go, each once, and then its
      primary entry. */
  lemma DropRecord(m: Data, rs: Records, r: RecKey)
    requires Represents(m, rs) && r in rs
    ensures var ks := rs[r].keys;
      && DeIndexSpec(m, r.1, Obj(r.0, rs[r].fields)) == (Without(m, ks), None)
      && PkKey(r.0, r.1) in Without(m, ks)
      && Represents(Removed(m, r, rs[r]), rs - {r})
  {
    DeIndexStored(m, rs, r);
    PkEntry(m, rs, r);
    PkNotIndexKey(rs, r);
    DropEntries(m, rs, r);
    DropPresent(m, rs, r);
    DropStorable(rs, r);
  }

  /** get finds exactly the records the store holds. */
  lemma GetRepresented(m: Data, rs: Records, typeName: Bytes, id: Bytes)
    requires PksPresent(m, rs) && OnlyEntries(m, rs)
    ensures GetSpec(m, typeName, id) ==
      if (typeName, id) in rs then Success(Obj(typeName, rs[(typeName, id)].fields)) else Failure(NotFound)
  {
    var pk := PkKey(typeName, id);
    if pk in m {
      var v := m[pk];
      assert OwnerOf(pk) == (typeName, id);
    }
    if (typeName, id) in rs {
      PkEntry(m, rs, (typeName, id));
    }
  }

  /** Saving over the primary entry replaces whatever was there. */
  lemma SaveOverPk(m: Data, ks: seq<Parts>, id: Bytes, o: Obj)
    requires forall k :: k in ks ==> IsIndexKey(k)
    ensures SaveSpec(PutAll(m, ks, Marker), id, o) == SaveSpec(PutAll(m - {PkKey(o.typeName, id)}, ks, Marker), id, o)
  {
    var pk := PkKey(o.typeName, id);
    assert !IsIndexKey(pk);
    var a := SaveSpec(PutAll(m, ks, Marker), id, o);
    var b := SaveSpec(PutAll(m - {pk}, ks, Marker), id, o);
    assert forall k :: k in a <==> k in b;
  }

  /** create, when the record's index keys derive, adds it. */
  lemma CreateStore(m: Data, r: RecKey, o: Obj)
    requires o.typeName == r.0 && IndexKeysSpec(r.1, o).Success?
    ensures CreateSpec(m, r.1, o) == (Added(m, r, RecOf(r, o.fields)), None)
  {
    assert o == Obj(r.0, o.fields);
  }

  /** update of a stored record, when the new index keys derive, replaces it. */
  lemma UpdateStore(m: Data, rs: Records, r: RecKey, o: Obj)
    requires AllStorable(rs) && KeysPresent(m, rs) && r in rs
    requires o.typeName == r.0 && IndexKeysSpec(r.1, o).Success?
    ensures UpdateSpec(m, r.1, Obj(r.0, rs[r].fields), o) == (Added(Removed(m, r, rs[r]), r, RecOf(r, o.fields)), None)
  {
    DeIndexStored(m, rs, r);
    KeysOwned(r, o.fields);
    assert o == Obj(r.0, o.fields);
    SaveOverPk(Without(m, rs[r].keys), RecordKeys(r, o.fields), r.1, o);
  }

  /** Replacing a stored record by another under the same key. */
  lemma ReplaceRecord(m: Data, rs: Records, r: RecKey, fs: seq<Field>)
    requires Represents(m, rs) && r in rs && Storable(r, RecOf(r, fs))
    ensures Represents(Added(Removed(m, r, rs[r]), r, RecOf(r, fs)), rs[r := RecOf(r, fs)])
  {
    DropRecord(m, rs, r);
    AddRecord(Removed(m, r, rs[r]), rs - {r}, r, fs);
    ReplaceKey(rs, r, RecOf(r, fs));
  }

  lemma ReplaceKey(rs: Records, r: RecKey, rec: Rec)
    ensures (rs - {r})[r := rec] == rs[r := rec]
  {
  }

  /** The record just added is what get returns. */
  lemma GetAdded(m: Data, r: RecKey, o: Obj)
    requires o.typeName == r.0
    ensures GetSpec(Added(m, r, RecOf(r, o.fields)), r.0, r.1) == Success(o)
  {
  }

  /** create on a record that is not stored yet. */
  lemma CreateKeepsRecords(m: Data, rs: Records, r: RecKey, o: Obj)
    requires Represents(m, rs) && r !in rs
    requires o.typeName == r.0 && IdOf(o) == Success(Some(r.1))
    ensures var (m', e) := CreateSpec(m, r.1, o);
      && (e.None? <==> IndexKeysSpec(r.1, o).Success?)
      && (e.Some? ==> m' == m)
      && (e.None? && Distinct(RecordKeys(r, o.fields)) ==>
            && Represents(m', rs[r := RecOf(r, o.fields)])
            && GetSpec(m', r.0, r.1) == Success(o))
  {
    if IndexKeysSpec(r.1, o).Success? {
      CreateStore(m, r, o);
      GetAdded(m, r, o);
      if Distinct(RecordKeys(r, o.fields)) {
        assert o == Obj(r.0, o.fields);
        AddRecord(m, rs, r, o.fields);
      }
    }
  }

  /** update of a stored record with the record read from the store. */
  lemma UpdateKeepsRecords(m: Data, rs: Records, r: RecKey, o: Obj)
    requires Represents(m, rs) && r in rs
    requires o.typeName == r.0 && IdOf(o) == Success(Some(r.1))
    ensures var (m', e) := UpdateSpec(m, r.1, Obj(r.0, rs[r].fields), o);
      && (e.None? <==> IndexKeysSpec(r.1, o).Success?)
      && (e.Some? ==> m' == m)
      && (e.None? && Distinct(RecordKeys(r, o.fields)) ==>
            && Represents(m', rs[r := RecOf(r, o.fields)])
            && GetSpec(m', r.0, r.1) == Success(o))
  {
    DeIndexStored(m, rs, r);
    if IndexKeysSpec(r.1, o).Success? {
      UpdateStore(m, rs, r, o);
      GetAdded(Removed(m, r, rs[r]), r, o);
      if Distinct(RecordKeys(r, o.fields)) {
        assert o == Obj(r.0, o.fields);
        ReplaceRecord(m, rs, r, o.fields);
      }
    }
  }

  /** Set keeps the store holding exactly its records. It succeeds exactly
      when the record's index keys derive; it then holds the record under its
      id (a new one for a nil Id) with a get returning it, and on failure the
      store is unchanged. The new id must not be taken for the type, and the
      record must derive no index key twice. */
  lemma SetKeepsRecords(m: Data, rs: Records, o: Obj, newId: Bytes)
    requires Represents(m, rs) && IdOf(o).Success?
    requires IdOf(o).value.None? ==> (o.typeName, newId) !in rs
    ensures var out := SetSpec(m, o, newId);
      var r := (o.typeName, IdOf(o).value.GetOr(newId));
      && out.obj == (if IdOf(o).value.None? then WithId(o, newId) else o)
      && (out.err.None? <==> IndexKeysSpec(r.1, out.obj).Success?)
      && (out.err.Some? ==> out.data == m && out.events == [])
      && (out.err.None? && Distinct(RecordKeys(r, out.obj.fields)) ==>
            && Represents(out.data, rs[r := RecOf(r, out.obj.fields)])
            && GetSpec(out.data, r.0, r.1) == Success(out.obj))
  {
    var idv := IdOf(o).value;
    if idv.None? {
      WithIdReads(o, newId);
      CreateKeepsRecords(m, rs, (o.typeName, newId), WithId(o, newId));
    } else {
      var r := (o.typeName, idv.value);
      assert IdOf(o) == Success(Some(r.1));
      GetRepresented(m, rs, r.0, r.1);
      if r in rs {
        UpdateKeepsRecords(m, rs, r, o);
      } else {
        CreateKeepsRecords(m, rs, r, o);
      }
    }
  }

  /** Del on a stored record removes it and its index entries. */
  lemma DelStored(m: Data, rs: Records, r: RecKey, o: Obj)
    requires AllStorable(rs) && KeysPresent(m, rs) && r in rs
    requires IdOf(o).Success? && r == (o.typeName, IdOf(o).value.GetOr([]))
    requires PkKey(r.0, r.1) in m && m[PkKey(r.0, r.1)] == Doc(rs[r].fields)
    ensures DelSpec(m, o) ==
      Outcome(Removed(m, r, rs[r]), None, Obj(r.0, rs[r].fields), [Emission(o.typeName, Some(Obj(r.0, rs[r].fields)), None)])
  {
    StoredFacts(rs, r);
    assert IdAfterRead(Obj(r.0, rs[r].fields), r.1) == r.1;
    DeIndexStored(m, rs, r);
    assert PkKey(r.0, r.1) !in rs[r].keys by {
      KeysOwned(r, rs[r].fields);
      assert !IsIndexKey(PkKey(r.0, r.1));
    }
  }

  /** Del keeps the store holding exactly its records: a stored record goes
      with all its index entries and a later get is NotFound; an absent one
      is NotFound and nothing changes. */
  lemma DelKeepsRecords(m: Data, rs: Records, o: Obj)
    requires Represents(m, rs) && IdOf(o).Success?
    ensures var out := DelSpec(m, o);
      var r := (o.typeName, IdOf(o).value.GetOr([]));
      && (r !in rs ==> out == Outcome(m, Some(NotFound), o, []))
      && (r in rs ==>
            && out.err.None?
            && out.obj == Obj(r.0, rs[r].fields)
            && out.events == [Emission(o.typeName, Some(out.obj), None)]
            && Represents(out.data, rs - {r})
            && GetSpec(out.data, r.0, r.1) == Failure(NotFound))
  {
    var r := (o.typeName, IdOf(o).value.GetOr([]));
    GetRepresented(m, rs, r.0, r.1);
    if r in rs {
      PkEntry(m, rs, r);
      DelStored(m, rs, r, o);
      DropRecord(m, rs, r);
      GetRepresented(Removed(m, r, rs[r]), rs - {r}, r.0, r.1);
    }
  }

  /** A record whose tag repeats an fk<...> parameter derives one foreign key
      twice; it can be stored, but de-indexing it fails on the second copy, so
      it can no longer be updated or deleted. */
  lemma RepeatedKeyBlocksDeIndex(m: Data, id: Bytes, o: Obj, i: nat, j: nat)
    requires IndexKeysSpec(id, o).Success?
    requires i < j < |IndexKeysSpec(id, o).value| && IndexKeysSpec(id, o).value[i] == IndexKeysSpec(id, o).value[j]
    ensures IndexSpec(m, id, o).1 == None
    ensures DeIndexSpec(IndexSpec(m, id, o).0, id, o).1 == Some(NoRecord)
  {
    RemoveAllDuplicate(IndexSpec(m, id, o).0, IndexKeysSpec(id, o).value, i, j);
  }

  // ---------------------------------------------------------------------------
  // The object layer
  // ---------------------------------------------------------------------------

  /** kol.DB: the store and the changes emitted so far. */
  class KolDb {
    const store: Store
    var events: seq<Emission>

    constructor ()
      ensures fresh(store) && store.data == map[] && events == []
    {
      store := new Store();
      events := [];
    }

    /** Get (kol/kol.go:222-228). */
    method Get(o: Obj) returns (r: Result<Obj, KolError>)
      ensures r == match IdOf(o)
        case Failure(e) => Failure(e)
        case Success(id) => GetSpec(store.data, o.typeName, id.GetOr([]))
    {
      var id := IdOf(o);
      if id.Failure? {
        return Failure(id.error);
      }
      r := GetIn(id.value.GetOr([]), o.typeName);
    }

    /** get (kol/kol.go:230-239). */
    method GetIn(id: Bytes, typeName: Bytes) returns (r: Result<Obj, KolError>)
      ensures r == GetSpec(store.data, typeName, id)
    {
      var b := store.Get(PkKey(typeName, id));
      if b.None? {
        return Failure(NotFound);
      }
      match b.value
      case Doc(fs) => r := Success(Obj(typeName, fs));
      case Blob(_) => r := Failure(Undecodable);
    }

    /** save (kol/kol.go:241-247). */
    method Save(id: Bytes, o: Obj)
      modifies store
      ensures store.data == SaveSpec(old(store.data), id, o)
    {
      store.Put(PkKey(o.typeName, id), Doc(o.fields));
    }

    /** create (kol/kol.go:249-268). */
    method Create(id: Bytes, o: Obj) returns (err: Option<KolError>)
      modifies store, this
      ensures (store.data, err) == CreateSpec(old(store.data), id, o)
      ensures events == old(events) + if err.None? then [Emission(o.typeName, None, Some(o))] else []
    {
      var before := store.data;
      err := Index(store, id, o);
      if err.Some? {
        store.data := before;  // the transaction aborts
        return;
      }
      Save(id, o);
      events := events + [Emission(o.typeName, None, Some(o))];
    }

    /** update (kol/kol.go:270-289). */
    method Update(id: Bytes, prev: Obj, o: Obj) returns (err: Option<KolError>)
      modifies store, this
      ensures (store.data, err) == UpdateSpec(old(store.data), id, prev, o)
      ensures events == old(events) + if err.None? then [Emission(o.typeName, Some(prev), Some(o))] else []
    {
      var before := store.data;
      err := DeIndex(store, id, prev);
      if err.Some? {
        store.data := before;  // the transaction aborts
        return;
      }
      err := Index(store, id, o);
      if err.Some? {
        store.data := before;  // the transaction aborts
        return;
      }
      Save(id, o);
      events := events + [Emission(o.typeName, Some(prev), Some(o))];
    }

    /** Set (kol/kol.go:300-326); draws feeds randomBytes. */
    method Set(o: Obj, draws: seq<int>) returns (err: Option<KolError>, obj: Obj)
      requires |draws| == IdLength
      modifies store, this
      ensures var out := SetSpec(old(store.data), o, RandomId(draws));
        store.data == out.data && err == out.err && obj == out.obj && events == old(events) + out.events
    {
      var id := IdOf(o);
      if id.Failure? {
        return Some(id.error), o;
      }
      if id.value.None? {
        var idBytes := RandomBytes(draws);
        assert idBytes == RandomId(draws);
        obj := WithId(o, idBytes);
        err := Create(idBytes, obj);
        return;
      }
      obj := o;
      var prev := GetIn(id.value.value, o.typeName);
      if prev.Success? {
        err := Update(id.value.value, prev.value, o);
      } else if prev.error != NotFound {
        err := Some(prev.error);
      } else {
        err := Create(id.value.value, o);
      }
    }

    /** Del (kol/kol.go:183-215). */
    method Del(o: Obj) returns (err: Option<KolError>, obj: Obj)
      modifies store, this
      ensures var out := DelSpec(old(store.data), o);
        store.data == out.data && err == out.err && obj == out.obj && events == old(events) + out.events
    {
      obj := o;
      var idv := IdOf(o);
      if idv.Failure? {
        return Some(idv.error), o;
      }
      var id := idv.value.GetOr([]);
      var before := store.data;
      var b := store.Get(PkKey(o.typeName, id));
      if b.Some? {
        if b.value.Blob? {
          return Some(Undecodable), o;
        }
        obj := Obj(o.typeName, b.value.fields);
        id := IdAfterRead(obj, id);
        err := DeIndex(store, id, obj);
        if err.Some? {
          store.data := before;  // the transaction aborts
          return;
        }
      }
      err := store.Remove(PkKey(o.typeName, id));
      if err.Some? {
        store.data := before;  // the transaction aborts
        err := Some(NotFound);
        return;
      }
      events := events + [Emission(o.typeName, Some(obj), None)];
    }
  }
}
