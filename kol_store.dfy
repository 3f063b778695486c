/**
  The store as the object layer uses it: the kc database addressed by lists of
  key parts. Composite keys are injective (KeyCodec.JoinInjective), so the
  store is a map from part lists to stored values. A primary-key entry holds a
  record's encoded fields and an index entry holds the single byte 0x00. The
  JSON encoding is replaced by keeping the fields themselves.
*/
module KolStore {
  import opened KeyCodec
  import opened Wrappers
  import opened KolRecord

  datatype Stored = Blob(bytes: Bytes) | Doc(fields: seq<Field>)

  type Parts = seq<Bytes>

  const PrimaryKey: Bytes := [112, 107]  // "pk"

  /** ["pk", type name, id]: where a record itself is stored. */
  function PkKey(typeName: Bytes, id: Bytes): Parts {
    [PrimaryKey, typeName, id]
  }

  /** The store handle of a kol.DB. */
  class Store {
    var data: map<Parts, Stored>

    constructor ()
      ensures data == map[]
    {
      data := map[];
    }

    /** Set(keys, value): stores value under keys. */
    method Put(keys: Parts, value: Stored)
      modifies this
      ensures data == old(data)[keys := value]
    {
      data := data[keys := value];
    }

    /** Get(keys): the stored value, None for "no record". */
    method Get(keys: Parts) returns (r: Option<Stored>)
      ensures r.Some? <==> keys in data
      ensures r.Some? ==> r.value == data[keys]
    {
      r := if keys in data then Some(data[keys]) else None;
    }

    /** Remove(keys): deletes the entry; "no record" when there is none. */
    method Remove(keys: Parts) returns (err: Option<KolError>)
      modifies this
      ensures err == (if keys in old(data) then None else Some(NoRecord))
      ensures data == old(data) - {keys}
    {
      err := if keys in data then None else Some(NoRecord);
      data := data - {keys};
    }
  }
}
