/**
  The records of package kol with reflection replaced by explicit data. A
  record is a struct type name and its fields in declaration order. Each field
  has a name, a value and the text of its `kol:"..."` tag ("" when untagged).
  Go strings (type names, field names, tags) are byte strings.
*/
module KolRecord {
  import opened KeyCodec
  import opened Wrappers
  import opened ByteText

  /** Go's int on a 64-bit platform. */
  type Int64 = x: int | -0x8000_0000_0000_0000 <= x < 0x8000_0000_0000_0000

  /** A field value, by the kinds indexing distinguishes. BytesV and NilBytes
      are a []byte (non-nil and nil); Other is any other type, such as a float,
      an int32 or a slice of non-bytes, given by its type name. */
  datatype Value =
    | StrV(s: Bytes)
    | IntV(i: Int64)
    | BytesV(b: Bytes)
    | NilBytes
    | BoolV(v: bool)
    | Other(typeName: Bytes)
  {
    predicate IsByteSlice() {
      BytesV? || NilBytes?
    }

    /** reflect.Value.Bytes on a []byte: nil reads as empty. */
    function Bytes(): Bytes
      requires IsByteSlice()
    {
      if BytesV? then b else []
    }
  }

  datatype Field = Field(name: Bytes, value: Value, tag: Bytes)

  datatype Obj = Obj(typeName: Bytes, fields: seq<Field>)

  /** The errors the object layer reports. */
  datatype KolError =
    | NotIndexable(typeName: Bytes)   // indexBytes on an unsupported kind
    | FkNotBytes(field: Bytes)        // an fk<...> tag on a field that is not a []byte
    | FkNoField(field: Bytes, target: Bytes)  // an fk<F> tag naming no field F
    | NoRecord                        // the store's "no record" on a remove
    | NotFound                        // kol.NotFound
    | NoIdField                       // the record has no Id field
    | IdNotBytes                      // the Id field is not a []byte
    | Undecodable                     // a primary-key entry that does not decode
    | NoSuchField(name: Bytes)        // a filter naming a field the record lacks
    | KindMismatch                    // a field read as a kind it does not have
    | NotReference                    // First handed a reflect.Value where identify wants a reference to a struct

  const IdFieldName: Bytes := Ascii("Id")

  /** value.FieldByName(name): the first field with that name. */
  function FieldByName(o: Obj, name: Bytes): (r: Option<Value>)
    ensures r.Some? <==> exists i :: 0 <= i < |o.fields| && o.fields[i].name == name
    ensures r.Some? ==> exists i :: 0 <= i < |o.fields| && o.fields[i] == Field(name, r.value, o.fields[i].tag)
  {
    FieldFrom(o.fields, name)
  }

  function FieldFrom(fs: seq<Field>, name: Bytes): (r: Option<Value>)
    ensures r.Some? <==> exists i :: 0 <= i < |fs| && fs[i].name == name
    ensures r.Some? ==> exists i :: 0 <= i < |fs| && fs[i] == Field(name, r.value, fs[i].tag)
  {
    if |fs| == 0 then None
    else if fs[0].name == name then Some(fs[0].value)
    else
      var r := FieldFrom(fs[1..], name);
      assert forall i :: 0 <= i < |fs| - 1 ==> fs[1..][i] == fs[i + 1];
      r
  }

  /** The Id field as the object layer reads it (the Id checks of
      kol/kol.go:73-101): None for a nil Id. */
  function IdOf(o: Obj): Result<Option<Bytes>, KolError> {
    match FieldByName(o, IdFieldName)
    case None => Failure(NoIdField)
    case Some(v) =>
      if v.BytesV? then Success(Some(v.b))
      else if v.NilBytes? then Success(None)
      else Failure(IdNotBytes)
  }

  /** value.FieldByName("Id").Bytes(): the Id field as a []byte; reflect
      panics on a missing or non-[]byte field, an error here. */
  function IdValue(o: Obj): (r: Result<Value, KolError>)
    ensures r.Success? ==> r.value.IsByteSlice()
    ensures r.Success? <==> IdOf(o).Success?
    ensures r.Success? ==> IdOf(o).value == (if r.value.BytesV? then Some(r.value.b) else None)
  {
    match FieldByName(o, IdFieldName)
    case None => Failure(NoIdField)
    case Some(w) => if w.IsByteSlice() then Success(w) else Failure(IdNotBytes)
  }

  /** The record with every field named Id set to id (id.SetBytes). */
  function WithId(o: Obj, id: Bytes): (r: Obj)
    ensures r.typeName == o.typeName && |r.fields| == |o.fields|
    ensures forall i :: 0 <= i < |o.fields| ==>
      r.fields[i] == if o.fields[i].name == IdFieldName then o.fields[i].(value := BytesV(id)) else o.fields[i]
  {
    Obj(o.typeName, seq(|o.fields|, i requires 0 <= i < |o.fields| =>
      if o.fields[i].name == IdFieldName then o.fields[i].(value := BytesV(id)) else o.fields[i]))
  }

  /** Setting the Id of a record that has one makes it read back. */
  lemma WithIdReads(o: Obj, id: Bytes)
    requires IdOf(o).Success?
    ensures IdOf(WithId(o, id)) == Success(Some(id))
  {
    var r := WithId(o, id);
    WithIdFieldFrom(o.fields, r.fields, id);
  }

  lemma {:induction false} WithIdFieldFrom(fs: seq<Field>, gs: seq<Field>, id: Bytes)
    requires |fs| == |gs|
    requires forall i :: 0 <= i < |fs| ==>
      gs[i] == if fs[i].name == IdFieldName then fs[i].(value := BytesV(id)) else fs[i]
    requires FieldFrom(fs, IdFieldName).Some?
    ensures FieldFrom(gs, IdFieldName) == Some(BytesV(id))
    decreases |fs|
  {
    if fs[0].name != IdFieldName {
      WithIdFieldFrom(fs[1..], gs[1..], id);
    }
  }
}
