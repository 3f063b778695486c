/**
  kol/query.go: filters, the set operations they become, the same filters
  evaluated on one record, and queries. The set-operation engine is a
  parameter: it maps a set-operation tree to the stored values of its result
  keys, in key order.
*/
module KolQuery {
  import opened KeyCodec
  import opened Wrappers
  import opened KolRecord
  import opened KolStore
  import opened KolIndex
  import opened ByteText

  /** A qFilter. Join.Match is the record whose field is matched. */
  datatype Filter =
    | Or(children: seq<Filter>)
    | And(children: seq<Filter>)
    | Equals(field: Bytes, value: Value)
    | Join(matchRec: Obj, matchField: Bytes, idField: Bytes)

  datatype OpType = Union | Intersection | Difference

  /** A setop.SetOpSource: a key whose children are the members, or a set
      operation over sources. Every operation built here merges with
      setop.First, so that field is not kept. */
  datatype Source = Leaf(key: Bytes) | SetOp(op: OpType, sources: seq<Source>)

  // ---------------------------------------------------------------------------
  // source
  // ---------------------------------------------------------------------------

  /** The source of a filter over records of type typeName
      (kol/query.go:20-34, 48-62, 81-99, 134-144). */
  function SourceOf(f: Filter, typeName: Bytes): (r: Result<Source, KolError>)
    ensures f.Equals? ==> (r.Success? <==> !f.value.Other?) && (r.Success? ==> r.value.Leaf?)
    ensures f.Join? && r.Success? ==> r.value.Leaf? && FieldByName(f.matchRec, f.matchField).Some?
    ensures f.Or? ==> (r.Success? <==> forall i :: 0 <= i < |f.children| ==> SourceOf(f.children[i], typeName).Success?)
    ensures f.And? ==> (r.Success? <==> forall i :: 0 <= i < |f.children| ==> SourceOf(f.children[i], typeName).Success?)
    ensures f.Or? && r.Success? ==> r.value.SetOp? && r.value.op == Union && |r.value.sources| == |f.children|
    ensures f.And? && r.Success? ==> r.value.SetOp? && r.value.op == Intersection && |r.value.sources| == |f.children|
    decreases f, 1
  {
    match f
    case Or(cs) =>
      (match SourcesOf(cs, typeName)
       case Failure(e) => Failure(e)
       case Success(ss) => Success(SetOp(Union, ss)))
    case And(cs) =>
      (match SourcesOf(cs, typeName)
       case Failure(e) => Failure(e)
       case Success(ss) => Success(SetOp(Intersection, ss)))
    case Equals(field, v) =>
      (match IndexBytes(v)
       case Failure(e) => Failure(e)
       case Success(b) => Success(Leaf(KeyCodec.Join([SecondaryIndex, typeName, field, b]))))
    case Join(m, mf, idf) =>
      if IdOf(m).Failure? then Failure(IdOf(m).error)
      else match FieldByName(m, mf)
        case None => Failure(NoSuchField(mf))
        case Some(mv) =>
          match IndexBytes(mv)
          case Failure(e) => Failure(e)
          case Success(b) => Success(Leaf(KeyCodec.Join([ForeignIndex, m.typeName, mf, idf, b])))
  }

  /** The children's sources in order; the first error stops the loop. */
  function SourcesOf(cs: seq<Filter>, typeName: Bytes): (r: Result<seq<Source>, KolError>)
    ensures r.Success? <==> forall i :: 0 <= i < |cs| ==> SourceOf(cs[i], typeName).Success?
    ensures r.Success? ==> |r.value| == |cs| && forall i :: 0 <= i < |cs| ==> SourceOf(cs[i], typeName) == Success(r.value[i])
    decreases cs, 0
  {
    if |cs| == 0 then Success([])
    else match SourceOf(cs[0], typeName)
      case Failure(e) => Failure(e)
      case Success(s) =>
        match SourcesOf(cs[1..], typeName)
        case Failure(e) =>
          assert exists i :: 0 <= i < |cs| - 1 && SourceOf(cs[1..][i], typeName).Failure?;
          Failure(e)
        case Success(ss) => Success([s] + ss)
  }

  /** Equals.source is the index key of indexKey without its id: the index key
      of every record whose field holds the value is that key followed by the
      record's id (kol/query.go:134-144, kol/index.go:49-62). */
  lemma EqualsSourceHoldsIndexKeys(typeName: Bytes, field: Bytes, v: Value, id: Bytes)
    requires SourceOf(Equals(field, v), typeName).Success?
    ensures SourceOf(Equals(field, v), typeName).value.Leaf?
    ensures IndexKey(id, typeName, field, v).Success?
    ensures KeyCodec.Join(IndexKey(id, typeName, field, v).value) == SourceOf(Equals(field, v), typeName).value.key + Escape(id)
  {
    var b := IndexBytes(v).value;
    assert IndexKey(id, typeName, field, v).value == [SecondaryIndex, typeName, field, b] + [id];
    JoinAppend([SecondaryIndex, typeName, field, b], [id]);
    EscapeIsJoin(id);
  }

  /** Join.source is the foreignKey prefix: every foreign key a record of the
      matched type derives from the matched field's value is that key followed
      by the referenced id and the record's own id (kol/query.go:81-99,
      kol/index.go:64-87). */
  lemma JoinSourceHoldsForeignKeys(typeName: Bytes, m: Obj, mf: Bytes, idf: Bytes, idPart: Bytes, id: Bytes)
    requires SourceOf(Join(m, mf, idf), typeName).Success?
    ensures FieldByName(m, mf).Some?
    ensures ForeignKey(id, idPart, m.typeName, mf, idf, FieldByName(m, mf).value).Success?
    ensures KeyCodec.Join(ForeignKey(id, idPart, m.typeName, mf, idf, FieldByName(m, mf).value).value) ==
            SourceOf(Join(m, mf, idf), typeName).value.key + Escape(idPart) + Escape(id)
  {
    var mv := FieldByName(m, mf).value;
    var b := IndexBytes(mv).value;
    assert ForeignKey(id, idPart, m.typeName, mf, idf, mv).value == [ForeignIndex, m.typeName, mf, idf, b] + ([idPart] + [id]);
    JoinAppend([ForeignIndex, m.typeName, mf, idf, b], [idPart] + [id]);
    JoinAppend([idPart], [id]);
    EscapeIsJoin(idPart);
    EscapeIsJoin(id);
  }

  // ---------------------------------------------------------------------------
  // match
  // ---------------------------------------------------------------------------

  /** Both values have one Go kind, so one reflect accessor reads both. */
  predicate SameKind(v: Value, w: Value) {
    (v.StrV? && w.StrV?) || (v.IntV? && w.IntV?) || (v.IsByteSlice() && w.IsByteSlice()) || (v.BoolV? && w.BoolV?)
  }

  /** reflect.Value.String on a value that is not a string: "<T Value>" with
      T the Go type, and "<invalid Value>" for a missing field. */
  function StringOf(field: Option<Value>): (r: Bytes)
    ensures field.Some? && field.value.StrV? ==> r == field.value.s
    ensures field.None? ==> r == Ascii("<invalid Value>")
  {
    match field
    case None => Ascii("<invalid Value>")
    case Some(StrV(s)) => s
    case Some(IntV(_)) => Ascii("<int Value>")
    case Some(BytesV(_)) => Ascii("<[]uint8 Value>")
    case Some(NilBytes) => Ascii("<[]uint8 Value>")
    case Some(BoolV(_)) => Ascii("<bool Value>")
    case Some(Other(t)) => Ascii("<") + t + Ascii(" Value>")
  }

  /** indexBytes of a record's field read at the filter value's type
      (kol/query.go:154, kol/index.go:20-47). A string filter reads the field
      with String, which never fails; the other kinds read it with an accessor
      that fails on a missing field or one of another kind. */
  function FieldBytesAs(v: Value, field: Option<Value>, name: Bytes): (r: Result<Bytes, KolError>)
    ensures v.StrV? ==> r == Success(StringOf(field))
    ensures !v.StrV? && field.None? ==> r == Failure(NoSuchField(name))
    ensures !v.StrV? && field.Some? && !SameKind(v, field.value) ==> r == Failure(KindMismatch)
    ensures field.Some? && SameKind(v, field.value) ==> r == IndexBytes(field.value)
  {
    if v.StrV? then Success(StringOf(field))
    else match field
      case None => Failure(NoSuchField(name))
      case Some(w) => if SameKind(v, w) then IndexBytes(w) else Failure(KindMismatch)
  }

  /** What Join.match reads before it queries (kol/query.go:103-122): the
      match record's identity, its match field, that field's index bytes, and
      the record's Id. */
  function JoinReads(m: Obj, mf: Bytes, o: Obj): (r: Result<(Bytes, Value), KolError>)
    ensures r.Success? <==> IdOf(m).Success? && FieldByName(m, mf).Some? &&
                            IndexBytes(FieldByName(m, mf).value).Success? && IdValue(o).Success?
    ensures r.Success? ==> r.value == (IndexBytes(FieldByName(m, mf).value).value, IdValue(o).value)
  {
    if IdOf(m).Failure? then Failure(IdOf(m).error)
    else match FieldByName(m, mf)
      case None => Failure(NoSuchField(mf))
      case Some(mv) =>
        match IndexBytes(mv)
        case Failure(e) => Failure(e)
        case Success(mb) =>
          match IdValue(o)
          case Failure(e) => Failure(e)
          case Success(idv) => Success((mb, idv))
  }

  /** Whether filter f holds for record o of type typeName
      (kol/query.go:36-43, 64-72, 101-126, 146-159). */
  function Matches(f: Filter, typeName: Bytes, o: Obj): (r: Result<bool, KolError>)
    ensures f.Join? ==> r.Failure?
    ensures f.Equals? && f.value.Other? ==> r == Failure(NotIndexable(f.value.typeName))
    ensures f.Equals? && f.value.StrV? ==> r == Success(f.value.s == StringOf(FieldByName(o, f.field)))
    ensures f.Or? && |f.children| == 0 ==> r == Success(false)
    ensures f.And? && |f.children| == 0 ==> r == Success(true)
    decreases f, 1
  {
    match f
    case Or(cs) => AnyMatches(cs, typeName, o)
    case And(cs) => AllMatch(cs, typeName, o)
    case Equals(field, v) =>
      (match IndexBytes(v)
       case Failure(e) => Failure(e)
       case Success(sb) =>
         match FieldBytesAs(v, FieldByName(o, field), field)
         case Failure(e) => Failure(e)
         case Success(ob) => Success(sb == ob))
    case Join(m, mf, idf) =>
      // First is handed reflect.New(typ), a reflect.Value, and identify
      // rejects it: the query is never run.
      match JoinReads(m, mf, o)
      case Failure(e) => Failure(e)
      case Success(_) => Failure(NotReference)
  }

  /** Or.match: the first child that matches or fails decides; false when
      none does. */
  function AnyMatches(cs: seq<Filter>, typeName: Bytes, o: Obj): Result<bool, KolError>
    decreases cs, 0
  {
    if |cs| == 0 then Success(false)
    else match Matches(cs[0], typeName, o)
      case Failure(e) => Failure(e)
      case Success(b) => if b then Success(true) else AnyMatches(cs[1..], typeName, o)
  }

  /** And.match: the first child that does not match or fails decides; true
      when none does. */
  function AllMatch(cs: seq<Filter>, typeName: Bytes, o: Obj): Result<bool, KolError>
    decreases cs, 0
  {
    if |cs| == 0 then Success(true)
    else match Matches(cs[0], typeName, o)
      case Failure(e) => Failure(e)
      case Success(b) => if !b then Success(false) else AllMatch(cs[1..], typeName, o)
  }

  /** Or.match stops at the first child that matches or fails and returns what
      it returned; when every child is false, it is false (so an empty Or is
      false). */
  lemma {:induction false} AnyMatchesFirstDecisive(cs: seq<Filter>, typeName: Bytes, o: Obj, j: nat)
    requires j <= |cs|
    requires forall i :: 0 <= i < j ==> Matches(cs[i], typeName, o) == Success(false)
    requires j < |cs| ==> Matches(cs[j], typeName, o) != Success(false)
    ensures AnyMatches(cs, typeName, o) == if j == |cs| then Success(false) else Matches(cs[j], typeName, o)
    decreases j
  {
    if j > 0 {
      AnyMatchesFirstDecisive(cs[1..], typeName, o, j - 1);
    }
  }

  /** And.match stops at the first child that does not match or fails and
      returns what it returned; when every child is true, it is true (so an
      empty And is true). */
  lemma {:induction false} AllMatchFirstDecisive(cs: seq<Filter>, typeName: Bytes, o: Obj, j: nat)
    requires j <= |cs|
    requires forall i :: 0 <= i < j ==> Matches(cs[i], typeName, o) == Success(true)
    requires j < |cs| ==> Matches(cs[j], typeName, o) != Success(true)
    ensures AllMatch(cs, typeName, o) == if j == |cs| then Success(true) else Matches(cs[j], typeName, o)
    decreases j
  {
    if j > 0 {
      AllMatchFirstDecisive(cs[1..], typeName, o, j - 1);
    }
  }

  /** Without errors, Or is "some child matches" and And is "every child
      matches". */
  lemma OrAndMeaning(cs: seq<Filter>, typeName: Bytes, o: Obj)
    requires forall i :: 0 <= i < |cs| ==> Matches(cs[i], typeName, o).Success?
    ensures AnyMatches(cs, typeName, o) == Success(exists i :: 0 <= i < |cs| && Matches(cs[i], typeName, o).value)
    ensures AllMatch(cs, typeName, o) == Success(forall i :: 0 <= i < |cs| ==> Matches(cs[i], typeName, o).value)
  {
    var j := FirstWith(cs, typeName, o, true, 0);
    AnyMatchesFirstDecisive(cs, typeName, o, j);
    var k := FirstWith(cs, typeName, o, false, 0);
    AllMatchFirstDecisive(cs, typeName, o, k);
  }

  /** The first child from i on whose match is Success(b), or |cs|. */
  lemma {:induction false} FirstWith(cs: seq<Filter>, typeName: Bytes, o: Obj, b: bool, i: nat)
    returns (j: nat)
    requires i <= |cs|
    requires forall k :: 0 <= k < |cs| ==> Matches(cs[k], typeName, o).Success?
    requires forall k :: 0 <= k < i ==> Matches(cs[k], typeName, o) == Success(!b)
    ensures i <= j <= |cs|
    ensures forall k :: 0 <= k < j ==> Matches(cs[k], typeName, o) == Success(!b)
    ensures j < |cs| ==> Matches(cs[j], typeName, o) == Success(b)
    decreases |cs| - i
  {
    if i == |cs| || Matches(cs[i], typeName, o) == Success(b) {
      j := i;
    } else {
      var m := Matches(cs[i], typeName, o);
      assert m.Success? && m.value != b;
      assert m == Success(!b);
      j := FirstWith(cs, typeName, o, b, i + 1);
    }
  }

  /** Equals.match and Equals.source agree: a record whose field has the
      filter value's kind matches exactly when its index key lies under the
      filter's source key. */
  lemma EqualsMatchIffIndexed(typeName: Bytes, field: Bytes, v: Value, o: Obj, w: Value, id: Bytes)
    requires !v.Other? && FieldByName(o, field) == Some(w) && SameKind(v, w)
    ensures SourceOf(Equals(field, v), typeName).Success? && IndexKey(id, typeName, field, w).Success?
    ensures Matches(Equals(field, v), typeName, o) == Success(true) <==>
            KeyCodec.Join(IndexKey(id, typeName, field, w).value) == SourceOf(Equals(field, v), typeName).value.key + Escape(id)
  {
    EqualsSourceHoldsIndexKeys(typeName, field, v, id);
    var kv := IndexKey(id, typeName, field, v).value;
    var kw := IndexKey(id, typeName, field, w).value;
    if KeyCodec.Join(kw) == KeyCodec.Join(kv) {
      JoinInjective(kw, kv);
      assert kw[3] == kv[3];
    }
  }

  /** A record whose field is tagged index and matches an Equals filter on it
      holds, among the keys indexKeys derives, one under the filter's source:
      the scan of that source finds the record (kol/index.go:93-107,
      kol/query.go:36-50). */
  lemma IndexedRecordFound(id: Bytes, o: Obj, k: nat, j: nat, v: Value)
    requires DistinctNames(o) && IndexKeysSpec(id, o).Success?
    requires k < |o.fields| && o.fields[k].tag != [] && j < |SplitOn(o.fields[k].tag, Comma)|
    requires SplitOn(o.fields[k].tag, Comma)[j] == IndexParam
    requires !v.Other? && SameKind(v, o.fields[k].value)
    requires Matches(Equals(o.fields[k].name, v), o.typeName, o) == Success(true)
    ensures SourceOf(Equals(o.fields[k].name, v), o.typeName).Success?
    ensures exists key ::
      && key in IndexKeysSpec(id, o).value
      && KeyCodec.Join(key) == SourceOf(Equals(o.fields[k].name, v), o.typeName).value.key + Escape(id)
  {
    var f := o.fields[k];
    IndexKeysComplete(id, o, k, j);
    FieldByNameAt(o, k);
    EqualsMatchIffIndexed(o.typeName, f.name, v, o, f.value, id);
    var key := IndexKey(id, o.typeName, f.name, f.value).value;
    assert key in IndexKeysSpec(id, o).value;
  }

  // ---------------------------------------------------------------------------
  // Query
  // ---------------------------------------------------------------------------

  /** The primary-key collection of a type: ["pk", type name]. */
  function PkCollection(typeName: Bytes): Bytes {
    KeyCodec.Join([PrimaryKey, typeName])
  }

  /** The tree Query.each evaluates (kol/query.go:216-248). */
  function QuerySource(typeName: Bytes, where: Option<Filter>, except: Option<Filter>): (r: Result<Source, KolError>)
    ensures r.Failure? <==> (where.Some? && SourceOf(where.value, typeName).Failure?) ||
                            (except.Some? && SourceOf(except.value, typeName).Failure?)
    ensures r.Success? && except.None? ==>
      r.value == SetOp(Intersection, (if where.Some? then [Leaf(PkCollection(typeName)), SourceOf(where.value, typeName).value] else [Leaf(PkCollection(typeName))]))
    ensures r.Success? && except.Some? ==>
      r.value == SetOp(Difference, [SetOp(Intersection, (if where.Some? then [Leaf(PkCollection(typeName)), SourceOf(where.value, typeName).value] else [Leaf(PkCollection(typeName))])),
                                    SourceOf(except.value, typeName).value])
  {
    var pk := Leaf(PkCollection(typeName));
    var inter :=
      match where
      case None => Success([pk])
      case Some(w) =>
        match SourceOf(w, typeName)
        case Failure(e) => Failure(e)
        case Success(s) => Success([pk, s]);
    match inter
    case Failure(e) => Failure(e)
    case Success(ss) =>
      match except
      case None => Success(SetOp(Intersection, ss))
      case Some(x) =>
        match SourceOf(x, typeName)
        case Failure(e) => Failure(e)
        case Success(s) => Success(SetOp(Difference, [SetOp(Intersection, ss), s]))
  }

  /** What a set operation denotes once each key's members are known: the
      intended meaning of Union, Intersection and Difference over the children
      of keys. */
  function Denote(s: Source, members: Bytes -> set<Bytes>): set<Bytes>
    decreases s, 1
  {
    match s
    case Leaf(k) => members(k)
    case SetOp(Union, ss) => UnionOf(ss, members)
    case SetOp(Intersection, ss) => if |ss| == 0 then {} else InterOf(ss, members)
    case SetOp(Difference, ss) => if |ss| == 0 then {} else Denote(ss[0], members) - UnionOf(ss[1..], members)
  }

  function UnionOf(ss: seq<Source>, members: Bytes -> set<Bytes>): set<Bytes>
    decreases ss, 0
  {
    if |ss| == 0 then {} else Denote(ss[0], members) + UnionOf(ss[1..], members)
  }

  function InterOf(ss: seq<Source>, members: Bytes -> set<Bytes>): set<Bytes>
    requires |ss| > 0
    decreases ss, 0
  {
    if |ss| == 1 then Denote(ss[0], members) else Denote(ss[0], members) * InterOf(ss[1..], members)
  }

  /** A query denotes the stored records of its type, cut down to those under
      its Where source and stripped of those under its Except source. */
  lemma QueryDenotes(typeName: Bytes, where: Option<Filter>, except: Option<Filter>, members: Bytes -> set<Bytes>)
    requires QuerySource(typeName, where, except).Success?
    ensures where.Some? ==> SourceOf(where.value, typeName).Success?
    ensures except.Some? ==> SourceOf(except.value, typeName).Success?
    ensures Denote(QuerySource(typeName, where, except).value, members) ==
      members(PkCollection(typeName))
      * (if where.Some? then Denote(SourceOf(where.value, typeName).value, members) else members(PkCollection(typeName)))
      - (if except.Some? then Denote(SourceOf(except.value, typeName).value, members) else {})
  {
    var pk := Leaf(PkCollection(typeName));
    var ss := if where.Some? then [pk, SourceOf(where.value, typeName).value] else [pk];
    var inter := members(PkCollection(typeName)) *
      (if where.Some? then Denote(SourceOf(where.value, typeName).value, members) else members(PkCollection(typeName)));
    assert Denote(SetOp(Intersection, ss), members) == inter by {
      assert Denote(ss[0], members) == members(PkCollection(typeName));
      if where.Some? {
        var w := SourceOf(where.value, typeName).value;
        assert ss[1..] == [w];
        assert InterOf([w], members) == Denote(w, members);
        assert InterOf(ss, members) == Denote(ss[0], members) * Denote(w, members);
      } else {
        assert InterOf(ss, members) == Denote(ss[0], members);
      }
    }
    if except.Some? {
      var x := SourceOf(except.value, typeName).value;
      assert [SetOp(Intersection, ss), x][1..] == [x];
      assert [x][1..] == [];
      assert UnionOf([x], members) == Denote(x, members) + UnionOf([], members);
    }
  }

  /** Query.match (kol/query.go:197-214) on the query's type, Where and Except
      filters. */
  function QueryMatch(qType: Bytes, where: Option<Filter>, except: Option<Filter>, typeName: Bytes, o: Obj): (r: Result<bool, KolError>)
    ensures qType != typeName ==> r == Success(false)
    ensures r == Success(true) ==> qType == typeName && (where.Some? ==> Matches(where.value, typeName, o) == Success(true))
    ensures r.Failure? ==>
      && qType == typeName
      && ((where.Some? && Matches(where.value, typeName, o).Failure?) || (except.Some? && Matches(except.value, typeName, o).Failure?))
    ensures qType == typeName && where.None? && except.None? ==> r == Success(true)
  {
    if qType != typeName then Success(false)
    else
      var w := if where.Some? then Matches(where.value, typeName, o) else Success(true);
      if w.Failure? || !w.value then w
      else if except.Some? && Matches(except.value, typeName, o).Failure? then Matches(except.value, typeName, o)
      else Success(true)
  }

  /** Query.match is false on another type or a failing Where filter and true
      when Where holds; the Except filter can add an error but never makes it
      false. */
  lemma QueryMatchMeaning(qType: Bytes, where: Option<Filter>, except: Option<Filter>, typeName: Bytes, o: Obj)
    ensures qType != typeName ==> QueryMatch(qType, where, except, typeName, o) == Success(false)
    ensures qType == typeName && where.Some? && Matches(where.value, typeName, o).Success? ==>
      QueryMatch(qType, where, None, typeName, o) == Matches(where.value, typeName, o)
    ensures qType == typeName && where.None? ==> QueryMatch(qType, where, None, typeName, o) == Success(true)
    ensures QueryMatch(qType, where, except, typeName, o) == Success(false) <==>
            QueryMatch(qType, where, None, typeName, o) == Success(false)
  {
  }

  /** A stored primary-key value read as a record of type typeName: a record
      document decodes, anything else is skipped (kol/query.go:252-253). */
  function Decode(typeName: Bytes, s: Stored): Option<Obj> {
    match s
    case Doc(fs) => Some(Obj(typeName, fs))
    case Blob(_) => None
  }

  /** The records of a result stream that decode, in order. */
  function Decoded(typeName: Bytes, rs: seq<Stored>): (d: seq<Obj>)
    ensures |d| <= |rs|
    ensures forall x :: x in d <==> x.typeName == typeName && Doc(x.fields) in rs
    decreases |rs|
  {
    if |rs| == 0 then []
    else
      var rest := Decoded(typeName, rs[1..]);
      assert forall s :: s in rs <==> s == rs[0] || s in rs[1..];
      match Decode(typeName, rs[0])
      case None => rest
      case Some(x) => [x] + rest
  }

  /** First (kol/query.go:274-287): the first decoded result, if any. */
  function FirstSpec(typeName: Bytes, where: Option<Filter>, except: Option<Filter>, engine: Source -> seq<Stored>): Result<Option<Obj>, KolError> {
    match QuerySource(typeName, where, except)
    case Failure(e) => Failure(e)
    case Success(src) =>
      var d := Decoded(typeName, engine(src));
      Success(if |d| == 0 then None else Some(d[0]))
  }

  /** All (kol/query.go:289-322): the decoded results appended to acc. */
  function AllSpec(typeName: Bytes, where: Option<Filter>, except: Option<Filter>, engine: Source -> seq<Stored>, acc: seq<Obj>): Result<seq<Obj>, KolError> {
    match QuerySource(typeName, where, except)
    case Failure(e) => Failure(e)
    case Success(src) => Success(acc + Decoded(typeName, engine(src)))
  }

  /** First finds the record All would put first, and finds nothing exactly
      when All adds nothing. */
  lemma FirstIsHeadOfAll(typeName: Bytes, where: Option<Filter>, except: Option<Filter>, engine: Source -> seq<Stored>, acc: seq<Obj>)
    ensures FirstSpec(typeName, where, except, engine).Failure? <==> AllSpec(typeName, where, except, engine, acc).Failure?
    ensures FirstSpec(typeName, where, except, engine).Success? ==>
      var all := AllSpec(typeName, where, except, engine, acc).value;
      && acc <= all
      && (FirstSpec(typeName, where, except, engine).value.None? <==> all == acc)
      && (FirstSpec(typeName, where, except, engine).value.Some? ==> all[|acc|] == FirstSpec(typeName, where, except, engine).value.value)
  {
  }

  /** Join.match as its design intends: after the same reads, a record
      matches when the query for records of its type whose match field holds
      the match value and whose id field holds the record's Id finds one. */
  function IntendedJoinMatch(m: Obj, mf: Bytes, idf: Bytes, typeName: Bytes, o: Obj, engine: Source -> seq<Stored>): Result<bool, KolError> {
    match JoinReads(m, mf, o)
    case Failure(e) => Failure(e)
    case Success((mb, idv)) =>
      match FirstSpec(typeName, Some(And([Equals(mf, BytesV(mb)), Equals(idf, idv)])), None, engine)
      case Failure(e) => Failure(e)
      case Success(r) => Success(r.Some?)
  }

  /** The intended Join.match holds exactly when the query's result stream
      holds a stored record, while the Join.match of the code fails after the
      same reads. */
  lemma JoinMatchMeaning(m: Obj, mf: Bytes, idf: Bytes, typeName: Bytes, o: Obj, engine: Source -> seq<Stored>,
                         mv: Value, mb: Bytes, idv: Value)
    requires IdOf(m).Success?
    requires FieldByName(m, mf) == Some(mv)
    requires IndexBytes(mv) == Success(mb)
    requires IdValue(o) == Success(idv)
    requires QuerySource(typeName, Some(And([Equals(mf, BytesV(mb)), Equals(idf, idv)])), None).Success?
    ensures var src := QuerySource(typeName, Some(And([Equals(mf, BytesV(mb)), Equals(idf, idv)])), None).value;
      IntendedJoinMatch(m, mf, idf, typeName, o, engine) == Success(exists fs :: Doc(fs) in engine(src))
    ensures Matches(Join(m, mf, idf), typeName, o) == Failure(NotReference)
  {
    var src := QuerySource(typeName, Some(And([Equals(mf, BytesV(mb)), Equals(idf, idv)])), None).value;
    var d := Decoded(typeName, engine(src));
    assert JoinReads(m, mf, o) == Success((mb, idv));
    assert FirstSpec(typeName, Some(And([Equals(mf, BytesV(mb)), Equals(idf, idv)])), None, engine)
      == Success(if |d| == 0 then None else Some(d[0]));
    if exists fs :: Doc(fs) in engine(src) {
      var fs :| Doc(fs) in engine(src);
      assert Obj(typeName, fs) in d;
    }
    if |d| > 0 {
      assert d[0] in d;
      assert Doc(d[0].fields) in engine(src);
    }
  }

  /** A Join filter never lets a record match: a query whose Where filter is a
      Join is false on records of other types and an error on its own type. */
  lemma QueryJoinNeverMatches(qType: Bytes, m: Obj, mf: Bytes, idf: Bytes, except: Option<Filter>, typeName: Bytes, o: Obj)
    ensures qType != typeName ==> QueryMatch(qType, Some(Join(m, mf, idf)), except, typeName, o) == Success(false)
    ensures qType == typeName ==> QueryMatch(qType, Some(Join(m, mf, idf)), except, typeName, o).Failure?
  {
  }

  /** A query under construction (kol/query.go:166-171). */
  class Query {
    var typeName: Bytes
    var intersection: Option<Filter>
    var difference: Option<Filter>

    constructor (typeName: Bytes)
      ensures this.typeName == typeName && intersection.None? && difference.None?
    {
      this.typeName := typeName;
      intersection := None;
      difference := None;
    }

    /** Where (kol/query.go:268-272): replaces any earlier Where filter. */
    method Where(f: Filter)
      modifies this
      ensures intersection == Some(f)
      ensures typeName == old(typeName) && difference == old(difference)
    {
      intersection := Some(f);
    }

    /** Except (kol/query.go:262-266): replaces any earlier Except filter. */
    method Except(f: Filter)
      modifies this
      ensures difference == Some(f)
      ensures typeName == old(typeName) && intersection == old(intersection)
    {
      difference := Some(f);
    }

    /** First (kol/query.go:274-287): sets the query's type from the result,
        then stops at the first result that decodes. */
    method First(resultType: Bytes, engine: Source -> seq<Stored>) returns (r: Result<Option<Obj>, KolError>)
      modifies this
      ensures typeName == resultType && intersection == old(intersection) && difference == old(difference)
      ensures r == FirstSpec(resultType, intersection, difference, engine)
    {
      typeName := resultType;
      var src := QuerySource(typeName, intersection, difference);
      if src.Failure? {
        return Failure(src.error);
      }
      var rs := engine(src.value);
      var i := 0;
      while i < |rs|
        invariant i <= |rs|
        invariant Decoded(typeName, rs) == Decoded(typeName, rs[i..])
      {
        assert rs[i..][0] == rs[i] && rs[i..][1..] == rs[i + 1..];
        var x := Decode(typeName, rs[i]);
        if x.Some? {
          return Success(x);
        }
        i := i + 1;
      }
      assert rs[i..] == [];
      r := Success(None);
    }

    /** All (kol/query.go:289-322): sets the query's type from the result
        slice and appends every result that decodes to it. */
    method All(resultType: Bytes, engine: Source -> seq<Stored>, acc: seq<Obj>) returns (r: Result<seq<Obj>, KolError>)
      modifies this
      ensures typeName == resultType && intersection == old(intersection) && difference == old(difference)
      ensures r == AllSpec(resultType, intersection, difference, engine, acc)
    {
      typeName := resultType;
      var src := QuerySource(typeName, intersection, difference);
      if src.Failure? {
        return Failure(src.error);
      }
      var rs := engine(src.value);
      var out := acc;
      for i := 0 to |rs|
        invariant out + Decoded(typeName, rs[i..]) == acc + Decoded(typeName, rs)
      {
        assert rs[i..][0] == rs[i] && rs[i..][1..] == rs[i + 1..];
        var x := Decode(typeName, rs[i]);
        if x.Some? {
          out := out + [x.value];
        }
      }
      assert rs[|rs|..] == [];
      assert out + Decoded(typeName, rs[|rs|..]) == out;
      r := Success(out);
    }
  }
}
