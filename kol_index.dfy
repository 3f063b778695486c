/**
  kol/index.go: the secondary-index and foreign-key entries a record adds to
  the store, and the loops that write and remove them.
*/
module KolIndex {
  import opened KeyCodec
  import opened Wrappers
  import opened ByteText
  import opened KolRecord
  import opened KolStore

  const IndexParam: Bytes := [105, 110, 100, 101, 120]  // "index"
  const SecondaryIndex: Bytes := [50, 105]              // "2i"
  const ForeignIndex: Bytes := [102, 105]               // "fi"
  const Comma: Byte := 44                               // ','
  const FkOpen: Bytes := [102, 107, 60]                 // "fk<"
  const FkClose: Byte := 62                             // '>'

  // ---------------------------------------------------------------------------
  // indexBytes
  // ---------------------------------------------------------------------------

  function Pow256(w: nat): nat {
    if w == 0 then 1 else 256 * Pow256(w - 1)
  }

  /** n as w big-endian bytes (binary.Write with binary.BigEndian). */
  function BeFixed(n: nat, w: nat): (b: Bytes)
    ensures |b| == w
  {
    if w == 0 then [] else BeFixed(n / 256, w - 1) + [n % 256]
  }

  lemma {:induction false} BeFixedValue(n: nat, w: nat)
    requires n < Pow256(w)
    ensures BeToNat(BeFixed(n, w)) == n
  {
    if w > 0 {
      BeFixedValue(n / 256, w - 1);
      var b := BeFixed(n, w);
      assert b[..|b| - 1] == BeFixed(n / 256, w - 1);
    }
  }

  /** Big-endian bytes of one width sort as the numbers do. */
  lemma {:induction false} BeFixedOrder(a: nat, b: nat, w: nat)
    requires a < b < Pow256(w)
    ensures Below(BeFixed(a, w), BeFixed(b, w))
  {
    if a / 256 < b / 256 {
      BeFixedOrder(a / 256, b / 256, w - 1);
      BelowEqualLengthAppend(BeFixed(a / 256, w - 1), BeFixed(b / 256, w - 1), [a % 256], [b % 256]);
    } else {
      BelowCommonPrefix(BeFixed(a / 256, w - 1), [a % 256], [b % 256]);
    }
  }

  const Two64: nat := 0x1_0000_0000_0000_0000

  lemma Pow256Eight()
    ensures Pow256(8) == Two64
  {
    assert Pow256(2) == 0x1_0000;
    assert Pow256(4) == 0x1_0000_0000;
    assert Pow256(6) == 0x1_0000_0000_0000;
  }

  /** The two's-complement bit pattern of i. */
  function Unsigned(i: Int64): nat {
    if i < 0 then i + Two64 else i
  }

  /** The int64 in 8 big-endian two's-complement bytes. */
  function Int64Bytes(i: Int64): (b: Bytes)
    ensures |b| == 8
  {
    BeFixed(Unsigned(i), 8)
  }

  /** Reading 8 bytes back as a big-endian two's-complement int64. */
  function Int64Of(b: Bytes): int {
    var u := BeToNat(b);
    if u >= 0x8000_0000_0000_0000 then u - Two64 else u
  }

  /** The index bytes of an int decode to it. */
  lemma Int64RoundTrip(i: Int64)
    ensures Int64Of(Int64Bytes(i)) == i
  {
    Pow256Eight();
    BeFixedValue(Unsigned(i), 8);
  }

  /** Index bytes of ints keep their order within one sign, and every negative
      int sorts after every non-negative one. */
  lemma Int64Order(a: Int64, b: Int64)
    requires a < b
    ensures (a < 0 <==> b < 0) ==> Below(Int64Bytes(a), Int64Bytes(b))
    ensures a < 0 <= b ==> Below(Int64Bytes(b), Int64Bytes(a))
  {
    Pow256Eight();
    if a < 0 <= b {
      BeFixedOrder(Unsigned(b), Unsigned(a), 8);
    } else if a < 0 <==> b < 0 {
      BeFixedOrder(Unsigned(a), Unsigned(b), 8);
    }
  }

  /** indexBytes (kol/index.go:20-47): strings and []byte as they are (nil as
      empty), an int as 8 big-endian two's-complement bytes, a bool as one
      byte; every other kind is refused. */
  function IndexBytes(v: Value): (r: Result<Bytes, KolError>)
    ensures r.Success? <==> !v.Other?
    ensures v.Other? ==> r == Failure(NotIndexable(v.typeName))
    ensures v.IntV? ==> |r.value| == 8 && Int64Of(r.value) == v.i
    ensures v.BoolV? ==> |r.value| == 1 && (r.value[0] == 1 <==> v.v)
  {
    match v
    case StrV(s) => Success(s)
    case IntV(i) => Int64RoundTrip(i); Success(Int64Bytes(i))
    case BytesV(b) => Success(b)
    case NilBytes => Success([])
    case BoolV(x) => Success(if x then [1] else [0])
    case Other(t) => Failure(NotIndexable(t))
  }

  /** Two values of one indexable kind have the same index bytes only when
      they are equal (a nil and an empty []byte aside). */
  lemma IndexBytesInjective(v: Value, w: Value)
    requires IndexBytes(v).Success? && IndexBytes(v) == IndexBytes(w)
    requires (v.IntV? && w.IntV?) || (v.BoolV? && w.BoolV?) || (v.StrV? && w.StrV?) || (v.BytesV? && w.BytesV?)
    ensures v == w
  {
  }

  // ---------------------------------------------------------------------------
  // indexKey and foreignKey
  // ---------------------------------------------------------------------------

  /** indexKey (kol/index.go:49-62): ["2i", type, field, indexBytes(value), id]. */
  function IndexKey(id: Bytes, typeName: Bytes, fieldName: Bytes, v: Value): (r: Result<Parts, KolError>)
    ensures r.Success? <==> IndexBytes(v).Success?
    ensures r.Success? ==> |r.value| == 5 && r.value[0] == SecondaryIndex && r.value[1] == typeName &&
                           r.value[2] == fieldName && r.value[4] == id
  {
    match IndexBytes(v)
    case Failure(e) => Failure(e)
    case Success(b) => Success([SecondaryIndex, typeName, fieldName, b, id])
  }

  /** foreignKey (kol/index.go:64-87): ["fi", type, match field, id field,
      indexBytes(match value), id field bytes, id]. */
  function ForeignKey(id: Bytes, idPart: Bytes, typeName: Bytes, foreignFieldName: Bytes, idFieldName: Bytes, v: Value): (r: Result<Parts, KolError>)
    ensures r.Success? <==> IndexBytes(v).Success?
    ensures r.Success? ==> |r.value| == 7 && r.value[0] == ForeignIndex && r.value[1] == typeName &&
                           r.value[2] == foreignFieldName && r.value[3] == idFieldName && r.value[6] == id
  {
    match IndexBytes(v)
    case Failure(e) => Failure(e)
    case Success(b) => Success([ForeignIndex, typeName, foreignFieldName, idFieldName, b, idPart, id])
  }

  // ---------------------------------------------------------------------------
  // The fk<...> tag pattern
  // ---------------------------------------------------------------------------

  /** The pattern fk<([^>]+)> matches param at i with submatch t. */
  predicate MatchAt(param: Bytes, i: nat, t: Bytes) {
    i + 3 + |t| < |param| && param[i..i + 3] == FkOpen && |t| > 0 && FkClose !in t &&
    param[i + 3..i + 3 + |t|] == t && param[i + 3 + |t|] == FkClose
  }

  /** The first '>' at or after j, or the end. */
  function CloseFrom(param: Bytes, j: nat): (c: nat)
    ensures j <= c || j > |param|
    ensures c <= |param| || j > |param|
    ensures forall k :: j <= k < c && k < |param| ==> param[k] != FkClose
    ensures c < |param| ==> param[c] == FkClose
    decreases |param| - j
  {
    if j >= |param| then j else if param[j] == FkClose then j else CloseFrom(param, j + 1)
  }

  /** Leftmost match at or after i (FindStringSubmatch), with its position. */
  function FkMatchFrom(param: Bytes, i: nat): Option<(nat, Bytes)>
    decreases |param| - i
  {
    if i + 3 > |param| then None
    else if param[i..i + 3] == FkOpen && CloseFrom(param, i + 3) < |param| && CloseFrom(param, i + 3) > i + 3 then
      Some((i, param[i + 3..CloseFrom(param, i + 3)]))
    else FkMatchFrom(param, i + 1)
  }

  /** The submatch of fk<([^>]+)> in param, if the pattern matches. */
  function FkTarget(param: Bytes): Option<Bytes> {
    match FkMatchFrom(param, 0)
    case None => None
    case Some(m) => Some(m.1)
  }

  /** A match ends at the first '>' after "fk<". */
  lemma MatchAtClose(param: Bytes, i: nat, t: Bytes)
    requires MatchAt(param, i, t)
    ensures CloseFrom(param, i + 3) == i + 3 + |t|
  {
    forall k | i + 3 <= k < i + 3 + |t|
      ensures param[k] != FkClose
    {
      assert param[k] == t[k - i - 3];
    }
  }

  /** At one position the pattern has at most one match. */
  lemma MatchAtUnique(param: Bytes, i: nat, t: Bytes, u: Bytes)
    requires MatchAt(param, i, t) && MatchAt(param, i, u)
    ensures t == u
  {
    MatchAtClose(param, i, t);
    MatchAtClose(param, i, u);
  }

  /** No match starts in [lo, hi). */
  ghost predicate NoMatchBetween(param: Bytes, lo: nat, hi: nat) {
    forall k, t :: lo <= k < hi ==> !MatchAt(param, k, t)
  }

  /** Whether a match starts at i is decided by the first '>' after "fk<". */
  lemma MatchHere(param: Bytes, i: nat)
    requires i + 3 <= |param|
    ensures var c := CloseFrom(param, i + 3);
      if param[i..i + 3] == FkOpen && c < |param| && c > i + 3 then MatchAt(param, i, param[i + 3..c])
      else forall t :: !MatchAt(param, i, t)
  {
    var c := CloseFrom(param, i + 3);
    if param[i..i + 3] == FkOpen && c < |param| && c > i + 3 {
      MatchFound(param, i);
    } else {
      MatchCloses(param, i);
    }
  }

  /** "fk<", then a non-empty run up to the first '>', is a match. */
  lemma MatchFound(param: Bytes, i: nat)
    requires i + 3 <= |param|
    requires var c := CloseFrom(param, i + 3); param[i..i + 3] == FkOpen && i + 3 < c < |param|
    ensures MatchAt(param, i, param[i + 3..CloseFrom(param, i + 3)])
  {
    var t := param[i + 3..CloseFrom(param, i + 3)];
    forall k | 0 <= k < |t|
      ensures t[k] != FkClose
    {
      assert t[k] == param[i + 3 + k];
    }
  }

  /** Every match at i ends at the first '>' after "fk<". */
  lemma MatchCloses(param: Bytes, i: nat)
    requires i + 3 <= |param|
    ensures forall t :: MatchAt(param, i, t) ==> CloseFrom(param, i + 3) == i + 3 + |t|
  {
    forall t | MatchAt(param, i, t)
      ensures CloseFrom(param, i + 3) == i + 3 + |t|
    {
      MatchAtClose(param, i, t);
    }
  }

  /** What the scanner finds is a match, and no match starts earlier. */
  lemma {:induction false} FkMatchSound(param: Bytes, i: nat)
    requires FkMatchFrom(param, i).Some?
    ensures var m := FkMatchFrom(param, i).value;
      i <= m.0 && MatchAt(param, m.0, m.1) && NoMatchBetween(param, i, m.0)
    decreases |param| - i
  {
    MatchHere(param, i);
    var c := CloseFrom(param, i + 3);
    if !(param[i..i + 3] == FkOpen && c < |param| && c > i + 3) {
      FkMatchSound(param, i + 1);
    }
  }

  /** When the scanner finds nothing, nothing matches. */
  lemma {:induction false} FkMatchComplete(param: Bytes, i: nat)
    requires FkMatchFrom(param, i).None?
    ensures NoMatchBetween(param, i, |param|)
    decreases |param| - i
  {
    if i + 3 <= |param| {
      MatchHere(param, i);
      FkMatchComplete(param, i + 1);
    }
  }

  /** fk<F> yields the submatch of the leftmost match of the pattern; a param
      with no match yields nothing. */
  lemma FkTargetMatches(param: Bytes)
    ensures FkTarget(param).Some? ==>
      exists i :: MatchAt(param, i, FkTarget(param).value) && NoMatchBetween(param, 0, i)
    ensures FkTarget(param).None? <==> NoMatchBetween(param, 0, |param|)
  {
    if FkTarget(param).Some? {
      FkMatchSound(param, 0);
      var m := FkMatchFrom(param, 0).value;
      assert MatchAt(param, m.0, FkTarget(param).value);
    } else {
      FkMatchComplete(param, 0);
    }
  }

  lemma FkTargetOfTag(t: Bytes)
    requires |t| > 0 && FkClose !in t
    ensures FkTarget(FkOpen + t + [FkClose]) == Some(t)
  {
    var p := FkOpen + t + [FkClose];
    assert MatchAt(p, 0, t) by {
      assert p[0..3] == FkOpen;
      assert p[3..3 + |t|] == t;
    }
    MatchHere(p, 0);
    assert FkMatchFrom(p, 0).Some?;
    MatchAtUnique(p, 0, t, FkMatchFrom(p, 0).value.1);
  }

  // ---------------------------------------------------------------------------
  // indexKeys
  // ---------------------------------------------------------------------------

  /** The loop state of indexKeys: the keys so far and alreadyIndexed. */
  datatype Acc = Acc(indexed: seq<Parts>, already: set<Bytes>)

  /** One tag parameter of field f (kol/index.go:95-139). */
  function ParamStep(id: Bytes, o: Obj, f: Field, param: Bytes, acc: Acc): Result<Acc, KolError> {
    if param == IndexParam then
      if f.name in acc.already then Success(acc)
      else match IndexKey(id, o.typeName, f.name, f.value)
        case Failure(e) => Failure(e)
        case Success(k) => Success(Acc(acc.indexed + [k], acc.already + {f.name}))
    else match FkTarget(param)
      case None => Success(acc)
      case Some(target) =>
        if !f.value.IsByteSlice() then Failure(FkNotBytes(f.name))
        else match FieldByName(o, target)
          case None => Failure(FkNoField(f.name, target))
          case Some(mv) =>
            match ForeignKey(id, f.value.Bytes(), o.typeName, target, f.name, mv)
            case Failure(e) => Failure(e)
            case Success(fk) =>
              if target in acc.already then Success(Acc(acc.indexed + [fk], acc.already))
              else match IndexKey(id, o.typeName, target, mv)
                case Failure(e) => Failure(e)
                case Success(k) => Success(Acc(acc.indexed + [fk, k], acc.already + {target}))
  }

  /** The parameters of one tag, left to right, stopping at the first error. */
  function ParamsFold(id: Bytes, o: Obj, f: Field, params: seq<Bytes>, acc: Acc): Result<Acc, KolError>
    decreases |params|
  {
    if |params| == 0 then Success(acc)
    else match ParamStep(id, o, f, params[0], acc)
      case Failure(e) => Failure(e)
      case Success(a) => ParamsFold(id, o, f, params[1..], a)
  }

  /** One field: an empty tag adds nothing, otherwise its comma-separated params. */
  function FieldParams(id: Bytes, o: Obj, f: Field, acc: Acc): Result<Acc, KolError> {
    if f.tag == [] then Success(acc) else ParamsFold(id, o, f, SplitOn(f.tag, Comma), acc)
  }

  /** The fields from number i on. */
  function FieldsFold(id: Bytes, o: Obj, i: nat, acc: Acc): Result<Acc, KolError>
    decreases |o.fields| - i
  {
    if i >= |o.fields| then Success(acc)
    else match FieldParams(id, o, o.fields[i], acc)
      case Failure(e) => Failure(e)
      case Success(a) => FieldsFold(id, o, i + 1, a)
  }

  /** A field step's result, continued with the fields from number i on. */
  function ThenFields(r: Result<Acc, KolError>, id: Bytes, o: Obj, i: nat): Result<Acc, KolError> {
    match r
    case Failure(e) => Failure(e)
    case Success(a) => FieldsFold(id, o, i, a)
  }

  /** indexKeys (kol/index.go:89-144) as a function of the record. */
  function IndexKeysSpec(id: Bytes, o: Obj): Result<seq<Parts>, KolError> {
    match FieldsFold(id, o, 0, Acc([], {}))
    case Failure(e) => Failure(e)
    case Success(a) => Success(a.indexed)
  }

  /** An index key of the record (type name, id). */
  predicate Owned(k: Parts, typeName: Bytes, id: Bytes) {
    ((|k| == 5 && k[0] == SecondaryIndex) || (|k| == 7 && k[0] == ForeignIndex)) &&
    k[1] == typeName && k[|k| - 1] == id
  }

  /** The loop's invariant: every key belongs to the record, every 2i key is
      for a field already indexed, and no two 2i keys share a field. */
  predicate AccOk(acc: Acc, typeName: Bytes, id: Bytes) {
    && (forall i :: 0 <= i < |acc.indexed| ==> Owned(acc.indexed[i], typeName, id))
    && (forall i :: 0 <= i < |acc.indexed| && acc.indexed[i][0] == SecondaryIndex ==> acc.indexed[i][2] in acc.already)
    && (forall i, j :: 0 <= i < j < |acc.indexed| && acc.indexed[i][0] == SecondaryIndex && acc.indexed[j][0] == SecondaryIndex ==>
          acc.indexed[i][2] != acc.indexed[j][2])
  }

  lemma ParamStepOk(id: Bytes, o: Obj, f: Field, param: Bytes, acc: Acc)
    requires AccOk(acc, o.typeName, id)
    ensures ParamStep(id, o, f, param, acc).Success? ==> AccOk(ParamStep(id, o, f, param, acc).value, o.typeName, id)
  {
    assert SecondaryIndex != ForeignIndex;
  }

  lemma {:induction false} ParamsFoldOk(id: Bytes, o: Obj, f: Field, params: seq<Bytes>, acc: Acc)
    requires AccOk(acc, o.typeName, id)
    ensures ParamsFold(id, o, f, params, acc).Success? ==> AccOk(ParamsFold(id, o, f, params, acc).value, o.typeName, id)
    decreases |params|
  {
    if |params| > 0 {
      ParamStepOk(id, o, f, params[0], acc);
      if ParamStep(id, o, f, params[0], acc).Success? {
        ParamsFoldOk(id, o, f, params[1..], ParamStep(id, o, f, params[0], acc).value);
      }
    }
  }

  lemma {:induction false} FieldsFoldOk(id: Bytes, o: Obj, i: nat, acc: Acc)
    requires AccOk(acc, o.typeName, id)
    ensures FieldsFold(id, o, i, acc).Success? ==> AccOk(FieldsFold(id, o, i, acc).value, o.typeName, id)
    decreases |o.fields| - i
  {
    if i < |o.fields| {
      var f := o.fields[i];
      if f.tag != [] {
        ParamsFoldOk(id, o, f, SplitOn(f.tag, Comma), acc);
      }
      if FieldParams(id, o, f, acc).Success? {
        FieldsFoldOk(id, o, i + 1, FieldParams(id, o, f, acc).value);
      }
    }
  }

  /** Every key indexKeys derives is a five-part 2i key or a seven-part fi key
      of this record's type and id, and no field gets two 2i keys, even when it
      is both tagged index and the target of fk tags (kol/index.go:97-130). */
  lemma IndexKeysShape(id: Bytes, o: Obj)
    requires IndexKeysSpec(id, o).Success?
    ensures var ks := IndexKeysSpec(id, o).value;
      && (forall i :: 0 <= i < |ks| ==> Owned(ks[i], o.typeName, id))
      && (forall i, j :: 0 <= i < j < |ks| && ks[i][0] == SecondaryIndex && ks[j][0] == SecondaryIndex ==> ks[i][2] != ks[j][2])
  {
    FieldsFoldOk(id, o, 0, Acc([], {}));
  }

  /** A tag parameter that fails whatever came before. */
  predicate BadParam(o: Obj, f: Field, param: Bytes) {
    param != IndexParam && FkTarget(param).Some? &&
    (!f.value.IsByteSlice() || FieldByName(o, FkTarget(param).value).None?)
  }

  lemma {:induction false} ParamsFoldFails(id: Bytes, o: Obj, f: Field, params: seq<Bytes>, acc: Acc, j: nat)
    requires j < |params| && BadParam(o, f, params[j])
    ensures ParamsFold(id, o, f, params, acc).Failure?
    decreases |params|
  {
    if j > 0 && ParamStep(id, o, f, params[0], acc).Success? {
      ParamsFoldFails(id, o, f, params[1..], ParamStep(id, o, f, params[0], acc).value, j - 1);
    }
  }

  lemma {:induction false} FieldsFoldFails(id: Bytes, o: Obj, i: nat, acc: Acc, k: nat, j: nat)
    requires i <= k < |o.fields| && o.fields[k].tag != []
    requires j < |SplitOn(o.fields[k].tag, Comma)| && BadParam(o, o.fields[k], SplitOn(o.fields[k].tag, Comma)[j])
    ensures FieldsFold(id, o, i, acc).Failure?
    decreases |o.fields| - i
  {
    if i == k {
      ParamsFoldFails(id, o, o.fields[k], SplitOn(o.fields[k].tag, Comma), acc, j);
    } else if FieldParams(id, o, o.fields[i], acc).Success? {
      FieldsFoldFails(id, o, i + 1, FieldParams(id, o, o.fields[i], acc).value, k, j);
    }
  }

  /** An fk tag on a field that is not a []byte, or naming a field the record
      does not have, makes indexKeys fail (kol/index.go:110, 131-138). */
  lemma IndexKeysBadFk(id: Bytes, o: Obj, k: nat, j: nat)
    requires k < |o.fields| && o.fields[k].tag != []
    requires j < |SplitOn(o.fields[k].tag, Comma)| && BadParam(o, o.fields[k], SplitOn(o.fields[k].tag, Comma)[j])
    ensures IndexKeysSpec(id, o).Failure?
  {
    FieldsFoldFails(id, o, 0, Acc([], {}), k, j);
  }

  /** A Go struct type never has two fields of one name. */
  predicate DistinctNames(o: Obj) {
    forall i, j :: 0 <= i < j < |o.fields| ==> o.fields[i].name != o.fields[j].name
  }

  lemma FieldByNameAt(o: Obj, k: nat)
    requires DistinctNames(o) && k < |o.fields|
    ensures FieldByName(o, o.fields[k].name) == Some(o.fields[k].value)
  {
    var r := FieldByName(o, o.fields[k].name);
    var i :| 0 <= i < |o.fields| && o.fields[i] == Field(o.fields[k].name, r.value, o.fields[i].tag);
    assert i == k;
  }

  /** Every name in alreadyIndexed has its 2i key among the keys so far,
      built from the value of the field of that name. */
  predicate Covered(acc: Acc, id: Bytes, o: Obj) {
    forall n :: n in acc.already ==>
      && FieldByName(o, n).Some?
      && IndexKey(id, o.typeName, n, FieldByName(o, n).value).Success?
      && IndexKey(id, o.typeName, n, FieldByName(o, n).value).value in acc.indexed
  }

  /** The loop only ever adds keys and names. */
  predicate Grows(a: Acc, b: Acc) {
    (forall k :: k in a.indexed ==> k in b.indexed) && a.already <= b.already
  }

  /** What one tag parameter of field f leaves behind: an index parameter
      has its field indexed, an fk parameter has its fi key and its target
      indexed. */
  predicate ParamDone(acc: Acc, id: Bytes, o: Obj, f: Field, param: Bytes) {
    && (param == IndexParam ==> f.name in acc.already)
    && (param != IndexParam && FkTarget(param).Some? ==>
          var t := FkTarget(param).value;
          && t in acc.already
          && f.value.IsByteSlice()
          && FieldByName(o, t).Some?
          && ForeignKey(id, f.value.Bytes(), o.typeName, t, f.name, FieldByName(o, t).value).Success?
          && ForeignKey(id, f.value.Bytes(), o.typeName, t, f.name, FieldByName(o, t).value).value in acc.indexed)
  }

  lemma ParamDoneGrows(a: Acc, b: Acc, id: Bytes, o: Obj, f: Field, param: Bytes)
    requires ParamDone(a, id, o, f, param) && Grows(a, b)
    ensures ParamDone(b, id, o, f, param)
  {
  }

  lemma ParamStepCovers(id: Bytes, o: Obj, k: nat, param: Bytes, acc: Acc)
    requires DistinctNames(o) && k < |o.fields| && Covered(acc, id, o)
    ensures var r := ParamStep(id, o, o.fields[k], param, acc);
      r.Success? ==> Covered(r.value, id, o) && Grows(acc, r.value) && ParamDone(r.value, id, o, o.fields[k], param)
  {
    if param == IndexParam {
      FieldByNameAt(o, k);
    } else if FkTarget(param).Some? {
      FkStepCovers(id, o, o.fields[k], param, acc);
    }
  }

  lemma FkStepCovers(id: Bytes, o: Obj, f: Field, param: Bytes, acc: Acc)
    requires param != IndexParam && FkTarget(param).Some? && Covered(acc, id, o)
    ensures var r := ParamStep(id, o, f, param, acc);
      r.Success? ==> Covered(r.value, id, o) && Grows(acc, r.value) && ParamDone(r.value, id, o, f, param)
  {
  }

  lemma {:induction false} ParamsFoldCovers(id: Bytes, o: Obj, k: nat, params: seq<Bytes>, acc: Acc)
    requires DistinctNames(o) && k < |o.fields| && Covered(acc, id, o)
    ensures var r := ParamsFold(id, o, o.fields[k], params, acc);
      r.Success? ==>
        && Covered(r.value, id, o) && Grows(acc, r.value)
        && forall j :: 0 <= j < |params| ==> ParamDone(r.value, id, o, o.fields[k], params[j])
    decreases |params|
  {
    var f := o.fields[k];
    if |params| > 0 && ParamStep(id, o, f, params[0], acc).Success? {
      var a := ParamStep(id, o, f, params[0], acc).value;
      ParamStepCovers(id, o, k, params[0], acc);
      ParamsFoldCovers(id, o, k, params[1..], a);
      if ParamsFold(id, o, f, params, acc).Success? {
        var r := ParamsFold(id, o, f, params, acc).value;
        assert r == ParamsFold(id, o, f, params[1..], a).value;
        ParamDoneGrows(a, r, id, o, f, params[0]);
        forall j | 0 <= j < |params|
          ensures ParamDone(r, id, o, f, params[j])
        {
          if j > 0 {
            assert params[j] == params[1..][j - 1];
          }
        }
      }
    }
  }

  lemma {:induction false} FieldsFoldCovers(id: Bytes, o: Obj, i: nat, acc: Acc)
    requires DistinctNames(o) && Covered(acc, id, o)
    ensures var r := FieldsFold(id, o, i, acc);
      r.Success? ==>
        && Covered(r.value, id, o) && Grows(acc, r.value)
        && forall k, j :: i <= k < |o.fields| && o.fields[k].tag != [] && 0 <= j < |SplitOn(o.fields[k].tag, Comma)| ==>
             ParamDone(r.value, id, o, o.fields[k], SplitOn(o.fields[k].tag, Comma)[j])
    decreases |o.fields| - i
  {
    if i < |o.fields| && FieldParams(id, o, o.fields[i], acc).Success? {
      var f := o.fields[i];
      var a := FieldParams(id, o, f, acc).value;
      if f.tag != [] {
        ParamsFoldCovers(id, o, i, SplitOn(f.tag, Comma), acc);
      }
      FieldsFoldCovers(id, o, i + 1, a);
      if FieldsFold(id, o, i, acc).Success? {
        var r := FieldsFold(id, o, i, acc).value;
        forall k, j | i <= k < |o.fields| && o.fields[k].tag != [] && 0 <= j < |SplitOn(o.fields[k].tag, Comma)|
          ensures ParamDone(r, id, o, o.fields[k], SplitOn(o.fields[k].tag, Comma)[j])
        {
          if k == i {
            ParamDoneGrows(a, r, id, o, f, SplitOn(f.tag, Comma)[j]);
          }
        }
      }
    }
  }

  /** When indexKeys succeeds, a field tagged index has its 2i key among the
      keys, and a field tagged fk<T> has its fi key and T's 2i key there
      (kol/index.go:93-130): alreadyIndexed only ever skips a key already
      added. */
  lemma IndexKeysComplete(id: Bytes, o: Obj, k: nat, j: nat)
    requires DistinctNames(o) && IndexKeysSpec(id, o).Success?
    requires k < |o.fields| && o.fields[k].tag != [] && j < |SplitOn(o.fields[k].tag, Comma)|
    ensures var f, param, ks := o.fields[k], SplitOn(o.fields[k].tag, Comma)[j], IndexKeysSpec(id, o).value;
      && (param == IndexParam ==>
            IndexKey(id, o.typeName, f.name, f.value).Success? && IndexKey(id, o.typeName, f.name, f.value).value in ks)
      && (param != IndexParam && FkTarget(param).Some? ==>
            var t := FkTarget(param).value;
            && f.value.IsByteSlice() && FieldByName(o, t).Some?
            && ForeignKey(id, f.value.Bytes(), o.typeName, t, f.name, FieldByName(o, t).value).Success?
            && ForeignKey(id, f.value.Bytes(), o.typeName, t, f.name, FieldByName(o, t).value).value in ks
            && IndexKey(id, o.typeName, t, FieldByName(o, t).value).Success?
            && IndexKey(id, o.typeName, t, FieldByName(o, t).value).value in ks)
  {
    FieldsFoldCovers(id, o, 0, Acc([], {}));
    FieldByNameAt(o, k);
  }

  /** indexKeys (kol/index.go:89-144): the loop over fields and tag params. */
  method IndexKeys(id: Bytes, o: Obj) returns (r: Result<seq<Parts>, KolError>)
    ensures r == IndexKeysSpec(id, o)
  {
    var indexed: seq<Parts> := [];
    var already: set<Bytes> := {};
    for i := 0 to |o.fields|
      invariant FieldsFold(id, o, i, Acc(indexed, already)) == FieldsFold(id, o, 0, Acc([], {}))
    {
      var field := o.fields[i];
      if field.tag != [] {
        var params := SplitOn(field.tag, Comma);
        for j := 0 to |params|
          invariant ThenFields(ParamsFold(id, o, field, params[j..], Acc(indexed, already)), id, o, i + 1) ==
                    FieldsFold(id, o, 0, Acc([], {}))
        {
          var param := params[j];
          assert params[j..][0] == param && params[j..][1..] == params[j + 1..];
          if param == IndexParam {
            if field.name !in already {
              var keys := IndexKey(id, o.typeName, field.name, field.value);
              if keys.Failure? {
                return Failure(keys.error);
              }
              indexed := indexed + [keys.value];
              already := already + {field.name};
            }
          } else {
            var target := FkTarget(param);
            if target.Some? {
              if field.value.IsByteSlice() {
                var matchField := FieldByName(o, target.value);
                if matchField.Some? {
                  var keys := ForeignKey(id, field.value.Bytes(), o.typeName, target.value, field.name, matchField.value);
                  if keys.Failure? {
                    return Failure(keys.error);
                  }
                  indexed := indexed + [keys.value];
                  if target.value !in already {
                    // the match value was just encoded, so this cannot fail
                    var fk := keys.value;
                    keys := IndexKey(id, o.typeName, target.value, matchField.value);
                    assert indexed + [keys.value] == indexed[..|indexed| - 1] + [fk, keys.value];
                    indexed := indexed + [keys.value];
                    already := already + {target.value};
                  }
                } else {
                  return Failure(FkNoField(field.name, target.value));
                }
              } else {
                return Failure(FkNotBytes(field.name));
              }
            }
          }
        }
      }
    }
    r := Success(indexed);
  }

  // ---------------------------------------------------------------------------
  // index and deIndex
  // ---------------------------------------------------------------------------

  /** The marker stored under every index key. */
  const Marker: Stored := Blob([0])

  /** The store after setting every key of ks to v in turn. */
  function PutAll(m: map<Parts, Stored>, ks: seq<Parts>, v: Stored): (r: map<Parts, Stored>)
    ensures forall k :: k in r <==> k in m || k in ks
    ensures forall k :: k in r ==> r[k] == if k in ks then v else m[k]
    decreases |ks|
  {
    if |ks| == 0 then m else PutAll(m[ks[0] := v], ks[1..], v)
  }

  /** The store after removing every key of ks in turn, stopping at the first
      that is absent with "no record". */
  function RemoveAll(m: map<Parts, Stored>, ks: seq<Parts>): (map<Parts, Stored>, Option<KolError>)
    decreases |ks|
  {
    if |ks| == 0 then (m, None)
    else if ks[0] !in m then (m, Some(NoRecord))
    else RemoveAll(m - {ks[0]}, ks[1..])
  }

  /** m without the keys of ks. */
  function Without(m: map<Parts, Stored>, ks: seq<Parts>): map<Parts, Stored> {
    map k | k in m && k !in ks :: m[k]
  }

  predicate Distinct(ks: seq<Parts>) {
    forall i, j :: 0 <= i < j < |ks| ==> ks[i] != ks[j]
  }

  /** Removing keys that are all present, each once, succeeds and removes
      exactly them. */
  lemma {:induction false} RemoveAllPresent(m: map<Parts, Stored>, ks: seq<Parts>)
    requires Distinct(ks) && forall i :: 0 <= i < |ks| ==> ks[i] in m
    ensures RemoveAll(m, ks).1 == None
    ensures RemoveAll(m, ks).0 == Without(m, ks)
    decreases |ks|
  {
    if |ks| > 0 {
      RemoveAllPresent(m - {ks[0]}, ks[1..]);
      assert forall k :: k in ks <==> k == ks[0] || k in ks[1..];
    }
  }

  /** A key listed twice fails on its second removal. */
  lemma {:induction false} RemoveAllDuplicate(m: map<Parts, Stored>, ks: seq<Parts>, i: nat, j: nat)
    requires i < j < |ks| && ks[i] == ks[j]
    ensures RemoveAll(m, ks).1 == Some(NoRecord)
    decreases |ks|
  {
    if ks[0] in m {
      if i == 0 {
        RemoveAllAbsent(m - {ks[0]}, ks[1..], j - 1);
      } else {
        RemoveAllDuplicate(m - {ks[0]}, ks[1..], i - 1, j - 1);
      }
    }
  }

  lemma {:induction false} RemoveAllAbsent(m: map<Parts, Stored>, ks: seq<Parts>, j: nat)
    requires j < |ks| && ks[j] !in m
    ensures RemoveAll(m, ks).1 == Some(NoRecord)
    decreases |ks|
  {
    if j > 0 && ks[0] in m {
      RemoveAllAbsent(m - {ks[0]}, ks[1..], j - 1);
    }
  }

  /** index (kol/index.go:146-157): the store afterwards and the error. */
  function IndexSpec(m: map<Parts, Stored>, id: Bytes, o: Obj): (map<Parts, Stored>, Option<KolError>) {
    match IndexKeysSpec(id, o)
    case Failure(e) => (m, Some(e))
    case Success(ks) => (PutAll(m, ks, Marker), None)
  }

  /** deIndex (kol/index.go:159-170): the store afterwards and the error; the
      removals before a failing one stay done. */
  function DeIndexSpec(m: map<Parts, Stored>, id: Bytes, o: Obj): (map<Parts, Stored>, Option<KolError>) {
    match IndexKeysSpec(id, o)
    case Failure(e) => (m, Some(e))
    case Success(ks) => RemoveAll(m, ks)
  }

  /** deIndex undoes index: starting from a store holding none of the record's
      index keys, indexing and then de-indexing gives the store back, provided
      the record derives each key once. */
  lemma IndexDeIndex(m: map<Parts, Stored>, id: Bytes, o: Obj)
    requires IndexKeysSpec(id, o).Success? && Distinct(IndexKeysSpec(id, o).value)
    requires forall k :: k in IndexKeysSpec(id, o).value ==> k !in m
    ensures IndexSpec(m, id, o).1 == None
    ensures DeIndexSpec(IndexSpec(m, id, o).0, id, o) == (m, None)
  {
    var ks := IndexKeysSpec(id, o).value;
    var m1 := PutAll(m, ks, Marker);
    RemoveAllPresent(m1, ks);
    assert Without(m1, ks) == m;
  }

  /** index (kol/index.go:146-157). */
  method Index(store: Store, id: Bytes, o: Obj) returns (err: Option<KolError>)
    modifies store
    ensures (store.data, err) == IndexSpec(old(store.data), id, o)
  {
    var indexed := IndexKeys(id, o);
    if indexed.Failure? {
      return Some(indexed.error);
    }
    var ks := indexed.value;
    for i := 0 to |ks|
      invariant PutAll(store.data, ks[i..], Marker) == PutAll(old(store.data), ks, Marker)
    {
      assert ks[i..][0] == ks[i] && ks[i..][1..] == ks[i + 1..];
      store.Put(ks[i], Marker);
    }
    assert ks[|ks|..] == [];
    err := None;
  }

  /** deIndex (kol/index.go:159-170). */
  method DeIndex(store: Store, id: Bytes, o: Obj) returns (err: Option<KolError>)
    modifies store
    ensures (store.data, err) == DeIndexSpec(old(store.data), id, o)
  {
    var indexed := IndexKeys(id, o);
    if indexed.Failure? {
      return Some(indexed.error);
    }
    var ks := indexed.value;
    for i := 0 to |ks|
      invariant RemoveAll(store.data, ks[i..]) == RemoveAll(old(store.data), ks)
    {
      assert ks[i..][0] == ks[i] && ks[i..][1..] == ks[i + 1..];
      ghost var before := store.data;
      err := store.Remove(ks[i]);
      if err.Some? {
        assert store.data == before;
        return;
      }
    }
    assert ks[|ks|..] == [];
    err := None;
  }
}
