/**
  kc/kc.go: the earlier revision of package kc, whose two-level keys are
  key1 ++ 0x00 ++ key2 with no escaping. It holds the sub-key operations
  SubSet, SubGet, SubRemove and SubClear, and the enumerator each that backs
  GetCollection.
*/
module KcFlat {
  import opened KeyCodec
  import opened OrderedStore
  import opened Wrappers

  /** A key/value pair under some key1; Key is the key2 part. */
  datatype KV = KV(key: Bytes, value: Bytes)

  /** keyCombine (kc/kc.go:9-14): a buffer of |key1| + |key2| + 1 bytes, key1
      copied to its front and key2 to its back, the byte between left zero. */
  function KeyCombine(key1: Bytes, key2: Bytes): (r: Bytes)
    ensures r == key1 + [0] + key2
  {
    seq(|key1| + |key2| + 1, i requires 0 <= i < |key1| + |key2| + 1 =>
      if i < |key1| then key1[i] else if i == |key1| then 0 else key2[i - |key1| - 1])
  }

  /** Under one key1 the combined key determines key2. */
  lemma KeyCombineInjective(key1: Bytes, a: Bytes, b: Bytes)
    requires KeyCombine(key1, a) == KeyCombine(key1, b)
    ensures a == b
  {
    assert a == KeyCombine(key1, a)[|key1| + 1..];
    assert b == KeyCombine(key1, b)[|key1| + 1..];
  }

  /** Without escaping, different (key1, key2) pairs can share a store key:
      ("", "\x00") and ("\x00", "") both become 0x00 0x00. */
  lemma KeyCombineAmbiguous()
    ensures KeyCombine([], [0]) == KeyCombine([0], []) == [0, 0]
  {
  }

  /** k is key1, a zero byte, then anything. */
  predicate Under(key1: Bytes, k: Bytes) {
    |k| > |key1| && k[|key1|] == 0 && k[..|key1|] == key1
  }

  lemma UnderIsPrefix(key1: Bytes, k: Bytes)
    ensures Under(key1, k) <==> IsPrefix(key1 + [0], k)
  {
    if Under(key1, k) {
      assert k[..|key1| + 1] == k[..|key1|] + [k[|key1|]];
    }
    if IsPrefix(key1 + [0], k) {
      assert k[..|key1|] == k[..|key1| + 1][..|key1|];
    }
  }

  /** What each yields from the records rs onward (kc/kc.go:119-131): the
      second halves of the records under key1, up to the first that is not. */
  function ScanFlat(rs: seq<Record>, key1: Bytes): seq<KV> {
    if |rs| == 0 || !Under(key1, rs[0].key) then []
    else [KV(rs[0].key[|key1| + 1..], rs[0].value)] + ScanFlat(rs[1..], key1)
  }

  /** each(key1) (kc/kc.go:110-138): jump to key1, then scan. */
  function EachSpec(rs: seq<Record>, key1: Bytes): seq<KV> {
    ScanFlat(rs[LowerBound(rs, key1)..], key1)
  }

  /** Every record under key1, in order, as (key2, value): the reference
      definition of what each should yield. */
  function UnderKey(rs: seq<Record>, key1: Bytes): seq<KV> {
    if |rs| == 0 then []
    else
      (if Under(key1, rs[0].key) then [KV(rs[0].key[|key1| + 1..], rs[0].value)] else []) +
      UnderKey(rs[1..], key1)
  }

  lemma {:induction false} UnderKeyAppend(a: seq<Record>, b: seq<Record>, key1: Bytes)
    ensures UnderKey(a + b, key1) == UnderKey(a, key1) + UnderKey(b, key1)
    decreases |a|
  {
    if |a| == 0 {
      assert a + b == b;
    } else {
      assert (a + b)[0] == a[0];
      assert (a + b)[1..] == a[1..] + b;
      var h := if Under(key1, a[0].key) then [KV(a[0].key[|key1| + 1..], a[0].value)] else [];
      assert UnderKey(a + b, key1) == h + UnderKey(a[1..] + b, key1);
      assert UnderKey(a, key1) == h + UnderKey(a[1..], key1);
      UnderKeyAppend(a[1..], b, key1);
      assert h + (UnderKey(a[1..], key1) + UnderKey(b, key1)) == (h + UnderKey(a[1..], key1)) + UnderKey(b, key1);
    }
  }

  lemma {:induction false} UnderKeyNone(rs: seq<Record>, key1: Bytes)
    requires forall j :: 0 <= j < |rs| ==> !Under(key1, rs[j].key)
    ensures UnderKey(rs, key1) == []
    decreases |rs|
  {
    if |rs| > 0 {
      assert forall j :: 0 <= j < |rs| - 1 ==> rs[1..][j] == rs[j + 1];
      UnderKeyNone(rs[1..], key1);
    }
  }

  /** A key under key1 sorts after key1. */
  lemma UnderAbove(key1: Bytes, k: Bytes)
    requires Under(key1, k)
    ensures Below(key1, k)
  {
    assert k[..|key1|] == key1;
    PrefixBelow(key1, k);
  }

  /** From a position at or above key1, with no record exactly at key1, the
      scan meets every record under key1. */
  lemma {:induction false} ScanIsUnderKey(rs: seq<Record>, key1: Bytes)
    requires Sorted(rs)
    requires forall j :: 0 <= j < |rs| ==> !Below(rs[j].key, key1) && rs[j].key != key1
    ensures ScanFlat(rs, key1) == UnderKey(rs, key1)
    decreases |rs|
  {
    if |rs| > 0 {
      SortedSlices(rs, 1, 1);
      if Under(key1, rs[0].key) {
        ScanIsUnderKey(rs[1..], key1);
      } else {
        var z := key1 + [0];
        UnderIsPrefix(key1, rs[0].key);
        AboveZeroExtension(key1, rs[0].key);
        forall j | 0 < j < |rs|
          ensures !Under(key1, rs[j].key)
        {
          BlockEnded(z, rs[0].key, rs[j].key);
          UnderIsPrefix(key1, rs[j].key);
        }
        UnderKeyNone(rs, key1);
      }
    }
  }

  /** Nothing before the jump target is under key1. */
  lemma NoneBeforeJump(rs: seq<Record>, key1: Bytes)
    ensures UnderKey(rs[..LowerBound(rs, key1)], key1) == []
  {
    var before := rs[..LowerBound(rs, key1)];
    forall j | 0 <= j < |before|
      ensures !Under(key1, before[j].key)
    {
      assert before[j] == rs[j];
      if Under(key1, rs[j].key) {
        UnderAbove(key1, rs[j].key);
        BelowAsymmetric(key1, rs[j].key);
      }
    }
    UnderKeyNone(before, key1);
  }

  /** From the jump target on, the scan meets every record under key1. */
  lemma ScanAfterJump(rs: seq<Record>, key1: Bytes)
    requires Sorted(rs)
    requires forall r :: r in rs ==> r.key != key1
    ensures ScanFlat(rs[LowerBound(rs, key1)..], key1) == UnderKey(rs[LowerBound(rs, key1)..], key1)
  {
    var i := LowerBound(rs, key1);
    var after := rs[i..];
    LowerBoundSorted(rs, key1);
    forall j | 0 <= j < |after|
      ensures !Below(after[j].key, key1) && after[j].key != key1
    {
      assert after[j] == rs[i + j] && rs[i + j] in rs;
    }
    assert Sorted(after) by {
      forall a, b | 0 <= a < b < |after|
        ensures Below(after[a].key, after[b].key)
      {
        assert after[a] == rs[i + a] && after[b] == rs[i + b];
      }
    }
    ScanIsUnderKey(after, key1);
  }

  /** With no record stored exactly at key1, each yields exactly the records
      under key1, in store order. */
  lemma EachIsUnderKey(rs: seq<Record>, key1: Bytes)
    requires Sorted(rs)
    requires forall r :: r in rs ==> r.key != key1
    ensures EachSpec(rs, key1) == UnderKey(rs, key1)
  {
    NoneBeforeJump(rs, key1);
    ScanAfterJump(rs, key1);
    UnderKeySplit(rs, LowerBound(rs, key1), key1);
  }

  lemma UnderKeySplit(rs: seq<Record>, i: nat, key1: Bytes)
    requires i <= |rs|
    ensures UnderKey(rs, key1) == UnderKey(rs[..i], key1) + UnderKey(rs[i..], key1)
  {
    assert rs[..i] + rs[i..] == rs;
    UnderKeyAppend(rs[..i], rs[i..], key1);
  }

  /** A record stored exactly at key1 ends the enumeration at once
      (kc/kc.go:127-129). */
  lemma EachStopsAtKey1Record(rs: seq<Record>, key1: Bytes, v: Bytes)
    requires Sorted(rs) && Record(key1, v) in rs
    ensures EachSpec(rs, key1) == []
  {
    var i := LowerBound(rs, key1);
    var j :| 0 <= j < |rs| && rs[j] == Record(key1, v);
    BelowIrreflexive(key1);
    assert i == j;
    assert rs[i..][0] == rs[j];
  }

  /** UnderKey lists exactly the records under key1, as (key2, value). */
  lemma {:induction false} UnderKeyMembers(rs: seq<Record>, key1: Bytes)
    ensures forall x :: x in UnderKey(rs, key1) <==>
      exists r :: r in rs && Under(key1, r.key) && x == KV(r.key[|key1| + 1..], r.value)
    decreases |rs|
  {
    if |rs| > 0 {
      UnderKeyMembers(rs[1..], key1);
      assert rs == [rs[0]] + rs[1..];
    }
  }

  /** The key2 halves come out in ascending order. */
  predicate Ascending(c: seq<KV>) {
    forall i, j :: 0 <= i < j < |c| ==> Below(c[i].key, c[j].key)
  }

  /** Stripping a common prefix keeps the order. */
  lemma {:induction false} BelowDropPrefix(p: Bytes, a: Bytes, b: Bytes)
    requires IsPrefix(p, a) && IsPrefix(p, b) && Below(a, b)
    ensures Below(a[|p|..], b[|p|..])
    decreases |p|
  {
    if |p| > 0 {
      assert a[1..][..|p| - 1] == p[1..] && b[1..][..|p| - 1] == p[1..];
      assert a[1..][|p| - 1..] == a[|p|..] && b[1..][|p| - 1..] == b[|p|..];
      BelowDropPrefix(p[1..], a[1..], b[1..]);
    }
  }

  lemma {:induction false} UnderKeyOrdered(rs: seq<Record>, key1: Bytes)
    requires Sorted(rs)
    ensures Ascending(UnderKey(rs, key1))
    decreases |rs|
  {
    if |rs| > 0 {
      SortedSlices(rs, 1, 1);
      UnderKeyOrdered(rs[1..], key1);
      UnderKeyMembers(rs[1..], key1);
      var tail := UnderKey(rs[1..], key1);
      var c := UnderKey(rs, key1);
      if Under(key1, rs[0].key) {
        var z := key1 + [0];
        UnderIsPrefix(key1, rs[0].key);
        forall x | x in tail
          ensures Below(rs[0].key[|key1| + 1..], x.key)
        {
          var r :| r in rs[1..] && Under(key1, r.key) && x == KV(r.key[|key1| + 1..], r.value);
          var k :| 0 <= k < |rs| - 1 && rs[1..][k] == r;
          assert rs[k + 1] == r;
          UnderIsPrefix(key1, r.key);
          BelowDropPrefix(z, rs[0].key, r.key);
        }
        assert c == [KV(rs[0].key[|key1| + 1..], rs[0].value)] + tail;
        forall i, j | 0 <= i < j < |c|
          ensures Below(c[i].key, c[j].key)
        {
          assert c[j] == tail[j - 1];
          if i > 0 {
            assert c[i] == tail[i - 1];
          } else {
            assert tail[j - 1] in tail;
          }
        }
      } else {
        assert c == tail;
      }
    }
  }

  /** GetCollection (kc/kc.go:97-108): with no record at key1, the (key2, value)
      pairs stored under key1, each once, in ascending key2 order. */
  lemma GetCollectionExact(rs: seq<Record>, key1: Bytes)
    requires Sorted(rs)
    requires forall r :: r in rs ==> r.key != key1
    ensures forall x :: x in EachSpec(rs, key1) <==> Record(KeyCombine(key1, x.key), x.value) in rs
    ensures Ascending(EachSpec(rs, key1))
  {
    EachIsUnderKey(rs, key1);
    UnderKeyMembers(rs, key1);
    UnderKeyOrdered(rs, key1);
    forall x
      ensures x in EachSpec(rs, key1) <==> Record(KeyCombine(key1, x.key), x.value) in rs
    {
      if x in EachSpec(rs, key1) {
        var r :| r in rs && Under(key1, r.key) && x == KV(r.key[|key1| + 1..], r.value);
        assert r.key == key1 + [0] + x.key;
      }
      var r := Record(KeyCombine(key1, x.key), x.value);
      if r in rs {
        assert Under(key1, r.key) && x == KV(r.key[|key1| + 1..], r.value);
      }
    }
  }

  /** each (kc/kc.go:110-138): the cursor loop. */
  method Each(db: Db, key1: Bytes) returns (items: seq<KV>)
    ensures items == EachSpec(db.records, key1)
  {
    var cursor := db.OpenCursor(0);
    items := [];
    var st := cursor.JumpKey(key1);
    if st == NoRecord {
      return;
    }
    ghost var rs := cursor.records;
    while true
      invariant LowerBound(rs, key1) <= cursor.pos <= |rs|
      invariant items + ScanFlat(rs[cursor.pos..], key1) == EachSpec(rs, key1)
      decreases |rs| - cursor.pos
    {
      ghost var at := cursor.pos;
      var key, value;
      st, key, value := cursor.Get(true);
      if st == NoRecord {
        assert items == EachSpec(rs, key1);
        return;
      }
      assert rs[at..][0] == rs[at] && rs[at..][1..] == rs[at + 1..];
      if |key| <= |key1| || key[|key1|] != 0 || Compare(key[..|key1|], key1) != 0 {
        if |key| > |key1| {
          CompareSigns(key[..|key1|], key1);
        }
        break;
      }
      CompareSigns(key[..|key1|], key1);
      items := items + [KV(key[|key1| + 1..], value)];
    }
  }

  /** GetCollection (kc/kc.go:100-108). */
  method GetCollection(db: Db, key1: Bytes) returns (result: seq<KV>)
    ensures result == EachSpec(db.records, key1)
  {
    result := Each(db, key1);
  }

  /** SubSet (kc/kc.go:49-51). */
  method SubSet(db: Db, key1: Bytes, key2: Bytes, value: Bytes)
    requires db.Valid()
    modifies db
    ensures db.Valid() && db.records == Insert(old(db.records), KeyCombine(key1, key2), value)
  {
    db.Set(KeyCombine(key1, key2), value);
  }

  /** SubGet (kc/kc.go:56-58): None is the store's "no record". */
  method SubGet(db: Db, key1: Bytes, key2: Bytes) returns (v: Option<Bytes>)
    requires db.Valid()
    ensures v == Lookup(db.records, KeyCombine(key1, key2))
  {
    v := db.Get(KeyCombine(key1, key2));
    LookupAbsent(db.records, KeyCombine(key1, key2));
    if v.Some? {
      LookupFinds(db.records, KeyCombine(key1, key2), v.value);
    }
  }

  /** SubRemove (kc/kc.go:63-65). */
  method SubRemove(db: Db, key1: Bytes, key2: Bytes) returns (st: Status)
    requires db.Valid()
    modifies db
    ensures db.Valid() && db.records == Delete(old(db.records), KeyCombine(key1, key2))
    ensures st == (if Lookup(old(db.records), KeyCombine(key1, key2)).Some? then Ok else NoRecord)
  {
    st := db.Remove(KeyCombine(key1, key2));
  }

  /** SubGet after SubSet returns the value set, after SubRemove nothing; a
      pair under the same key1 with another key2 is unaffected by either. */
  lemma SubSetSubGet(rs: seq<Record>, key1: Bytes, key2: Bytes, v: Bytes, other: Bytes)
    requires Sorted(rs)
    ensures Lookup(Insert(rs, KeyCombine(key1, key2), v), KeyCombine(key1, key2)) == Some(v)
    ensures Lookup(Delete(rs, KeyCombine(key1, key2)), KeyCombine(key1, key2)) == None
    ensures other != key2 ==>
      Lookup(Insert(rs, KeyCombine(key1, key2), v), KeyCombine(key1, other)) == Lookup(rs, KeyCombine(key1, other)) &&
      Lookup(Delete(rs, KeyCombine(key1, key2)), KeyCombine(key1, other)) == Lookup(rs, KeyCombine(key1, other))
  {
    var k := KeyCombine(key1, key2);
    var k' := KeyCombine(key1, other);
    LookupInsert(rs, k, v, k);
    LookupDelete(rs, k, k);
    LookupInsert(rs, k, v, k');
    LookupDelete(rs, k, k');
    if k == k' {
      KeyCombineInjective(key1, key2, other);
    }
  }

  /** The store keys of the enumerated pairs under key1. */
  function CombinedKeys(key1: Bytes, items: seq<KV>): (ks: seq<Bytes>)
    ensures |ks| == |items| && forall i :: 0 <= i < |items| ==> ks[i] == KeyCombine(key1, items[i].key)
  {
    if |items| == 0 then [] else [KeyCombine(key1, items[0].key)] + CombinedKeys(key1, items[1..])
  }

  /** SubClear (kc/kc.go:91-95): removes key1/key2 for every pair each yields. */
  method SubClear(db: Db, key1: Bytes)
    requires db.Valid()
    modifies db
    ensures db.Valid()
    ensures db.records == DeleteAll(old(db.records), CombinedKeys(key1, EachSpec(old(db.records), key1)))
  {
    var items := Each(db, key1);
    var ks := CombinedKeys(key1, items);
    var i := 0;
    while i < |items|
      invariant 0 <= i <= |items| && db.Valid()
      invariant DeleteAll(db.records, ks[i..]) == DeleteAll(old(db.records), ks)
    {
      assert ks[i..][0] == ks[i] && ks[i..][1..] == ks[i + 1..];
      var _ := SubRemove(db, key1, items[i].key);
      i := i + 1;
    }
  }

  /** A combined key of an enumerated pair is under key1. */
  lemma CombinedKeysUnder(key1: Bytes, items: seq<KV>, k: Bytes)
    requires k in CombinedKeys(key1, items)
    ensures Under(key1, k)
  {
    var i :| 0 <= i < |items| && CombinedKeys(key1, items)[i] == k;
    assert k == key1 + [0] + items[i].key;
    assert k[..|key1|] == key1;
  }

  /** A record under key1 is enumerated, so SubClear removes its key. */
  lemma UnderCleared(rs: seq<Record>, key1: Bytes, x: Record)
    requires Sorted(rs)
    requires forall r :: r in rs ==> r.key != key1
    requires x in rs && Under(key1, x.key)
    ensures x.key in CombinedKeys(key1, EachSpec(rs, key1))
  {
    var es := EachSpec(rs, key1);
    GetCollectionExact(rs, key1);
    var item := KV(x.key[|key1| + 1..], x.value);
    assert x.key == key1 + [0] + item.key;
    assert x == Record(KeyCombine(key1, item.key), item.value);
    assert item in es;
    var i :| 0 <= i < |es| && es[i] == item;
    assert CombinedKeys(key1, es)[i] == x.key;
  }

  /** With no record at key1, the keys SubClear removes are exactly the
      store keys under key1. */
  lemma ClearedKeys(rs: seq<Record>, key1: Bytes)
    requires Sorted(rs)
    requires forall r :: r in rs ==> r.key != key1
    ensures forall x :: x in rs ==> (x.key in CombinedKeys(key1, EachSpec(rs, key1)) <==> Under(key1, x.key))
  {
    var ks := CombinedKeys(key1, EachSpec(rs, key1));
    forall x | x in rs
      ensures x.key in ks <==> Under(key1, x.key)
    {
      if Under(key1, x.key) {
        UnderCleared(rs, key1, x);
      }
      if x.key in ks {
        CombinedKeysUnder(key1, EachSpec(rs, key1), x.key);
      }
    }
  }

  /** After SubClear, GetCollection of key1 is empty; with no record at key1 it
      removed exactly the records under key1 and nothing else. */
  lemma SubClearEmpties(rs: seq<Record>, key1: Bytes)
    requires Sorted(rs)
    ensures var after := DeleteAll(rs, CombinedKeys(key1, EachSpec(rs, key1)));
      && EachSpec(after, key1) == []
      && ((forall r :: r in rs ==> r.key != key1) ==>
            forall x :: x in after <==> x in rs && !Under(key1, x.key))
  {
    var ks := CombinedKeys(key1, EachSpec(rs, key1));
    var after := DeleteAll(rs, ks);
    if r :| r in rs && r.key == key1 {
      EachStopsAtKey1Record(rs, key1, r.value);
      assert r in after;
      EachStopsAtKey1Record(after, key1, r.value);
    } else {
      ClearedKeys(rs, key1);
      forall j | 0 <= j < |after|
        ensures !Under(key1, after[j].key)
      {
        assert after[j] in after;
      }
      UnderKeyNone(after, key1);
      EachIsUnderKey(after, key1);
    }
  }
}
