/**
  The ordered key-value store under package kc (a Kyoto Cabinet tree
  database), as the kc code sees it: a strictly ascending sequence of
  (key, value) records in the byte order of bytes.Compare, and cursors over it.
  A cursor is a position in that sequence; a position past the end is the
  store's "no record".
*/
module OrderedStore {
  import opened KeyCodec
  import opened Wrappers

  datatype Record = Record(key: Bytes, value: Bytes)

  /** Outcome of a store call; NoRecord is the store's "no record" error. */
  datatype Status = Ok | NoRecord

  /** Keys strictly ascending: the store's invariant. */
  predicate Sorted(rs: seq<Record>) {
    forall i, j :: 0 <= i < j < |rs| ==> Below(rs[i].key, rs[j].key)
  }

  /** Where a cursor jump to k lands: the first record whose key is not below k. */
  function LowerBound(rs: seq<Record>, k: Bytes): (i: nat)
    ensures i <= |rs|
    ensures forall j :: 0 <= j < i ==> Below(rs[j].key, k)
    ensures i < |rs| ==> !Below(rs[i].key, k)
  {
    if |rs| == 0 || !Below(rs[0].key, k) then 0 else 1 + LowerBound(rs[1..], k)
  }

  /** In a sorted store nothing from the jump target on is below k. */
  lemma LowerBoundSorted(rs: seq<Record>, k: Bytes)
    requires Sorted(rs)
    ensures forall j :: LowerBound(rs, k) <= j < |rs| ==> !Below(rs[j].key, k)
  {
    var i := LowerBound(rs, k);
    forall j | i < j < |rs|
      ensures !Below(rs[j].key, k)
    {
      if Below(rs[j].key, k) {
        BelowTransitive(rs[i].key, rs[j].key, k);
      }
    }
  }

  /** A key is stored at most once. */
  lemma SortedKeysDistinct(rs: seq<Record>, i: int, j: int)
    requires Sorted(rs) && 0 <= i < |rs| && 0 <= j < |rs| && rs[i].key == rs[j].key
    ensures i == j
  {
    if i < j || j < i {
      BelowIrreflexive(rs[i].key);
    }
  }

  /** The value stored under k (a KC get). */
  function Lookup(rs: seq<Record>, k: Bytes): Option<Bytes> {
    var i := LowerBound(rs, k);
    if i < |rs| && rs[i].key == k then Some(rs[i].value) else None
  }

  /** Lookup finds exactly the stored records. */
  lemma LookupFinds(rs: seq<Record>, k: Bytes, v: Bytes)
    requires Sorted(rs)
    ensures Lookup(rs, k) == Some(v) <==> Record(k, v) in rs
  {
    var i := LowerBound(rs, k);
    if Record(k, v) in rs {
      var j :| 0 <= j < |rs| && rs[j] == Record(k, v);
      BelowIrreflexive(k);
    }
  }

  /** Lookup fails exactly when no record has the key. */
  lemma LookupAbsent(rs: seq<Record>, k: Bytes)
    requires Sorted(rs)
    ensures Lookup(rs, k) == None <==> forall r :: r in rs ==> r.key != k
  {
    if Lookup(rs, k) == None {
      forall r | r in rs
        ensures r.key != k
      {
        if r.key == k {
          LookupFinds(rs, k, r.value);
        }
      }
    }
  }

  lemma SortedConcat(a: seq<Record>, b: seq<Record>)
    requires Sorted(a) && Sorted(b)
    requires forall x, y :: x in a && y in b ==> Below(x.key, y.key)
    ensures Sorted(a + b)
  {
    forall i, j | 0 <= i < j < |a + b|
      ensures Below((a + b)[i].key, (a + b)[j].key)
    {
      if j < |a| {
        assert (a + b)[i] == a[i] && (a + b)[j] == a[j];
      } else if i < |a| {
        assert (a + b)[i] == a[i] && (a + b)[j] == b[j - |a|];
      } else {
        assert (a + b)[i] == b[i - |a|] && (a + b)[j] == b[j - |a|];
      }
    }
  }

  lemma SortedSlices(rs: seq<Record>, i: int, j: int)
    requires Sorted(rs) && 0 <= i <= j <= |rs|
    ensures Sorted(rs[..i]) && Sorted(rs[j..]) && Sorted(rs[i..j])
    ensures forall x, y :: x in rs[..i] && y in rs[j..] ==> Below(x.key, y.key)
  {
    forall x, y | x in rs[..i] && y in rs[j..]
      ensures Below(x.key, y.key)
    {
      var a :| 0 <= a < i && rs[..i][a] == x;
      var b :| 0 <= b < |rs| - j && rs[j..][b] == y;
      assert rs[a] == x && rs[j + b] == y;
    }
  }

  /** Where the record for k goes: the records below k, then k, then the
      records above k (a record at k itself is replaced). */
  function Splice(rs: seq<Record>, k: Bytes, v: Bytes): seq<Record> {
    var i := LowerBound(rs, k);
    var after := if i < |rs| && rs[i].key == k then i + 1 else i;
    rs[..i] + [Record(k, v)] + rs[after..]
  }

  lemma SpliceSorted(rs: seq<Record>, k: Bytes, v: Bytes)
    requires Sorted(rs)
    ensures Sorted(Splice(rs, k, v))
  {
    var i := LowerBound(rs, k);
    var after := if i < |rs| && rs[i].key == k then i + 1 else i;
    LowerBoundSorted(rs, k);
    SortedSlices(rs, i, after);
    forall y | y in rs[after..]
      ensures Below(k, y.key)
    {
      var b :| 0 <= b < |rs| - after && rs[after..][b] == y;
      assert rs[after + b] == y;
      if after == i + 1 {
        assert Below(rs[i].key, rs[after + b].key);
      } else {
        BelowTotal(k, y.key);
      }
    }
    SortedConcat(rs[..i], [Record(k, v)]);
    SortedConcat(rs[..i] + [Record(k, v)], rs[after..]);
  }

  /** Nothing below the jump target has key k. */
  lemma BelowTargetNotKey(rs: seq<Record>, k: Bytes)
    ensures forall x :: x in rs[..LowerBound(rs, k)] ==> x.key != k
  {
    var i := LowerBound(rs, k);
    BelowIrreflexive(k);
    forall x | x in rs[..i]
      ensures x.key != k
    {
      var a :| 0 <= a < i && rs[..i][a] == x;
      assert Below(rs[a].key, k);
    }
  }

  /** Nothing after the record the splice replaces has key k. */
  lemma AboveTargetNotKey(rs: seq<Record>, k: Bytes)
    requires Sorted(rs)
    ensures var i := LowerBound(rs, k);
      var after := if i < |rs| && rs[i].key == k then i + 1 else i;
      forall x :: x in rs[after..] ==> x.key != k
  {
    var i := LowerBound(rs, k);
    var after := if i < |rs| && rs[i].key == k then i + 1 else i;
    forall x | x in rs[after..]
      ensures x.key != k
    {
      var b :| 0 <= b < |rs| - after && rs[after..][b] == x;
      var j := after + b;
      assert rs[j] == x;
      if j > i {
        assert Below(rs[i].key, rs[j].key);
        if after == i + 1 {
          BelowIrreflexive(k);
        }
      }
    }
  }

  /** Only the record the splice replaces has key k. */
  lemma SpliceParts(rs: seq<Record>, k: Bytes)
    requires Sorted(rs)
    ensures var i := LowerBound(rs, k);
      var after := if i < |rs| && rs[i].key == k then i + 1 else i;
      && (forall x :: x in rs[..i] ==> x.key != k)
      && (forall x :: x in rs[i..after] ==> x.key == k)
      && (forall x :: x in rs[after..] ==> x.key != k)
  {
    BelowTargetNotKey(rs, k);
    AboveTargetNotKey(rs, k);
  }

  lemma SpliceMembers(rs: seq<Record>, k: Bytes, v: Bytes)
    requires Sorted(rs)
    ensures forall x :: x in Splice(rs, k, v) <==> (x in rs && x.key != k) || x == Record(k, v)
  {
    var i := LowerBound(rs, k);
    var after := if i < |rs| && rs[i].key == k then i + 1 else i;
    SpliceParts(rs, k);
    assert rs == rs[..i] + rs[i..after] + rs[after..];
  }

  /** The records of a sorted store after a KC set of k to v. */
  function Insert(rs: seq<Record>, k: Bytes, v: Bytes): (r: seq<Record>)
    requires Sorted(rs)
    ensures Sorted(r)
    ensures forall x :: x in r <==> (x in rs && x.key != k) || x == Record(k, v)
  {
    SpliceSorted(rs, k, v);
    SpliceMembers(rs, k, v);
    Splice(rs, k, v)
  }

  /** The records of a sorted store after a KC remove of k. */
  function Delete(rs: seq<Record>, k: Bytes): (r: seq<Record>)
    requires Sorted(rs)
    ensures Sorted(r)
    ensures forall x :: x in r <==> x in rs && x.key != k
  {
    var i := LowerBound(rs, k);
    if i < |rs| && rs[i].key == k then
      SortedSlices(rs, i, i + 1);
      SortedConcat(rs[..i], rs[i + 1..]);
      BelowTargetNotKey(rs, k);
      AboveTargetNotKey(rs, k);
      assert rs == rs[..i] + [rs[i]] + rs[i + 1..];
      rs[..i] + rs[i + 1..]
    else
      LookupAbsent(rs, k);
      rs
  }

  /** The records after removing every key of ks in turn. */
  function DeleteAll(rs: seq<Record>, ks: seq<Bytes>): (r: seq<Record>)
    requires Sorted(rs)
    ensures Sorted(r)
    ensures forall x :: x in r <==> x in rs && x.key !in ks
    decreases |ks|
  {
    if |ks| == 0 then rs else DeleteAll(Delete(rs, ks[0]), ks[1..])
  }

  /** A get after a set of k finds the value set; other keys read as before. */
  lemma LookupInsert(rs: seq<Record>, k: Bytes, v: Bytes, k': Bytes)
    requires Sorted(rs)
    ensures Lookup(Insert(rs, k, v), k') == if k' == k then Some(v) else Lookup(rs, k')
  {
    var r := Insert(rs, k, v);
    if k' == k {
      LookupFinds(r, k, v);
    } else {
      LookupAbsent(rs, k');
      LookupAbsent(r, k');
      if Lookup(rs, k').Some? {
        LookupFinds(rs, k', Lookup(rs, k').value);
        LookupFinds(r, k', Lookup(rs, k').value);
      }
    }
  }

  /** A get after a remove of k finds nothing; other keys read as before. */
  lemma LookupDelete(rs: seq<Record>, k: Bytes, k': Bytes)
    requires Sorted(rs)
    ensures Lookup(Delete(rs, k), k') == if k' == k then None else Lookup(rs, k')
  {
    var r := Delete(rs, k);
    LookupAbsent(r, k');
    LookupAbsent(rs, k');
    if Lookup(rs, k').Some? && k' != k {
      LookupFinds(rs, k', Lookup(rs, k').value);
      LookupFinds(r, k', Lookup(rs, k').value);
    }
  }

  /** A read position in the store. The records a cursor walks over do not
      change while it is in use. */
  class Cursor {
    const records: seq<Record>
    var pos: nat

    /** A fresh cursor; where it starts is up to the store. */
    constructor (records: seq<Record>, start: nat)
      ensures this.records == records && pos == start
    {
      this.records := records;
      pos := start;
    }

    /** Positions the cursor on the first record whose key is not below k. */
    method JumpKey(k: Bytes) returns (st: Status)
      modifies this
      ensures pos == LowerBound(records, k)
      ensures st == (if pos < |records| then Ok else NoRecord)
    {
      pos := LowerBound(records, k);
      st := if pos < |records| then Ok else NoRecord;
    }

    /** Reads the current record, then moves on by one when advance is set. */
    method Get(advance: bool) returns (st: Status, key: Bytes, value: Bytes)
      modifies this
      ensures old(pos) < |records| ==>
                st == Ok && key == records[old(pos)].key && value == records[old(pos)].value &&
                pos == (if advance then old(pos) + 1 else old(pos))
      ensures old(pos) >= |records| ==> st == NoRecord && key == [] && value == [] && pos == old(pos)
    {
      if pos < |records| {
        st, key, value := Ok, records[pos].key, records[pos].value;
        if advance {
          pos := pos + 1;
        }
      } else {
        st, key, value := NoRecord, [], [];
      }
    }

    /** Moves to the next record; moving off the last one reports "no record". */
    method Step() returns (st: Status)
      modifies this
      ensures old(pos) < |records| ==> pos == old(pos) + 1
      ensures old(pos) >= |records| ==> pos == old(pos)
      ensures st == (if old(pos) + 1 < |records| then Ok else NoRecord)
    {
      if pos < |records| {
        pos := pos + 1;
      }
      st := if pos < |records| then Ok else NoRecord;
    }
  }

  /** The database handle: its records in key order. */
  class Db {
    var records: seq<Record>

    ghost predicate Valid()
      reads this
    {
      Sorted(records)
    }

    constructor ()
      ensures Valid() && records == []
    {
      records := [];
    }

    /** KC set: stores v under k, replacing any earlier value. */
    method Set(k: Bytes, v: Bytes)
      requires Valid()
      modifies this
      ensures Valid()
      ensures records == Insert(old(records), k, v)
    {
      records := Insert(records, k, v);
    }

    /** KC get: the value under k, None for "no record". */
    method Get(k: Bytes) returns (v: Option<Bytes>)
      requires Valid()
      ensures v.Some? <==> exists r :: r in records && r.key == k
      ensures v.Some? ==> Record(k, v.value) in records
    {
      v := Lookup(records, k);
      LookupAbsent(records, k);
      if v.Some? {
        LookupFinds(records, k, v.value);
      }
    }

    /** KC remove: deletes the record under k; "no record" when there is none. */
    method Remove(k: Bytes) returns (st: Status)
      requires Valid()
      modifies this
      ensures Valid()
      ensures records == Delete(old(records), k)
      ensures st == (if Lookup(old(records), k).Some? then Ok else NoRecord)
    {
      st := if Lookup(records, k).Some? then Ok else NoRecord;
      records := Delete(records, k);
    }

    /** A new cursor over the current records. */
    method OpenCursor(start: nat) returns (c: Cursor)
      ensures fresh(c) && c.records == records && c.pos == start
    {
      c := new Cursor(records, start);
    }
  }
}
