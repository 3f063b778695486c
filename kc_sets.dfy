/**
  kc/sets.go: the revision of package kc whose composite keys use the escaped
  codec. It holds
  - the leaf skipper the set-operation engine drives (kcSkipper.Skip): answer
    "the first immediate child of my superkey at or after min", stepping over
    deeper keys;
  - DB.skipper, which turns a leaf path "a/b" into a skipper;
  - DB.SetOp's shaping of engine results into KV values;
  - the prefix enumerator DB.each, with GetCollection and ClearAll on top.
*/
module KcSets {
  import opened KeyCodec
  import opened OrderedStore
  import opened Wrappers
  import opened SetOp
  import opened ByteText

  /** A key/value pair; Keys are the parts of the key. */
  datatype KV = KV(keys: seq<Bytes>, value: Bytes)

  /** Skip's (result, err): a result, end of data (nil, nil), or an error. */
  datatype SkipOutcome = Found(result: SetOpResult) | Exhausted | Failed(status: Status)

  /** k lies under the superkey and has exactly one more part than it. */
  predicate IsChildKey(superkey: Bytes, length: nat, k: Bytes) {
    IsPrefix(superkey, k) && |Split(k)| == length + 1
  }

  /** The store key that corresponds to the bound min under the superkey. */
  function RealMin(superkey: Bytes, min: Option<Bytes>): Bytes {
    superkey + Escape(min.GetOr([]))
  }

  lemma SuperkeyBelowRealMin(superkey: Bytes, min: Option<Bytes>)
    ensures Below(superkey, RealMin(superkey, min))
  {
    assert RealMin(superkey, min)[..|superkey|] == superkey;
    PrefixBelow(superkey, RealMin(superkey, min));
  }

  // ---------------------------------------------------------------------------
  // The skipper's behaviour as functions of the records and the cursor position
  // ---------------------------------------------------------------------------

  /** Where the first phase of Skip leaves the cursor. */
  datatype Landing = LandAt(at: nat) | NoData(at: nat) | StepFault

  /** A jump to k, as a landing. */
  function Jump(rs: seq<Record>, k: Bytes): Landing {
    var j := LowerBound(rs, k);
    if j < |rs| then LandAt(j) else NoData(j)
  }

  /** The positioning phase of Skip (kc/sets.go:39-95). A step off the last
      record surfaces as an error, because the code tests for "no error"
      where the store says "no record". */
  function Position(rs: seq<Record>, p: nat, superkey: Bytes, realMin: Bytes, hasMin: bool, inc: bool): Landing {
    if p >= |rs| then NoData(p)
    else if Compare(rs[p].key, superkey) < 1 then Jump(rs, realMin)
    else
      var cmp := Compare(rs[p].key, realMin);
      if hasMin && cmp < (if inc then 0 else 1) then
        if cmp < 0 then Jump(rs, realMin)
        else if p + 1 < |rs| then LandAt(p + 1)
        else StepFault
      else LandAt(p)
  }

  /** The scanning phase of Skip (kc/sets.go:97-132): from position s, step
      over deeper keys until an immediate child or the end of the superkey's range. */
  function ScanChildren(rs: seq<Record>, s: nat, superkey: Bytes, length: nat): (SkipOutcome, nat)
    decreases |rs| - s
  {
    if s >= |rs| || !IsPrefix(superkey, rs[s].key) then (Exhausted, s)
    else if |Split(rs[s].key)| == length + 1 then
      (Found(SetOpResult(Split(rs[s].key)[length], [rs[s].value])), s)
    else if s + 1 < |rs| then ScanChildren(rs, s + 1, superkey, length)
    else (Failed(NoRecord), |rs|)
  }

  /** Skip's outcome and the cursor position it leaves. */
  function SkipSpec(rs: seq<Record>, p: nat, superkey: Bytes, length: nat, min: Option<Bytes>, inc: bool): (SkipOutcome, nat) {
    match Position(rs, p, superkey, RealMin(superkey, min), min.Some?, inc)
    case NoData(q) => (Exhausted, q)
    case StepFault => (Failed(NoRecord), |rs|)
    case LandAt(s) => ScanChildren(rs, s, superkey, length)
  }

  /** The scan ends on the first immediate child from s on, or reports none. */
  lemma {:induction false} ScanLeast(rs: seq<Record>, s: nat, superkey: Bytes, length: nat)
    requires Sorted(rs) && s < |rs| && !Below(rs[s].key, superkey)
    ensures var r := ScanChildren(rs, s, superkey, length);
      && (r.0.Found? ==>
            s <= r.1 < |rs| && IsChildKey(superkey, length, rs[r.1].key) &&
            forall j :: s <= j < r.1 ==> !IsChildKey(superkey, length, rs[j].key))
      && (!r.0.Found? ==> forall j :: s <= j < |rs| ==> !IsChildKey(superkey, length, rs[j].key))
    decreases |rs| - s
  {
    if !IsPrefix(superkey, rs[s].key) {
      forall j | s < j < |rs|
        ensures !IsPrefix(superkey, rs[j].key)
      {
        BlockEnded(superkey, rs[s].key, rs[j].key);
      }
    } else if |Split(rs[s].key)| == length + 1 {
    } else if s + 1 < |rs| {
      if Below(rs[s + 1].key, superkey) {
        BelowTransitive(rs[s].key, rs[s + 1].key, superkey);
      }
      ScanLeast(rs, s + 1, superkey, length);
    }
  }

  /** What a scan returns: the last part of an immediate child with its value;
      its only error is the "no record" of a step off the end. */
  lemma {:induction false} ScanOutcome(rs: seq<Record>, s: nat, superkey: Bytes, length: nat)
    ensures var r := ScanChildren(rs, s, superkey, length);
      && (r.0.Found? ==>
            r.1 < |rs| && IsChildKey(superkey, length, rs[r.1].key) &&
            r.0.result == SetOpResult(Split(rs[r.1].key)[length], [rs[r.1].value]))
      && (r.0.Failed? ==> r.0.status == NoRecord && r.1 == |rs|)
    decreases |rs| - s
  {
    if s >= |rs| || !IsPrefix(superkey, rs[s].key) {
    } else if |Split(rs[s].key)| == length + 1 {
    } else if s + 1 < |rs| {
      ScanOutcome(rs, s + 1, superkey, length);
    }
  }

  /** Skip returns only an immediate child of the superkey, and its Key is the
      child's last part (kc/sets.go:97-115). */
  lemma SkipResult(rs: seq<Record>, p: nat, superkey: Bytes, length: nat, min: Option<Bytes>, inc: bool)
    ensures var r := SkipSpec(rs, p, superkey, length, min, inc);
      && (r.0.Found? ==>
            r.1 < |rs| && IsPrefix(superkey, rs[r.1].key) && |Split(rs[r.1].key)| == length + 1 &&
            r.0.result.key == Split(rs[r.1].key)[|Split(rs[r.1].key)| - 1] &&
            r.0.result.values == [rs[r.1].value])
      && (r.0.Failed? ==> r.0.status == NoRecord && r.1 == |rs|)
  {
    match Position(rs, p, superkey, RealMin(superkey, min), min.Some?, inc)
    case NoData(q) =>
    case StepFault =>
    case LandAt(s) => ScanOutcome(rs, s, superkey, length);
  }

  /** A cursor at or before the superkey, or (with a bound) below superkey ++
      escape(min), jumps to superkey ++ escape(min): Skip then yields the least
      immediate child whose key is at or above that bound, or nothing when there
      is none. The jump ignores inc. */
  lemma SkipFromBelow(rs: seq<Record>, p: nat, superkey: Bytes, length: nat, min: Option<Bytes>, inc: bool)
    requires Sorted(rs) && p < |rs|
    requires Compare(rs[p].key, superkey) < 1 || (min.Some? && Below(rs[p].key, RealMin(superkey, min)))
    ensures var r := SkipSpec(rs, p, superkey, length, min, inc);
            var m := RealMin(superkey, min);
      && (r.0.Found? ==>
            r.1 < |rs| && IsChildKey(superkey, length, rs[r.1].key) && !Below(rs[r.1].key, m) &&
            forall j :: 0 <= j < r.1 && IsChildKey(superkey, length, rs[j].key) ==> Below(rs[j].key, m))
      && (!r.0.Found? ==>
            forall j :: 0 <= j < |rs| && IsChildKey(superkey, length, rs[j].key) ==> Below(rs[j].key, m))
  {
    var m := RealMin(superkey, min);
    CompareSigns(rs[p].key, m);
    assert Position(rs, p, superkey, m, min.Some?, inc) == Jump(rs, m);
    var j0 := LowerBound(rs, m);
    LowerBoundSorted(rs, m);
    if j0 < |rs| {
      SuperkeyBelowRealMin(superkey, min);
      if Below(rs[j0].key, superkey) {
        BelowTransitive(rs[j0].key, superkey, m);
      }
      ScanLeast(rs, j0, superkey, length);
    }
  }

  /** A cursor exactly at superkey ++ escape(min) with inc false steps once:
      Skip then yields the least immediate child strictly above the bound. */
  lemma SkipAtBoundExclusive(rs: seq<Record>, p: nat, superkey: Bytes, length: nat, min: Option<Bytes>)
    requires Sorted(rs) && p < |rs| && min.Some? && rs[p].key == RealMin(superkey, min)
    ensures var r := SkipSpec(rs, p, superkey, length, min, false);
            var m := RealMin(superkey, min);
      && (r.0.Found? ==>
            r.1 < |rs| && IsChildKey(superkey, length, rs[r.1].key) && Below(m, rs[r.1].key) &&
            forall j :: 0 <= j < r.1 && IsChildKey(superkey, length, rs[j].key) ==> !Below(m, rs[j].key))
      && (!r.0.Found? ==>
            forall j :: 0 <= j < |rs| && IsChildKey(superkey, length, rs[j].key) ==> !Below(m, rs[j].key))
  {
    var m := RealMin(superkey, min);
    SuperkeyBelowRealMin(superkey, min);
    CompareSigns(m, superkey);
    BelowAsymmetric(superkey, m);
    CompareSigns(m, m);
    forall j | 0 <= j <= p
      ensures !Below(m, rs[j].key)
    {
      BelowIrreflexive(m);
      if j < p {
        BelowAsymmetric(rs[j].key, m);
      }
    }
    if p + 1 < |rs| {
      assert Position(rs, p, superkey, m, true, false) == LandAt(p + 1);
      assert Below(m, rs[p + 1].key);
      if Below(rs[p + 1].key, superkey) {
        BelowTransitive(superkey, m, rs[p + 1].key);
        BelowAsymmetric(superkey, rs[p + 1].key);
      }
      ScanLeast(rs, p + 1, superkey, length);
    }
  }

  /** A cursor already inside the superkey's range and far enough ahead (or with
      no bound at all) does not move: Skip yields the least immediate child from
      the cursor on. */
  lemma SkipAhead(rs: seq<Record>, p: nat, superkey: Bytes, length: nat, min: Option<Bytes>, inc: bool)
    requires Sorted(rs) && p < |rs| && Below(superkey, rs[p].key)
    requires min.Some? ==>
      if inc then !Below(rs[p].key, RealMin(superkey, min)) else Below(RealMin(superkey, min), rs[p].key)
    ensures var r := SkipSpec(rs, p, superkey, length, min, inc);
      && (r.0.Found? ==>
            p <= r.1 < |rs| && IsChildKey(superkey, length, rs[r.1].key) &&
            forall j :: p <= j < r.1 ==> !IsChildKey(superkey, length, rs[j].key))
      && (!r.0.Found? ==> forall j :: p <= j < |rs| ==> !IsChildKey(superkey, length, rs[j].key))
  {
    var m := RealMin(superkey, min);
    CompareSigns(rs[p].key, superkey);
    BelowAsymmetric(superkey, rs[p].key);
    CompareSigns(rs[p].key, m);
    if min.Some? && !inc {
      BelowAsymmetric(m, rs[p].key);
    }
    assert Position(rs, p, superkey, m, min.Some?, inc) == LandAt(p);
    ScanLeast(rs, p, superkey, length);
  }

  // ---------------------------------------------------------------------------
  // The skipper object
  // ---------------------------------------------------------------------------

  /** A leaf of a set expression: a cursor, the joined superkey and its part count. */
  class KcSkipper {
    const cursor: Cursor
    const key: Bytes
    const length: nat

    constructor (cursor: Cursor, key: Bytes, length: nat)
      ensures this.cursor == cursor && this.key == key && this.length == length
    {
      this.cursor := cursor;
      this.key := key;
      this.length := length;
    }

    /** The positioning phase of kcSkipper.Skip (kc/sets.go:39-95). */
    method Land(min: Option<Bytes>, inc: bool) returns (l: Landing)
      modifies cursor
      ensures l == Position(cursor.records, old(cursor.pos), key, RealMin(key, min), min.Some?, inc)
      ensures match l
        case LandAt(s) => cursor.pos == s
        case NoData(q) => cursor.pos == q
        case StepFault => cursor.pos == |cursor.records|
    {
      var lt := if inc then 0 else 1;
      var realMin := key + Escape(min.GetOr([]));
      var st, k, v := cursor.Get(false);
      if st == NoRecord {
        return NoData(cursor.pos);
      }
      if Compare(k, key) < 1 {
        st := cursor.JumpKey(realMin);
        return if st == NoRecord then NoData(cursor.pos) else LandAt(cursor.pos);
      }
      var cmp := Compare(k, realMin);
      if min.Some? && cmp < lt {
        if cmp < 0 {
          st := cursor.JumpKey(realMin);
          return if st == NoRecord then NoData(cursor.pos) else LandAt(cursor.pos);
        }
        st := cursor.Step();
        // the code compares the error with "no error", so it surfaces
        return if st == NoRecord then StepFault else LandAt(cursor.pos);
      }
      return LandAt(cursor.pos);
    }

    /** kcSkipper.Skip (kc/sets.go:24-133). */
    method Skip(min: Option<Bytes>, inc: bool) returns (out: SkipOutcome)
      modifies cursor
      ensures (out, cursor.pos) == SkipSpec(cursor.records, old(cursor.pos), key, length, min, inc)
    {
      var l := Land(min, inc);
      if l.NoData? {
        return Exhausted;
      } else if l.StepFault? {
        return Failed(NoRecord);
      }
      var st, k, v := cursor.Get(false);
      while true
        invariant cursor.pos < |cursor.records|
        invariant k == cursor.records[cursor.pos].key && v == cursor.records[cursor.pos].value
        invariant ScanChildren(cursor.records, cursor.pos, key, length) ==
                  SkipSpec(cursor.records, old(cursor.pos), key, length, min, inc)
        decreases |cursor.records| - cursor.pos
      {
        if |k| < |key| || k[..|key|] != key {
          return Exhausted;
        }
        var splitKey := Split(k);
        if |splitKey| == length + 1 {
          return Found(SetOpResult(splitKey[|splitKey| - 1], [v]));
        }
        st := cursor.Step();
        if st == NoRecord {
          return Failed(NoRecord);
        }
        st, k, v := cursor.Get(false);
      }
    }
  }

  // ---------------------------------------------------------------------------
  // DB.skipper: a leaf path split on '/'
  // ---------------------------------------------------------------------------

  const Slash: Byte := 47

  /** DB.skipper (kc/sets.go:135-148): the leaf path b is split on '/', the
      superkey is the join of the parts and length is their count. */
  method Skipper(db: Db, b: Bytes, start: nat) returns (s: KcSkipper)
    ensures fresh(s) && fresh(s.cursor)
    ensures s.cursor.records == db.records && s.cursor.pos == start
    ensures s.key == Join(SplitOn(b, Slash)) && s.length == |SplitOn(b, Slash)|
  {
    var keys := SplitOn(b, Slash);
    var cursor := db.OpenCursor(start);
    s := new KcSkipper(cursor, Join(keys), |keys|);
  }

  /** DB.SetOp's shaping of the engine's results (kc/sets.go:150-162): each
      result becomes a KV whose Keys is the single part res.Key and whose Value
      is the first merged value. */
  function SetOpKVs(results: seq<SetOpResult>): (kvs: seq<KV>)
    requires forall i :: 0 <= i < |results| ==> |results[i].values| > 0
    ensures |kvs| == |results|
    ensures forall i :: 0 <= i < |kvs| ==> kvs[i] == KV([results[i].key], results[i].values[0])
  {
    if |results| == 0 then [] else [KV([results[0].key], results[0].values[0])] + SetOpKVs(results[1..])
  }

  // ---------------------------------------------------------------------------
  // The prefix enumerator
  // ---------------------------------------------------------------------------

  /** What DB.each yields from the records rs onward (kc/sets.go:196-212): it
      stops at the first key that does not strictly extend joined, and yields
      only the keys with exactly n + 1 parts. */
  function ScanEach(rs: seq<Record>, joined: Bytes, n: nat): seq<KV> {
    if |rs| == 0 || !(|rs[0].key| > |joined| && IsPrefix(joined, rs[0].key)) then []
    else
      (if |Split(rs[0].key)| == n + 1 then [KV(Split(rs[0].key), rs[0].value)] else []) +
      ScanEach(rs[1..], joined, n)
  }

  /** DB.each(keys): jump to join(keys), then scan. */
  function EachSpec(rs: seq<Record>, keys: seq<Bytes>): seq<KV> {
    ScanEach(rs[LowerBound(rs, Join(keys))..], Join(keys), |keys|)
  }

  /** A record one level below the prefix joined, which has n parts. */
  predicate IsChild(joined: Bytes, n: nat, r: Record) {
    |r.key| > |joined| && IsPrefix(joined, r.key) && |Split(r.key)| == n + 1
  }

  /** Every immediate child among rs, in order: the reference definition of
      the enumerator's output. */
  function Children(rs: seq<Record>, joined: Bytes, n: nat): seq<KV> {
    if |rs| == 0 then []
    else
      (if IsChild(joined, n, rs[0]) then [KV(Split(rs[0].key), rs[0].value)] else []) +
      Children(rs[1..], joined, n)
  }

  lemma {:induction false} ChildrenAppend(a: seq<Record>, b: seq<Record>, joined: Bytes, n: nat)
    ensures Children(a + b, joined, n) == Children(a, joined, n) + Children(b, joined, n)
    decreases |a|
  {
    if |a| == 0 {
      assert a + b == b;
    } else {
      assert (a + b)[0] == a[0];
      assert (a + b)[1..] == a[1..] + b;
      ChildrenAppend(a[1..], b, joined, n);
    }
  }

  lemma {:induction false} ChildrenNone(rs: seq<Record>, joined: Bytes, n: nat)
    requires forall j :: 0 <= j < |rs| ==> !IsChild(joined, n, rs[j])
    ensures Children(rs, joined, n) == []
    decreases |rs|
  {
    if |rs| > 0 {
      assert forall j :: 0 <= j < |rs| - 1 ==> rs[1..][j] == rs[j + 1];
      ChildrenNone(rs[1..], joined, n);
    }
  }

  /** Children lists exactly the immediate children, as (parts, value). */
  lemma {:induction false} ChildrenMembers(rs: seq<Record>, joined: Bytes, n: nat)
    ensures forall x :: x in Children(rs, joined, n) <==>
      exists r :: r in rs && IsChild(joined, n, r) && x == KV(Split(r.key), r.value)
    decreases |rs|
  {
    if |rs| > 0 {
      ChildrenMembers(rs[1..], joined, n);
      assert rs == [rs[0]] + rs[1..];
    }
  }

  /** From a position at or above joined, with no record exactly at joined,
      the scan meets exactly the children. */
  lemma {:induction false} ScanIsChildren(rs: seq<Record>, joined: Bytes, n: nat)
    requires Sorted(rs)
    requires forall j :: 0 <= j < |rs| ==> !Below(rs[j].key, joined) && rs[j].key != joined
    ensures ScanEach(rs, joined, n) == Children(rs, joined, n)
    decreases |rs|
  {
    if |rs| > 0 {
      SortedSlices(rs, 1, 1);
      if |rs[0].key| > |joined| && IsPrefix(joined, rs[0].key) {
        ScanIsChildren(rs[1..], joined, n);
      } else {
        assert !IsPrefix(joined, rs[0].key);
        forall j | 0 <= j < |rs|
          ensures !IsChild(joined, n, rs[j])
        {
          if j > 0 {
            BlockEnded(joined, rs[0].key, rs[j].key);
          }
        }
        ChildrenNone(rs, joined, n);
      }
    }
  }

  /** Nothing before the jump target is a child of joined. */
  lemma NoneBeforePrefix(rs: seq<Record>, joined: Bytes, n: nat)
    ensures Children(rs[..LowerBound(rs, joined)], joined, n) == []
  {
    var before := rs[..LowerBound(rs, joined)];
    forall j | 0 <= j < |before|
      ensures !IsChild(joined, n, before[j])
    {
      if IsPrefix(joined, before[j].key) && before[j].key != joined {
        PrefixBelow(joined, before[j].key);
        BelowAsymmetric(joined, before[j].key);
      }
    }
    ChildrenNone(before, joined, n);
  }

  /** From the jump target on, the scan meets every child of joined. */
  lemma ScanAfterPrefix(rs: seq<Record>, joined: Bytes, n: nat)
    requires Sorted(rs)
    requires forall r :: r in rs ==> r.key != joined
    ensures ScanEach(rs[LowerBound(rs, joined)..], joined, n) == Children(rs[LowerBound(rs, joined)..], joined, n)
  {
    var i := LowerBound(rs, joined);
    LowerBoundSorted(rs, joined);
    SortedSlices(rs, i, i);
    var after := rs[i..];
    forall j | 0 <= j < |after|
      ensures !Below(after[j].key, joined) && after[j].key != joined
    {
      assert after[j] == rs[i + j];
    }
    ScanIsChildren(after, joined, n);
  }

  lemma ChildrenSplit(rs: seq<Record>, i: nat, joined: Bytes, n: nat)
    requires i <= |rs|
    ensures Children(rs, joined, n) == Children(rs[..i], joined, n) + Children(rs[i..], joined, n)
  {
    assert rs == rs[..i] + rs[i..];
    ChildrenAppend(rs[..i], rs[i..], joined, n);
  }

  /** With no record stored exactly at the prefix, each yields exactly the
      children of the prefix, in store order. */
  lemma EachIsChildren(rs: seq<Record>, keys: seq<Bytes>)
    requires Sorted(rs)
    requires forall r :: r in rs ==> r.key != Join(keys)
    ensures EachSpec(rs, keys) == Children(rs, Join(keys), |keys|)
  {
    NoneBeforePrefix(rs, Join(keys), |keys|);
    ScanAfterPrefix(rs, Join(keys), |keys|);
    ChildrenSplit(rs, LowerBound(rs, Join(keys)), Join(keys), |keys|);
  }

  /** A record stored exactly at the prefix ends the enumeration at once: each
      yields nothing even when the prefix has children (kc/sets.go:204-211). */
  lemma EachStopsAtPrefixRecord(rs: seq<Record>, keys: seq<Bytes>, v: Bytes)
    requires Sorted(rs) && Record(Join(keys), v) in rs
    ensures EachSpec(rs, keys) == []
  {
    var joined := Join(keys);
    var i := LowerBound(rs, joined);
    var j :| 0 <= j < |rs| && rs[j] == Record(joined, v);
    BelowIrreflexive(joined);
    assert i == j;
    assert rs[i..][0] == rs[j];
  }

  /** A child of keys splits into keys followed by one more part. */
  lemma ChildParts(keys: seq<Bytes>, r: Record)
    requires IsChild(Join(keys), |keys|, r)
    ensures |Split(r.key)| == |keys| + 1 && Split(r.key)[..|keys|] == keys
  {
    SplitPrefixed(keys, r.key);
    assert (keys + Split(r.key[|Join(keys)|..]))[..|keys|] == keys;
  }

  /** Keys stored by the codec: each key is the join of its parts. */
  predicate WellFormed(rs: seq<Record>) {
    forall r :: r in rs ==> Canonical(r.key)
  }

  /** The composite keys of the pairs ascend strictly. */
  predicate Ascending(c: seq<KV>) {
    forall i, j :: 0 <= i < j < |c| ==> Below(Join(c[i].keys), Join(c[j].keys))
  }

  /** Children come out in ascending key order. */
  lemma {:induction false} ChildrenOrdered(rs: seq<Record>, joined: Bytes, n: nat)
    requires Sorted(rs) && WellFormed(rs)
    ensures Ascending(Children(rs, joined, n))
    decreases |rs|
  {
    if |rs| > 0 {
      SortedSlices(rs, 1, 1);
      ChildrenOrdered(rs[1..], joined, n);
      ChildrenMembers(rs[1..], joined, n);
      var tail := Children(rs[1..], joined, n);
      forall x | x in tail
        ensures Below(rs[0].key, Join(x.keys))
      {
        var r :| r in rs[1..] && IsChild(joined, n, r) && x == KV(Split(r.key), r.value);
        var k :| 0 <= k < |rs| - 1 && rs[1..][k] == r;
        assert rs[k + 1] == r;
        assert r in rs;
        assert Join(x.keys) == r.key;
      }
      assert rs[0] in rs;
      var c := Children(rs, joined, n);
      if IsChild(joined, n, rs[0]) {
        assert c == [KV(Split(rs[0].key), rs[0].value)] + tail;
        forall i, j | 0 <= i < j < |c|
          ensures Below(Join(c[i].keys), Join(c[j].keys))
        {
          assert c[j] == tail[j - 1];
          if i > 0 {
            assert c[i] == tail[i - 1];
            assert Below(Join(tail[i - 1].keys), Join(tail[j - 1].keys));
          } else {
            assert tail[j - 1] in tail;
            assert Join(c[0].keys) == rs[0].key;
            assert Below(rs[0].key, Join(tail[j - 1].keys));
          }
        }
      } else {
        assert c == tail;
      }
    }
  }

  /** GetCollection (kc/sets.go:176-184): the (full parts, value) pairs of the
      immediate children of keys, and nothing from sibling prefixes. */
  lemma GetCollectionExact(rs: seq<Record>, keys: seq<Bytes>)
    requires Sorted(rs)
    requires forall r :: r in rs ==> r.key != Join(keys)
    ensures forall x :: x in EachSpec(rs, keys) <==>
      exists r :: r in rs && IsChild(Join(keys), |keys|, r) && x == KV(Split(r.key), r.value)
    ensures forall x :: x in EachSpec(rs, keys) ==> |x.keys| == |keys| + 1 && x.keys[..|keys|] == keys
  {
    EachIsChildren(rs, keys);
    ChildrenMembers(rs, Join(keys), |keys|);
    forall x | x in EachSpec(rs, keys)
      ensures |x.keys| == |keys| + 1 && x.keys[..|keys|] == keys
    {
      var r :| r in rs && IsChild(Join(keys), |keys|, r) && x == KV(Split(r.key), r.value);
      ChildParts(keys, r);
    }
  }

  /** One step of the enumeration loop, as the records ahead of the cursor
      see it: a key under the prefix adds its pair when it is an immediate
      child, any other key ends the scan. */
  lemma ScanEachStep(rs: seq<Record>, at: nat, joined: Bytes, n: nat, items: seq<KV>)
    requires at < |rs|
    ensures var k := rs[at].key;
      if |k| > |joined| && k[..|joined|] == joined then
        items + ScanEach(rs[at..], joined, n) ==
        (if |Split(k)| == n + 1 then items + [KV(Split(k), rs[at].value)] else items) + ScanEach(rs[at + 1..], joined, n)
      else items + ScanEach(rs[at..], joined, n) == items
  {
    assert rs[at..][0] == rs[at] && rs[at..][1..] == rs[at + 1..];
    var k := rs[at].key;
    if |k| > |joined| && k[..|joined|] == joined {
      assert IsPrefix(joined, k);
      var head := if |Split(k)| == n + 1 then [KV(Split(k), rs[at].value)] else [];
      assert ScanEach(rs[at..], joined, n) == head + ScanEach(rs[at + 1..], joined, n);
      assert items + (head + ScanEach(rs[at + 1..], joined, n)) == (items + head) + ScanEach(rs[at + 1..], joined, n);
    } else {
      assert !IsPrefix(joined, k) || |k| <= |joined|;
      assert items + [] == items;
    }
  }

  /** DB.each (kc/sets.go:186-219): the cursor loop. */
  method Each(db: Db, keys: seq<Bytes>) returns (items: seq<KV>)
    ensures items == EachSpec(db.records, keys)
  {
    var joined := Join(keys);
    var cursor := db.OpenCursor(0);
    var st := cursor.JumpKey(joined);
    items := [];
    if st == NoRecord {
      assert db.records[cursor.pos..] == [];
      return;
    }
    ghost var rs := cursor.records;
    while true
      invariant cursor.records == rs == db.records
      invariant LowerBound(rs, joined) <= cursor.pos <= |rs|
      invariant items + ScanEach(rs[cursor.pos..], joined, |keys|) == EachSpec(rs, keys)
      decreases |rs| - cursor.pos
    {
      ghost var at := cursor.pos;
      var key, value;
      st, key, value := cursor.Get(true);
      if st == NoRecord {
        assert rs[at..] == [];
        return;
      }
      ScanEachStep(rs, at, joined, |keys|, items);
      if |key| > |joined| && key[..|joined|] == joined {
        var splitKey := Split(key);
        if |splitKey| == |keys| + 1 {
          items := items + [KV(Split(key), value)];
        }
      } else {
        return;
      }
    }
  }

  /** GetCollection: the sorted key/value pairs under keys. */
  method GetCollection(db: Db, keys: seq<Bytes>) returns (result: seq<KV>)
    ensures result == EachSpec(db.records, keys)
  {
    result := Each(db, keys);
  }

  /** The composite keys of enumerated pairs, as ClearAll removes them. */
  function JoinedKeys(items: seq<KV>): (ks: seq<Bytes>)
    ensures |ks| == |items| && forall i :: 0 <= i < |items| ==> ks[i] == Join(items[i].keys)
  {
    if |items| == 0 then [] else [Join(items[0].keys)] + JoinedKeys(items[1..])
  }

  /** ClearAll (kc/sets.go:167-171): removes every key each yields. */
  method ClearAll(db: Db, keys: seq<Bytes>)
    requires db.Valid()
    modifies db
    ensures db.Valid()
    ensures db.records == DeleteAll(old(db.records), JoinedKeys(EachSpec(old(db.records), keys)))
  {
    var items := Each(db, keys);
    var ks := JoinedKeys(items);
    var i := 0;
    while i < |items|
      invariant 0 <= i <= |items| && db.Valid()
      invariant DeleteAll(db.records, ks[i..]) == DeleteAll(old(db.records), ks)
    {
      assert ks[i..][0] == ks[i] && ks[i..][1..] == ks[i + 1..];
      var _ := db.Remove(Join(items[i].keys));
      i := i + 1;
    }
  }

  /** After ClearAll, GetCollection of the same keys is empty; with no record
      at the prefix it removed exactly the children and left every other record
      in place (kc/kc_test.go TestCollection1-3, TestMultiLevelCollection). */
  lemma ClearAllEmpties(rs: seq<Record>, keys: seq<Bytes>)
    requires Sorted(rs) && WellFormed(rs)
    ensures var after := DeleteAll(rs, JoinedKeys(EachSpec(rs, keys)));
      && EachSpec(after, keys) == []
      && ((forall r :: r in rs ==> r.key != Join(keys)) ==>
            forall x :: x in after <==> x in rs && !IsChild(Join(keys), |keys|, x))
  {
    var joined := Join(keys);
    var n := |keys|;
    var ks := JoinedKeys(EachSpec(rs, keys));
    var after := DeleteAll(rs, ks);
    if r :| r in rs && r.key == joined {
      EachStopsAtPrefixRecord(rs, keys, r.value);
      assert r in after;
      EachStopsAtPrefixRecord(after, keys, r.value);
    } else {
      EachIsChildren(rs, keys);
      ChildrenMembers(rs, joined, n);
      forall x | x in rs
        ensures x.key in ks <==> IsChild(joined, n, x)
      {
        if IsChild(joined, n, x) {
          var item := KV(Split(x.key), x.value);
          assert item in EachSpec(rs, keys);
          var i :| 0 <= i < |EachSpec(rs, keys)| && EachSpec(rs, keys)[i] == item;
          assert ks[i] == x.key;
        }
        if x.key in ks {
          var i :| 0 <= i < |ks| && ks[i] == x.key;
          var item := EachSpec(rs, keys)[i];
          assert item in EachSpec(rs, keys);
          var r :| r in rs && IsChild(joined, n, r) && item == KV(Split(r.key), r.value);
          var a :| 0 <= a < |rs| && rs[a] == x;
          var b :| 0 <= b < |rs| && rs[b] == r;
          SortedKeysDistinct(rs, a, b);
        }
      }
      forall j | 0 <= j < |after|
        ensures !IsChild(joined, n, after[j])
      {
        assert after[j] in after;
      }
      ChildrenNone(after, joined, n);
      EachIsChildren(after, keys);
    }
  }
}
