/**
  kc/skipper.go: the revision of the kc leaf skipper that compares keys only up
  to the length of the bound. Where the bound's prefix still matches, it jumps
  past all keys sharing that prefix to the bound read as a big-endian number
  plus one. A store "no record" ends the sequence instead of being an error.
*/
module KcTruncSkipper {
  import opened KeyCodec
  import opened OrderedStore
  import opened Wrappers
  import opened SetOp
  import opened ByteText

  // ---------------------------------------------------------------------------
  // minimum
  // ---------------------------------------------------------------------------

  /** The least of r and the elements of s, taken left to right. */
  function MinOf(r: nat, s: seq<nat>): (m: nat)
    ensures m <= r && forall i :: 0 <= i < |s| ==> m <= s[i]
    ensures m == r || m in s
  {
    if |s| == 0 then r else MinOf(if s[0] < r then s[0] else r, s[1..])
  }

  /** minimum (kc/skipper.go:16-23). */
  method Minimum(result0: nat, slice: seq<nat>) returns (result: nat)
    ensures result <= result0 && forall i :: 0 <= i < |slice| ==> result <= slice[i]
    ensures result == result0 || result in slice
  {
    result := result0;
    for i := 0 to |slice|
      invariant result <= result0 && forall j :: 0 <= j < i ==> result <= slice[j]
      invariant result == result0 || result in slice[..i]
    {
      if slice[i] < result {
        result := slice[i];
      }
    }
  }

  /** The least element is unique: Minimum and MinOf agree. */
  lemma MinimumIsMinOf(r: nat, s: seq<nat>, m: nat)
    requires m <= r && forall i :: 0 <= i < |s| ==> m <= s[i]
    requires m == r || m in s
    ensures m == MinOf(r, s)
  {
    var n := MinOf(r, s);
    if n != r {
      var i :| 0 <= i < |s| && s[i] == n;
    }
    if m != r {
      var i :| 0 <= i < |s| && s[i] == m;
    }
  }

  // ---------------------------------------------------------------------------
  // The bound plus one, through math/big
  // ---------------------------------------------------------------------------

  /** big.Int.Bytes: the shortest big-endian bytes of n (zero is empty). */
  function NatToBe(n: nat): (b: Bytes)
    ensures |b| == 0 || b[0] != 0
    ensures n == 0 <==> |b| == 0
  {
    if n == 0 then [] else NatToBe(n / 256) + [n % 256]
  }

  /** Reading the bytes back gives the number. */
  lemma {:induction false} NatToBeInverse(n: nat)
    ensures BeToNat(NatToBe(n)) == n
  {
    if n > 0 {
      NatToBeInverse(n / 256);
      var b := NatToBe(n);
      assert b[..|b| - 1] == NatToBe(n / 256);
    }
  }

  /** Bytes without a leading zero are exactly the bytes of their number. */
  lemma {:induction false} BeToNatInverse(b: Bytes)
    requires |b| == 0 || b[0] != 0
    ensures NatToBe(BeToNat(b)) == b
    decreases |b|
  {
    if |b| > 0 {
      var init := b[..|b| - 1];
      BeToNatInverse(init);
      var n := BeToNat(b);
      if |init| > 0 {
        BeToNatPositive(init);
      }
      assert n / 256 == BeToNat(init) && n % 256 == b[|b| - 1];
      assert b == init + [b[|b| - 1]];
    }
  }

  lemma {:induction false} BeToNatPositive(b: Bytes)
    requires |b| > 0 && b[0] != 0
    ensures BeToNat(b) > 0
    decreases |b|
  {
    if |b| > 1 {
      BeToNatPositive(b[..|b| - 1]);
    }
  }

  /** The jump target of skip: min + 1 as math/big computes it. */
  function PlusOne(min: Bytes): Bytes {
    NatToBe(BeToNat(min) + 1)
  }

  /** Without a leading zero and with a last byte below 0xff, plus one keeps the
      width and raises the last byte. */
  lemma PlusOneLastByte(b: Bytes)
    requires |b| > 0 && b[0] != 0 && b[|b| - 1] < 255
    ensures PlusOne(b) == b[..|b| - 1] + [b[|b| - 1] + 1]
  {
    var c := b[..|b| - 1] + [b[|b| - 1] + 1];
    assert c[..|c| - 1] == b[..|b| - 1];
    assert BeToNat(c) == BeToNat(b) + 1;
    BeToNatInverse(c);
  }

  /** Leading zero bytes are lost: the bound [0x00, 0x01, 0x05, 0x00, 0x01]
      (an empty part, then the part [0x05]) plus one is [0x01, 0x05, 0x00, 0x02]. */
  lemma PlusOneDropsLeadingZeros()
    ensures PlusOne([0, 1, 5, 0, 1]) == [1, 5, 0, 2]
  {
    var b: Bytes := [0, 1, 5, 0, 1];
    assert BeToNat([0]) == 0 by { assert [0][..0] == []; }
    assert BeToNat([0, 1]) == 1 by { assert [0, 1][..1] == [0]; }
    assert BeToNat([0, 1, 5]) == 0x0105 by { assert [0, 1, 5][..2] == [0, 1]; }
    assert BeToNat([0, 1, 5, 0]) == 0x0105_00 by { assert [0, 1, 5, 0][..3] == [0, 1, 5]; }
    assert BeToNat(b) == 0x0105_0001 by { assert b[..4] == [0, 1, 5, 0]; }
    var c: Bytes := [1, 5, 0, 2];
    assert BeToNat([1]) == 1 by { assert [1][..0] == []; }
    assert BeToNat([1, 5]) == 0x0105 by { assert [1, 5][..1] == [1]; }
    assert BeToNat([1, 5, 0]) == 0x0105_00 by { assert [1, 5, 0][..2] == [1, 5]; }
    assert BeToNat(c) == 0x0105_0002 by { assert c[..3] == [1, 5, 0]; }
    BeToNatInverse(c);
  }

  // ---------------------------------------------------------------------------
  // skip
  // ---------------------------------------------------------------------------

  /** key[:minimum(len(key), maxLengths...)]. */
  function Trunc(k: Bytes, maxLengths: seq<nat>): Bytes {
    k[..MinOf(|k|, maxLengths)]
  }

  /** The test skip applies: the truncated key compares above gt against min. */
  predicate Passes(k: Bytes, min: Bytes, gt: int, maxLengths: seq<nat>) {
    Compare(Trunc(k, maxLengths), min) > gt
  }

  /** Where skip stops: on a record it reports found, or not found. */
  datatype Probe = Hit(at: nat) | Miss(at: nat)

  /** skip (kc/skipper.go:25-78): test the current record; otherwise jump to
      min and test; otherwise step once (no maxLengths) or jump to min + 1,
      and test the record there against the new bound. */
  function ProbeSpec(rs: seq<Record>, p: nat, min: Bytes, gt: int, maxLengths: seq<nat>): (r: Probe)
    ensures r.Hit? ==> r.at < |rs|
  {
    if p >= |rs| then Miss(p)
    else if Passes(rs[p].key, min, gt, maxLengths) then Hit(p)
    else
      var j := LowerBound(rs, min);
      if j >= |rs| then Miss(j)
      else if Passes(rs[j].key, min, gt, maxLengths) then Hit(j)
      else if |maxLengths| == 0 then
        if j + 1 < |rs| && Passes(rs[j + 1].key, min, gt, maxLengths) then Hit(j + 1) else Miss(j + 1)
      else
        var next := PlusOne(min);
        var q := LowerBound(rs, next);
        if q < |rs| && Passes(rs[q].key, next, gt, maxLengths) then Hit(q) else Miss(q)
  }

  /** With full keys compared (no maxLengths), skip lands on the first record
      from the cursor on that is above min (gt 0) or at or above it (gt -1). */
  lemma ProbeFullKeys(rs: seq<Record>, p: nat, min: Bytes, gt: int)
    requires Sorted(rs) && (gt == 0 || gt == -1)
    ensures var r := ProbeSpec(rs, p, min, gt, []);
      && (r.Hit? ==> p <= r.at < |rs| && Passes(rs[r.at].key, min, gt, []) &&
                     forall j :: p <= j < r.at ==> !Passes(rs[j].key, min, gt, []))
      && (r.Miss? ==> forall j :: p <= j < |rs| ==> !Passes(rs[j].key, min, gt, []))
  {
    if p < |rs| && !Passes(rs[p].key, min, gt, []) {
      var j := LowerBound(rs, min);
      LowerBoundSorted(rs, min);
      forall i | 0 <= i < |rs|
        ensures Passes(rs[i].key, min, gt, []) <==> if gt == 0 then Below(min, rs[i].key) else !Below(rs[i].key, min)
      {
        assert Trunc(rs[i].key, []) == rs[i].key;
        CompareSigns(rs[i].key, min);
      }
      if j < |rs| && !Passes(rs[j].key, min, gt, []) {
        BelowTotal(rs[j].key, min);
        assert rs[j].key == min;
        forall i | j < i < |rs|
          ensures Passes(rs[i].key, min, gt, [])
        {
          assert Below(rs[j].key, rs[i].key);
        }
      }
      if j < p {
        // the record at p would be at or above min, so it would pass
        if gt == 0 {
          BelowTotal(rs[j].key, min);
          if rs[j].key != min {
            BelowTransitive(min, rs[j].key, rs[p].key);
          }
        }
      }
      forall i | p <= i < j
        ensures !Passes(rs[i].key, min, gt, [])
      {
        if gt == 0 {
          BelowAsymmetric(rs[i].key, min);
        }
      }
    }
  }

  /** Equal first bytes leave the prefix question to the rests. */
  lemma PrefixStep(c: Bytes, k: Bytes)
    requires |c| > 0 && |k| > 0 && k[0] == c[0]
    ensures IsPrefix(c, k) <==> IsPrefix(c[1..], k[1..])
  {
    if |c| <= |k| {
      assert k[..|c|] == [k[0]] + k[1..][..|c| - 1];
      assert c == [c[0]] + c[1..];
    }
  }

  /** A prefix of a prefix is a prefix. */
  lemma PrefixShorter(c: Bytes, b: Bytes, k: Bytes)
    requires IsPrefix(c, b)
    ensures IsPrefix(b, k) ==> IsPrefix(c, k)
  {
    if IsPrefix(b, k) {
      assert k[..|c|] == k[..|b|][..|c|];
    }
  }

  /** A key cut to the bound's length compares against the bound as the whole
      key does, except that a key extending the bound is cut to the bound
      itself. */
  lemma {:induction false} TruncOrder(k: Bytes, b: Bytes)
    ensures var t := k[..if |b| < |k| then |b| else |k|];
      && (Below(t, b) <==> Below(k, b))
      && (Below(b, t) <==> Below(b, k) && !IsPrefix(b, k))
    decreases |b|
  {
    var n := if |b| < |k| then |b| else |k|;
    var t := k[..n];
    if |b| > 0 && |k| > 0 && k[0] == b[0] {
      TruncOrder(k[1..], b[1..]);
      assert t[1..] == k[1..][..n - 1];
      PrefixStep(b, k);
    }
  }

  /** k sorts after every key that starts with b. */
  predicate Beyond(b: Bytes, k: Bytes) {
    Below(b, k) && !IsPrefix(b, k)
  }

  /** With keys cut to the bound's length, the at-or-above test (gt -1) is
      the full-key test, and the above test (gt 0) passes exactly the keys
      beyond every key that starts with the bound. */
  lemma TruncPasses(k: Bytes, b: Bytes)
    ensures Passes(k, b, -1, [|b|]) <==> !Below(k, b)
    ensures Passes(k, b, 0, [|b|]) <==> Beyond(b, k)
  {
    TruncOrder(k, b);
    var t := Trunc(k, [|b|]);
    assert t == k[..if |b| < |k| then |b| else |k|];
    CompareSigns(t, b);
  }

  /** A common prefix decides nothing. */
  lemma {:induction false} CommonPrefixIff(c: Bytes, x: Bytes, y: Bytes)
    ensures Below(c + x, c + y) <==> Below(x, y)
    decreases |c|
  {
    if |c| > 0 {
      assert (c + x)[1..] == c[1..] + x && (c + y)[1..] == c[1..] + y;
      CommonPrefixIff(c[1..], x, y);
    } else {
      assert c + x == x && c + y == y;
    }
  }

  /** Against a key that does not start with c, whatever follows c decides
      nothing. */
  lemma {:induction false} OffPrefix(c: Bytes, x: Bytes, k: Bytes)
    requires !IsPrefix(c, k)
    ensures Below(k, c + x) <==> Below(k, c)
    ensures Below(c + x, k) <==> Below(c, k)
    decreases |c|
  {
    if |k| > 0 && k[0] == c[0] {
      assert (c + x)[1..] == c[1..] + x;
      PrefixStep(c, k);
      OffPrefix(c[1..], x, k[1..]);
    }
  }

  /** Raising the last byte of b by one gives the least key beyond every key
      that starts with b. */
  lemma NextBound(b: Bytes, k: Bytes)
    requires |b| > 0 && b[|b| - 1] < 255
    ensures Beyond(b, k) <==> !Below(k, b[..|b| - 1] + [b[|b| - 1] + 1])
  {
    var c := b[..|b| - 1];
    var e := b[|b| - 1];
    var n := c + [e + 1];
    assert b == c + [e];
    if IsPrefix(c, k) {
      var r := k[|c|..];
      assert k == c + r;
      CommonPrefixIff(c, [e], r);
      CommonPrefixIff(c, r, [e + 1]);
      assert IsPrefix(b, k) <==> |r| > 0 && r[0] == e by {
        if |r| > 0 {
          assert k[..|b|] == c + [r[0]];
        }
      }
      if |r| > 1 {
        assert Below(r[1..], []) == false;
      }
    } else {
      OffPrefix(c, [e], k);
      OffPrefix(c, [e + 1], k);
      PrefixShorter(c, b, k);
      assert k != c;
      BelowTotal(k, c);
      if Below(k, c) {
        BelowAsymmetric(k, c);
      }
    }
  }

  /** With keys cut to the bound's length and gt -1, as Skip calls it with a
      bound and inc: skip lands on the first record from the cursor on that is
      at or above the bound, or reports none; the min + 1 jump is never
      reached. */
  lemma ProbeTruncInc(rs: seq<Record>, p: nat, b: Bytes)
    requires Sorted(rs)
    ensures var r := ProbeSpec(rs, p, b, -1, [|b|]);
      && (r.Hit? ==> p <= r.at < |rs| && !Below(rs[r.at].key, b) &&
                     forall j :: p <= j < r.at ==> Below(rs[j].key, b))
      && (r.Miss? ==> forall j :: p <= j < |rs| ==> Below(rs[j].key, b))
  {
    LowerBoundSorted(rs, b);
    forall i | 0 <= i < |rs|
      ensures Passes(rs[i].key, b, -1, [|b|]) <==> i >= LowerBound(rs, b)
    {
      TruncPasses(rs[i].key, b);
    }
  }

  /** The jump target of a bound with no leading 0x00 and a last byte below
      0xff keeps its width and sorts after it. */
  lemma NextAbove(b: Bytes)
    requires |b| > 0 && b[0] != 0 && b[|b| - 1] < 255
    ensures |PlusOne(b)| == |b| && Below(b, PlusOne(b))
  {
    PlusOneLastByte(b);
    var c := b[..|b| - 1];
    assert b == c + [b[|b| - 1]];
    CommonPrefixIff(c, [b[|b| - 1]], [b[|b| - 1] + 1]);
  }

  /** For a key that does not start with the jump target, each test skip
      makes without inc is the test "not below the jump target". */
  lemma ExclusiveKey(b: Bytes, k: Bytes)
    requires |b| > 0 && b[0] != 0 && b[|b| - 1] < 255
    requires !IsPrefix(PlusOne(b), k)
    ensures Beyond(b, k) <==> !Below(k, PlusOne(b))
    ensures Passes(k, b, 0, [|b|]) <==> !Below(k, PlusOne(b))
    ensures Passes(k, PlusOne(b), 0, [|b|]) <==> !Below(k, PlusOne(b))
    ensures Below(k, b) ==> Below(k, PlusOne(b))
  {
    var next := PlusOne(b);
    NextAbove(b);
    PlusOneLastByte(b);
    TruncPasses(k, b);
    TruncPasses(k, next);
    NextBound(b, k);
    assert IsPrefix(next, next);
    BelowTotal(k, next);
    if Below(next, k) {
      BelowAsymmetric(next, k);
    }
    if Below(k, b) {
      BelowTransitive(k, b, next);
    }
  }

  /** With keys cut to the bound's length and gt 0, as Skip calls it with a
      bound and without inc: when the bound has no leading zero byte, its last
      byte is below 0xff, and no record starts with min + 1, skip lands on the
      first record from the cursor on that is beyond every key starting with
      the bound, or reports none. */
  lemma ProbeTruncExc(rs: seq<Record>, p: nat, b: Bytes)
    requires Sorted(rs)
    requires |b| > 0 && b[0] != 0 && b[|b| - 1] < 255
    requires forall i :: 0 <= i < |rs| ==> !IsPrefix(PlusOne(b), rs[i].key)
    ensures var r := ProbeSpec(rs, p, b, 0, [|b|]);
      && (r.Hit? ==> p <= r.at < |rs| && Beyond(b, rs[r.at].key) &&
                     forall j :: p <= j < r.at ==> !Beyond(b, rs[j].key))
      && (r.Miss? ==> forall j :: p <= j < |rs| ==> !Beyond(b, rs[j].key))
  {
    var next := PlusOne(b);
    var q := LowerBound(rs, next);
    LowerBoundSorted(rs, next);
    forall i | 0 <= i < |rs|
      ensures Beyond(b, rs[i].key) <==> i >= q
      ensures Passes(rs[i].key, b, 0, [|b|]) <==> i >= q
      ensures Passes(rs[i].key, next, 0, [|b|]) <==> i >= q
      ensures Below(rs[i].key, b) ==> i < q
    {
      ExclusiveKey(b, rs[i].key);
    }
  }

  // ---------------------------------------------------------------------------
  // Skip
  // ---------------------------------------------------------------------------

  /** Skip's result: a set-operation result, the end of the sequence, or the
      index panic of splitKey[length] when the key has too few parts. */
  datatype Outcome = Found(result: SetOpResult) | End | IndexPanic

  /** The bound, comparison threshold and truncation Skip hands to skip
      (kc/skipper.go:81-99): with no min the bound is the superkey, compared
      strictly and in full; otherwise it is superkey ++ escape(min), keys are cut
      to its length, and inc chooses at-or-above (-1) over above (0). */
  function Bound(superkey: Bytes, min: Option<Bytes>): Bytes {
    if min.None? then superkey else superkey + Escape(min.value)
  }

  function Threshold(min: Option<Bytes>, inc: bool): int {
    if min.None? || !inc then 0 else -1
  }

  function MaxLengths(superkey: Bytes, min: Option<Bytes>): seq<nat> {
    if min.None? then [] else [|Bound(superkey, min)|]
  }

  /** Skip (kc/skipper.go:80-124): what it returns and where the cursor ends up. */
  function SkipSpec(rs: seq<Record>, p: nat, superkey: Bytes, length: nat, min: Option<Bytes>, inc: bool): (Outcome, nat) {
    match ProbeSpec(rs, p, Bound(superkey, min), Threshold(min, inc), MaxLengths(superkey, min))
    case Miss(q) => (End, q)
    case Hit(q) =>
      var k := rs[q].key;
      if |k| <= |superkey| || k[..|superkey|] != superkey then (End, q)
      else if length < |Split(k)| then (Found(SetOpResult(Split(k)[length], [rs[q].value])), q)
      else (IndexPanic, q)
  }

  /** A result comes only from a key that strictly extends the superkey; it
      is the part right after the superkey's parts (a deeper key yields its
      immediate-child part) with the record's value as its only value. */
  lemma SkipResult(rs: seq<Record>, p: nat, parts: seq<Bytes>, min: Option<Bytes>, inc: bool)
    ensures var r := SkipSpec(rs, p, Join(parts), |parts|, min, inc);
      r.0.Found? ==>
        r.1 < |rs| && |rs[r.1].key| > |Join(parts)| &&
        |Split(rs[r.1].key)| > |parts| && Split(rs[r.1].key)[..|parts|] == parts &&
        r.0.result == SetOpResult(Split(rs[r.1].key)[|parts|], [rs[r.1].value])
  {
    var r := SkipSpec(rs, p, Join(parts), |parts|, min, inc);
    if r.0.Found? {
      var k := rs[r.1].key;
      SplitPrefixed(parts, k);
      assert (parts + Split(k[|Join(parts)|..]))[..|parts|] == parts;
    }
  }

  /** k lies strictly under the superkey. */
  predicate Extends(superkey: Bytes, k: Bytes) {
    |k| > |superkey| && IsPrefix(superkey, k)
  }

  /** With no min, Skip ignores inc and yields the first record from the cursor
      on that is above the superkey, which lies under the superkey; it ends the
      sequence exactly when no record from the cursor on lies under it. */
  lemma SkipNilMin(rs: seq<Record>, p: nat, superkey: Bytes, length: nat, inc: bool)
    requires Sorted(rs)
    ensures SkipSpec(rs, p, superkey, length, None, inc) == SkipSpec(rs, p, superkey, length, None, !inc)
    ensures var r := SkipSpec(rs, p, superkey, length, None, inc);
      && (!r.0.End? ==> p <= r.1 < |rs| && Extends(superkey, rs[r.1].key) &&
                        forall j :: p <= j < r.1 ==> !Extends(superkey, rs[j].key))
      && (r.0.End? ==> forall j :: p <= j < |rs| ==> !Extends(superkey, rs[j].key))
  {
    ProbeFullKeys(rs, p, superkey, 0);
    forall i | 0 <= i < |rs|
      ensures Passes(rs[i].key, superkey, 0, []) <==> Below(superkey, rs[i].key)
      ensures Extends(superkey, rs[i].key) ==> Below(superkey, rs[i].key)
    {
      assert Trunc(rs[i].key, []) == rs[i].key;
      CompareSigns(rs[i].key, superkey);
      if Extends(superkey, rs[i].key) {
        PrefixBelow(superkey, rs[i].key);
      }
    }
    var r := ProbeSpec(rs, p, superkey, 0, []);
    if r.Hit? && !Extends(superkey, rs[r.at].key) {
      var q := r.at;
      assert !IsPrefix(superkey, rs[q].key) by {
        if IsPrefix(superkey, rs[q].key) {
          BelowIrreflexive(superkey);
        }
      }
      forall j | q < j < |rs|
        ensures !Extends(superkey, rs[j].key)
      {
        BelowAsymmetric(superkey, rs[q].key);
        BlockEnded(superkey, rs[q].key, rs[j].key);
      }
    }
  }

  /** On keys written by the codec, Skip never hits the index panic: a key that
      strictly extends the superkey has a part beyond it. */
  lemma SkipNoPanic(rs: seq<Record>, p: nat, parts: seq<Bytes>, min: Option<Bytes>, inc: bool)
    requires forall r :: r in rs ==> Canonical(r.key)
    ensures SkipSpec(rs, p, Join(parts), |parts|, min, inc).0 != IndexPanic
  {
    var superkey := Join(parts);
    var r := SkipSpec(rs, p, superkey, |parts|, min, inc);
    if r.0 == IndexPanic {
      var q := r.1;
      assert rs[q] in rs;
      CanonicalExtension(parts, rs[q].key);
      assert false;
    }
  }

  /** k differs from p at position i, so p is not a prefix of k. */
  lemma DiffersAt(p: Bytes, k: Bytes, i: nat)
    requires i < |p| && i < |k| && p[i] != k[i]
    ensures !IsPrefix(p, k)
  {
    if |p| <= |k| {
      assert k[..|p|][i] == k[i];
    }
  }

  /** A prefix shared by both sides can be dropped. */
  lemma PrefixDrop(e: Bytes, x: Bytes, y: Bytes)
    ensures IsPrefix(e + x, e + y) ==> IsPrefix(x, y)
  {
    if IsPrefix(e + x, e + y) {
      assert (e + y)[..|e + x|][|e|..] == y[..|x|];
      assert (e + x)[|e|..] == x;
    }
  }

  /** The escape of one byte. */
  function EscapeByte(x: Byte): Bytes {
    if x == 0 then [0, 0] else [x]
  }

  lemma EscapeZerosCons(x: Bytes)
    requires |x| > 0
    ensures EscapeZeros(x) == EscapeByte(x[0]) + EscapeZeros(x[1..])
  {
  }

  /** After an escaped part the codec writes a doubled 0x00 or the terminator
      0x00 0x01, never 0x00 0x02. */
  lemma {:induction false} NoZeroTwoPart(m: Bytes, l: Bytes, t: Bytes)
    ensures !IsPrefix(EscapeZeros(m) + [0, 2], EscapeZeros(l) + [0, 1] + t)
    decreases |m|
  {
    var P := EscapeZeros(m) + [0, 2];
    var J := EscapeZeros(l) + [0, 1] + t;
    if |l| == 0 {
      NoZeroTwoEmptyPart(m, t);
    } else if |m| == 0 {
      assert P == [0, 2];
      NoZeroTwoEmptyMin(l, t);
    } else {
      EscapeZerosCons(m);
      EscapeZerosCons(l);
      var em := EscapeByte(m[0]);
      var el := EscapeByte(l[0]);
      assert P == em + (EscapeZeros(m[1..]) + [0, 2]);
      assert J == el + (EscapeZeros(l[1..]) + [0, 1] + t);
      if m[0] == l[0] {
        NoZeroTwoPart(m[1..], l[1..], t);
        PrefixDrop(em, EscapeZeros(m[1..]) + [0, 2], EscapeZeros(l[1..]) + [0, 1] + t);
      } else {
        assert P[0] != J[0];
        DiffersAt(P, J, 0);
      }
    }
  }

  lemma NoZeroTwoEmptyPart(m: Bytes, t: Bytes)
    ensures !IsPrefix(EscapeZeros(m) + [0, 2], EscapeZeros([]) + [0, 1] + t)
  {
    var P := EscapeZeros(m) + [0, 2];
    var J := EscapeZeros([]) + [0, 1] + t;
    assert J[0] == 0 && J[1] == 1;
    if |m| == 0 {
      DiffersAt(P, J, 1);
    } else {
      EscapeZerosCons(m);
      if m[0] == 0 {
        assert P[1] == 0;
        DiffersAt(P, J, 1);
      } else {
        DiffersAt(P, J, 0);
      }
    }
  }

  lemma NoZeroTwoEmptyMin(l: Bytes, t: Bytes)
    requires |l| > 0
    ensures !IsPrefix([0, 2], EscapeZeros(l) + [0, 1] + t)
  {
    EscapeZerosCons(l);
    var J := EscapeZeros(l) + [0, 1] + t;
    if l[0] == 0 {
      assert J[..2] == [0, 0];
    } else {
      assert J[0] == l[0];
    }
  }

  /** No composite key starts with an escaped part followed by 0x00 0x02. */
  lemma NoZeroTwo(m: Bytes, ls: seq<Bytes>)
    ensures !IsPrefix(EscapeZeros(m) + [0, 2], Join(ls))
  {
    if |ls| > 0 {
      NoZeroTwoPart(m, ls[0], Join(ls[1..]));
    }
  }

  /** No key written by the codec starts with the jump target of an exclusive
      bound: superkey ++ escape(min) with its closing 0x01 raised to 0x02. */
  lemma CanonicalNotUnderNext(parts: seq<Bytes>, m: Bytes, k: Bytes)
    requires Canonical(k)
    ensures !IsPrefix(Join(parts) + (EscapeZeros(m) + [0, 2]), k)
  {
    var sk := Join(parts);
    var P := EscapeZeros(m) + [0, 2];
    if IsPrefix(sk, k) {
      var rest := k[|sk|..];
      assert k == sk + rest;
      SplitPrefixed(parts, k);
      JoinAppend(parts, Split(rest));
      assert rest == Join(Split(rest));
      NoZeroTwo(m, Split(rest));
      PrefixDrop(sk, P, rest);
    } else {
      PrefixShorter(sk, sk + P, k);
    }
  }

  /** A key at or above a bound that extends the superkey, but not itself
      under the superkey, lies past every key under the superkey. */
  lemma PastSuperkey(sk: Bytes, b: Bytes, k: Bytes)
    requires IsPrefix(sk, b) && |b| > |sk|
    ensures !Below(k, b) && !Extends(sk, k) ==> !Below(k, sk) && !IsPrefix(sk, k)
  {
    PrefixBelow(sk, b);
    if Below(k, sk) {
      BelowTransitive(k, sk, b);
    }
    if IsPrefix(sk, k) && !Extends(sk, k) {
      assert k == sk;
    }
  }

  /** Nothing after a record past the superkey lies under it. */
  lemma EndAfter(rs: seq<Record>, q: nat, sk: Bytes, b: Bytes)
    requires Sorted(rs) && q < |rs|
    requires IsPrefix(sk, b) && |b| > |sk|
    requires !Below(rs[q].key, b) && !Extends(sk, rs[q].key)
    ensures forall j :: q <= j < |rs| ==> !Extends(sk, rs[j].key)
  {
    PastSuperkey(sk, b, rs[q].key);
    forall j | q < j < |rs|
      ensures !Extends(sk, rs[j].key)
    {
      BlockEnded(sk, rs[q].key, rs[j].key);
    }
  }

  /** With a min and inc, on keys written by the codec: Skip yields the first
      child from the cursor on whose key is at or above superkey ++ escape(min),
      and ends exactly when no child from the cursor on is. */
  lemma SkipBoundInc(rs: seq<Record>, p: nat, parts: seq<Bytes>, m: Bytes)
    requires Sorted(rs)
    requires forall r :: r in rs ==> Canonical(r.key)
    ensures var sk := Join(parts);
      var b := Bound(sk, Some(m));
      var r := SkipSpec(rs, p, sk, |parts|, Some(m), true);
      && (r.0.Found? || r.0.End?)
      && (r.0.Found? ==> p <= r.1 < |rs| && Extends(sk, rs[r.1].key) && !Below(rs[r.1].key, b) &&
                         forall j :: p <= j < r.1 ==> Below(rs[j].key, b))
      && (r.0.End? ==> forall j :: p <= j < |rs| ==> !(Extends(sk, rs[j].key) && !Below(rs[j].key, b)))
  {
    var sk := Join(parts);
    var b := Bound(sk, Some(m));
    SkipNoPanic(rs, p, parts, Some(m), true);
    ProbeTruncInc(rs, p, b);
    var pr := ProbeSpec(rs, p, b, -1, [|b|]);
    assert IsPrefix(sk, b);
    if pr.Hit? && !Extends(sk, rs[pr.at].key) {
      EndAfter(rs, pr.at, sk, b);
    }
  }

  /** b does not start with 0x00, so min + 1 keeps its width. */
  predicate NoLeadingZero(b: Bytes) {
    |b| > 0 && b[0] != 0
  }

  /** The jump target of an exclusive bound that does not start with 0x00:
      the bound with its closing 0x01 raised to 0x02. */
  lemma ExclusiveNext(sk: Bytes, m: Bytes)
    requires NoLeadingZero(Bound(sk, Some(m)))
    ensures var b := Bound(sk, Some(m));
      |b| > 0 && b[|b| - 1] < 255 && PlusOne(b) == sk + (EscapeZeros(m) + [0, 2])
  {
    var b := Bound(sk, Some(m));
    var x := sk + EscapeZeros(m);
    assert b == x + [0, 1];
    PlusOneLastByte(b);
    assert b[..|b| - 1] == x + [0];
    assert x + [0] + [2] == sk + (EscapeZeros(m) + [0, 2]);
  }

  /** Skip with a min reports End at the probe's position unless the probe
      hits a key under the superkey. */
  lemma SkipOfProbe(rs: seq<Record>, p: nat, sk: Bytes, length: nat, m: Bytes, inc: bool)
    ensures var b := Bound(sk, Some(m));
      var pr := ProbeSpec(rs, p, b, Threshold(Some(m), inc), [|b|]);
      var r := SkipSpec(rs, p, sk, length, Some(m), inc);
      && r.1 == pr.at
      && (r.0.End? <==> pr.Miss? || !Extends(sk, rs[pr.at].key))
  {
  }

  /** No record written by the codec lies under the jump target of an
      exclusive bound. */
  lemma NothingUnderNext(rs: seq<Record>, parts: seq<Bytes>, m: Bytes)
    requires forall r :: r in rs ==> Canonical(r.key)
    requires NoLeadingZero(Bound(Join(parts), Some(m)))
    ensures forall i :: 0 <= i < |rs| ==> !IsPrefix(PlusOne(Bound(Join(parts), Some(m))), rs[i].key)
  {
    ExclusiveNext(Join(parts), m);
    forall i | 0 <= i < |rs|
      ensures !IsPrefix(Join(parts) + (EscapeZeros(m) + [0, 2]), rs[i].key)
    {
      assert rs[i] in rs;
      CanonicalNotUnderNext(parts, m, rs[i].key);
    }
  }

  /** skip as an exclusive Skip calls it, on keys written by the codec. */
  lemma ExclusiveProbe(rs: seq<Record>, p: nat, parts: seq<Bytes>, m: Bytes)
    requires Sorted(rs)
    requires forall r :: r in rs ==> Canonical(r.key)
    requires NoLeadingZero(Bound(Join(parts), Some(m)))
    ensures var b := Bound(Join(parts), Some(m));
      var r := ProbeSpec(rs, p, b, 0, [|b|]);
      && (r.Hit? ==> p <= r.at < |rs| && Beyond(b, rs[r.at].key) &&
                     forall j :: p <= j < r.at ==> !Beyond(b, rs[j].key))
      && (r.Miss? ==> forall j :: p <= j < |rs| ==> !Beyond(b, rs[j].key))
  {
    ExclusiveNext(Join(parts), m);
    NothingUnderNext(rs, parts, m);
    ProbeTruncExc(rs, p, Bound(Join(parts), Some(m)));
  }

  /** With a min and without inc, on keys written by the codec and a bound
      that does not start with 0x00: Skip yields the first child from the
      cursor on whose key lies beyond every key starting with
      superkey ++ escape(min), and ends exactly when no child from the cursor
      on does. */
  lemma SkipBoundExclusive(rs: seq<Record>, p: nat, parts: seq<Bytes>, m: Bytes)
    requires Sorted(rs)
    requires forall r :: r in rs ==> Canonical(r.key)
    requires NoLeadingZero(Bound(Join(parts), Some(m)))
    ensures var sk := Join(parts);
      var b := Bound(sk, Some(m));
      var r := SkipSpec(rs, p, sk, |parts|, Some(m), false);
      && (r.0.Found? || r.0.End?)
      && (r.0.Found? ==> p <= r.1 < |rs| && Extends(sk, rs[r.1].key) && Beyond(b, rs[r.1].key) &&
                         forall j :: p <= j < r.1 ==> !Beyond(b, rs[j].key))
      && (r.0.End? ==> forall j :: p <= j < |rs| ==> !(Extends(sk, rs[j].key) && Beyond(b, rs[j].key)))
  {
    var sk := Join(parts);
    var b := Bound(sk, Some(m));
    SkipNoPanic(rs, p, parts, Some(m), false);
    ExclusiveProbe(rs, p, parts, m);
    var pr := ProbeSpec(rs, p, b, 0, [|b|]);
    SkipOfProbe(rs, p, sk, |parts|, m, false);
    assert IsPrefix(sk, b);
    if pr.Hit? && !Extends(sk, rs[pr.at].key) {
      BelowAsymmetric(b, rs[pr.at].key);
      EndAfter(rs, pr.at, sk, b);
    }
  }

  /** A leading zero byte adds nothing to the number. */
  lemma {:induction false} BeToNatLeadingZero(c: Bytes)
    ensures BeToNat([0] + c) == BeToNat(c)
    decreases |c|
  {
    if |c| > 0 {
      var d := [0] + c;
      assert d[..|d| - 1] == [0] + c[..|c| - 1];
      BeToNatLeadingZero(c[..|c| - 1]);
    } else {
      assert [0] + c == [0];
      assert [0][..0] == [];
    }
  }

  /** skip from the first record, when that record fails the test, sits at
      min and everything lies below min + 1, reports not found past the end. */
  lemma ProbeJumpMiss(rs: seq<Record>, min: Bytes, gt: int, maxLengths: seq<nat>)
    requires |rs| > 0 && |maxLengths| > 0
    requires !Passes(rs[0].key, min, gt, maxLengths)
    requires LowerBound(rs, min) == 0 && LowerBound(rs, PlusOne(min)) == |rs|
    ensures ProbeSpec(rs, 0, min, gt, maxLengths) == Miss(|rs|)
  {
  }

  /** skip from the first record, when that record fails the test and sits
      at min, lands on the record min + 1 leads to if that one passes. */
  lemma ProbeJumpHit(rs: seq<Record>, min: Bytes, gt: int, maxLengths: seq<nat>)
    requires |rs| > 0 && |maxLengths| > 0
    requires !Passes(rs[0].key, min, gt, maxLengths) && LowerBound(rs, min) == 0
    requires LowerBound(rs, PlusOne(min)) < |rs|
    requires Passes(rs[LowerBound(rs, PlusOne(min))].key, PlusOne(min), gt, maxLengths)
    ensures ProbeSpec(rs, 0, min, gt, maxLengths) == Hit(LowerBound(rs, PlusOne(min)))
  {
  }

  /** The bound of child [x] under the superkey of one empty part, and its
      min + 1 with the leading 0x00 gone. */
  lemma LeadingZeroBound(x: Byte)
    requires x > 0
    ensures Bound([0, 1], Some([x])) == [0, 1, x, 0, 1]
    ensures PlusOne([0, 1, x, 0, 1]) == [1, x, 0, 2]
  {
    assert Escape([x]) == [x, 0, 1] by { assert EscapeZeros([x][1..]) == []; }
    var c: Bytes := [1, x, 0, 1];
    assert [0] + c == [0, 1, x, 0, 1];
    BeToNatLeadingZero(c);
    PlusOneLastByte(c);
    assert c[..3] + [c[3] + 1] == [1, x, 0, 2];
  }

  /** A bound with a leading 0x00 loses it in min + 1, so an exclusive Skip
      jumps past the children it should yield: under the superkey of one empty
      part, with children [x] and [y], x < y (for instance [0x05] and [0x06]),
      Skip from [x] without inc ends although child [y] lies beyond it. */
  lemma SkipLeadingZeroMisses(x: Byte, y: Byte)
    requires 0 < x < y
    ensures var rs := [Record([0, 1, x, 0, 1], []), Record([0, 1, y, 0, 1], [])];
      && Sorted(rs) && Join([[]]) == [0, 1]
      && Extends([0, 1], rs[1].key) && Beyond(Bound([0, 1], Some([x])), rs[1].key)
      && SkipSpec(rs, 0, [0, 1], 1, Some([x]), false).0 == End
  {
    var rs := [Record([0, 1, x, 0, 1], []), Record([0, 1, y, 0, 1], [])];
    var b: Bytes := [0, 1, x, 0, 1];
    LeadingZeroBound(x);
    assert Join([[]]) == [0, 1] by { assert Join([[]][1..]) == []; }
    BelowIrreflexive(b);
    assert Trunc(rs[0].key, [5]) == b;
    var next: Bytes := [1, x, 0, 2];
    assert LowerBound(rs, next) == 2 by {
      assert Below(rs[0].key, next) && Below(rs[1].key, next);
      assert LowerBound(rs[1..][1..], next) == 0;
    }
    ProbeJumpMiss(rs, b, 0, [5]);
    LeadingZeroKeys(x, y);
  }

  /** The two children of SkipLeadingZeroMisses are in order, and the second
      lies beyond the bound of the first. */
  lemma LeadingZeroKeys(x: Byte, y: Byte)
    requires 0 < x < y
    ensures Below([0, 1, x, 0, 1], [0, 1, y, 0, 1]) && Beyond([0, 1, x, 0, 1], [0, 1, y, 0, 1])
  {
    var b: Bytes := [0, 1, x, 0, 1];
    var k: Bytes := [0, 1, y, 0, 1];
    assert Below(b[2..], k[2..]);
    assert k[..5][2] != b[2];
  }

  /** The part [0x05] escaped. */
  lemma EscapeFive()
    ensures Escape([5]) == [5, 0, 1]
  {
    assert EscapeZeros([5][1..]) == [];
  }

  /** The keys of part [c] and of its children [0x05] and [0x06]. */
  lemma ChildKeys(c: Byte)
    requires c != 0
    ensures Join([[c]]) == [c, 0, 1]
    ensures Join([[c], [5]]) == [c, 0, 1, 5, 0, 1] && Canonical([c, 0, 1, 5, 0, 1])
    ensures Join([[c], [6]]) == [c, 0, 1, 6, 0, 1] && Canonical([c, 0, 1, 6, 0, 1])
    ensures Split([c, 0, 1, 6, 0, 1]) == [[c], [6]]
    ensures Bound([c, 0, 1], Some([5])) == [c, 0, 1, 5, 0, 1]
  {
    EscapeFive();
    assert Escape([c]) == [c, 0, 1] by { assert EscapeZeros([c][1..]) == []; }
    assert Join([[c]]) == [c, 0, 1] by { assert Join([[c]][1..]) == []; }
    assert Join([[c], [5]][1..]) == [5, 0, 1] by {
      assert Join([[5]][1..]) == [];
    }
    assert Join([[c], [6]][1..]) == [6, 0, 1] by {
      assert Join([[6]][1..]) == [];
    }
    SplitJoin([[c], [5]]);
    SplitJoin([[c], [6]]);
  }

  /** Under the superkey of a part [c] with c not 0x00, children [0x05] and
      [0x06] are found as they should be: Skip from [0x05] without inc gives
      child [0x06]. */
  lemma SkipWithoutLeadingZeroFinds(c: Byte)
    requires c != 0
    ensures var rs := [Record([c, 0, 1, 5, 0, 1], []), Record([c, 0, 1, 6, 0, 1], [])];
      && Sorted(rs) && Join([[c]]) == [c, 0, 1]
      && SkipSpec(rs, 0, [c, 0, 1], 1, Some([5]), false).0 == Found(SetOpResult([6], [[]]))
  {
    var b: Bytes := [c, 0, 1, 5, 0, 1];
    var k: Bytes := [c, 0, 1, 6, 0, 1];
    var rs := [Record(b, []), Record(k, [])];
    ChildKeys(c);
    ChildOrder(c);
    ChildProbe(c);
    SkipOfHit(rs, 0, [c, 0, 1], 1, Some([5]), false, 1);
  }

  /** skip, as Skip calls it in SkipWithoutLeadingZeroFinds, lands on child
      [0x06]. */
  lemma ChildProbe(c: Byte)
    requires c != 0
    ensures var rs := [Record([c, 0, 1, 5, 0, 1], []), Record([c, 0, 1, 6, 0, 1], [])];
      ProbeSpec(rs, 0, [c, 0, 1, 5, 0, 1], 0, [6]) == Hit(1)
  {
    var b: Bytes := [c, 0, 1, 5, 0, 1];
    var k: Bytes := [c, 0, 1, 6, 0, 1];
    var rs := [Record(b, []), Record(k, [])];
    BelowIrreflexive(b);
    assert Trunc(b, [6]) == b && Trunc(k, [6]) == k;
    PlusOneLastByte(b);
    var next: Bytes := [c, 0, 1, 5, 0, 2];
    assert b[..5] + [b[5] + 1] == next;
    ChildOrder(c);
    BelowAsymmetric(next, k);
    assert LowerBound(rs, next) == 1 by {
      assert LowerBound(rs[1..], next) == 0;
    }
    CompareSigns(k, next);
    ProbeJumpHit(rs, b, 0, [6]);
  }

  /** When skip hits a key under the superkey with a part past length, Skip
      yields that part with the record's value. */
  lemma SkipOfHit(rs: seq<Record>, p: nat, superkey: Bytes, length: nat, min: Option<Bytes>, inc: bool, q: nat)
    requires ProbeSpec(rs, p, Bound(superkey, min), Threshold(min, inc), MaxLengths(superkey, min)) == Hit(q)
    requires q < |rs| && Extends(superkey, rs[q].key) && length < |Split(rs[q].key)|
    ensures SkipSpec(rs, p, superkey, length, min, inc) ==
            (Found(SetOpResult(Split(rs[q].key)[length], [rs[q].value])), q)
  {
  }

  /** The order of the keys in SkipWithoutLeadingZeroFinds and of the jump
      target between them. */
  lemma ChildOrder(c: Byte)
    ensures Below([c, 0, 1, 5, 0, 1], [c, 0, 1, 6, 0, 1])
    ensures Below([c, 0, 1, 5, 0, 1], [c, 0, 1, 5, 0, 2])
    ensures Below([c, 0, 1, 5, 0, 2], [c, 0, 1, 6, 0, 1])
  {
    var y: Bytes := [c, 0, 1];
    var x: Bytes := y + [5, 0];
    BelowCommonPrefix(y, [5, 0, 1], [6, 0, 1]);
    BelowCommonPrefix(x, [1], [2]);
    BelowCommonPrefix(y, [5, 0, 2], [6, 0, 1]);
    assert y + [5, 0, 1] == x + [1] == [c, 0, 1, 5, 0, 1];
    assert y + [5, 0, 2] == x + [2] == [c, 0, 1, 5, 0, 2];
    assert y + [6, 0, 1] == [c, 0, 1, 6, 0, 1];
  }

  /** A leaf of a set expression in this revision. */
  class KcSkipper {
    const cursor: Cursor
    const key: Bytes
    const length: nat

    constructor (cursor: Cursor, key: Bytes, length: nat)
      ensures this.cursor == cursor && this.key == key && this.length == length
    {
      this.cursor := cursor;
      this.key := key;
      this.length := length;
    }

    /** kcSkipper.skip (kc/skipper.go:25-78). */
    method Probe(min: Bytes, gt: int, maxLengths: seq<nat>) returns (found: bool, k: Bytes, v: Bytes)
      modifies cursor
      ensures var r := ProbeSpec(cursor.records, old(cursor.pos), min, gt, maxLengths);
        && cursor.pos == r.at && found == r.Hit?
        && (found ==> k == cursor.records[r.at].key && v == cursor.records[r.at].value)
    {
      var st;
      st, k, v := cursor.Get(false);
      if st == NoRecord {
        return false, k, v;
      }
      var n := Minimum(|k|, maxLengths);
      MinimumIsMinOf(|k|, maxLengths, n);
      if Compare(k[..n], min) > gt {
        return true, k, v;
      }
      st := cursor.JumpKey(min);
      if st == NoRecord {
        return false, k, v;
      }
      // a record is there, so this read succeeds
      st, k, v := cursor.Get(false);
      n := Minimum(|k|, maxLengths);
      MinimumIsMinOf(|k|, maxLengths, n);
      if Compare(k[..n], min) > gt {
        return true, k, v;
      }
      var bound := min;
      if |maxLengths| == 0 {
        st := cursor.Step();
        if st == NoRecord {
          return false, k, v;
        }
      } else {
        bound := PlusOne(min);
        st := cursor.JumpKey(bound);
        if st == NoRecord {
          return false, k, v;
        }
      }
      st, k, v := cursor.Get(false);
      n := Minimum(|k|, maxLengths);
      MinimumIsMinOf(|k|, maxLengths, n);
      found := Compare(k[..n], bound) > gt;
    }

    /** kcSkipper.Skip (kc/skipper.go:80-124). */
    method Skip(min: Option<Bytes>, inc: bool) returns (out: Outcome)
      modifies cursor
      ensures (out, cursor.pos) == SkipSpec(cursor.records, old(cursor.pos), key, length, min, inc)
    {
      var gt := if inc then -1 else 0;
      var maxLengths: seq<nat> := [];
      var realMin: Bytes;
      if min.None? {
        realMin := key;
        gt := 0;
      } else {
        var escapedMin := Escape(min.value);
        realMin := key + escapedMin;
        maxLengths := [|realMin|];
      }
      var found, k, v := Probe(realMin, gt, maxLengths);
      if !found {
        return End;
      }
      if |k| <= |key| {
        return End;
      }
      CompareSigns(key, k[..|key|]);
      if Compare(key, k[..|key|]) != 0 {
        return End;
      }
      var splitKey := Split(k);
      if length >= |splitKey| {
        return IndexPanic;
      }
      out := Found(SetOpResult(splitKey[length], [v]));
    }
  }
}
