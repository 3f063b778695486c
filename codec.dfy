/**
  The composite-key codec of package kc: a list of key parts (byte strings)
  is stored as one byte string. Inside a part every 0x00 is doubled, and every
  part is closed by the two bytes 0x00 0x01. The package's own join, split and
  escape (JoinKeys, SplitKeys) are not part of this model's source files; their
  byte layout is the one pinned by kc/kc_test.go.

  The module also holds the byte-wise order of Go's bytes.Compare, which is the
  order of the keys in the store.
*/
module KeyCodec {

  type Byte = b: int | 0 <= b < 256
  type Bytes = seq<Byte>

  // ---------------------------------------------------------------------------
  // Escaping and joining
  // ---------------------------------------------------------------------------

  /** Number of 0x00 bytes in p. */
  function ZeroCount(p: Bytes): nat {
    if |p| == 0 then 0 else (if p[0] == 0 then 1 else 0) + ZeroCount(p[1..])
  }

  /** p with every 0x00 doubled. */
  function EscapeZeros(p: Bytes): (r: Bytes)
    ensures |r| == |p| + ZeroCount(p)
  {
    if |p| == 0 then [] else (if p[0] == 0 then [0, 0] else [p[0]]) + EscapeZeros(p[1..])
  }

  /** One part as it appears inside a composite key: escaped, then terminated by 0x00 0x01. */
  function Escape(p: Bytes): (r: Bytes)
    ensures |r| == |p| + ZeroCount(p) + 2
    ensures r[|r| - 2..] == [0, 1]
  {
    EscapeZeros(p) + [0, 1]
  }

  /** The composite key of a list of parts. */
  function Join(ks: seq<Bytes>): Bytes {
    if |ks| == 0 then [] else Escape(ks[0]) + Join(ks[1..])
  }

  /** Decoding, with the bytes of the part being read so far in cur. A tail
      that is not closed by a terminator is an incomplete part and is dropped. */
  function SplitFrom(key: Bytes, cur: Bytes): seq<Bytes>
    decreases |key|
  {
    if |key| == 0 then []
    else if key[0] != 0 then SplitFrom(key[1..], cur + [key[0]])
    else if |key| == 1 then []
    else if key[1] == 1 then [cur] + SplitFrom(key[2..], [])
    else SplitFrom(key[2..], cur + [0])
  }

  /** The parts of a composite key. */
  function Split(key: Bytes): seq<Bytes> {
    SplitFrom(key, [])
  }

  /** Reading one escaped, terminated part completes the part being read. */
  lemma {:induction false} SplitEscaped(p: Bytes, cur: Bytes, rest: Bytes)
    ensures SplitFrom(Escape(p) + rest, cur) == [cur + p] + Split(rest)
    decreases |p|
  {
    if |p| == 0 {
      assert Escape(p) + rest == [0, 1] + rest;
      assert ([0, 1] + rest)[2..] == rest;
      assert cur + p == cur;
    } else {
      var next := if p[0] == 0 then cur + [0] else cur + [p[0]];
      SplitEscapedStep(p, cur, rest);
      SplitEscaped(p[1..], next, rest);
      assert next + p[1..] == cur + p;
    }
  }

  /** Reading the first byte of a non-empty escaped part moves it into the
      part being read. */
  lemma SplitEscapedStep(p: Bytes, cur: Bytes, rest: Bytes)
    requires |p| > 0
    ensures SplitFrom(Escape(p) + rest, cur)
         == SplitFrom(Escape(p[1..]) + rest, if p[0] == 0 then cur + [0] else cur + [p[0]])
  {
    var key := Escape(p) + rest;
    var tail := Escape(p[1..]) + rest;
    assert EscapeZeros(p) == (if p[0] == 0 then [0, 0] else [p[0]]) + EscapeZeros(p[1..]);
    if p[0] == 0 {
      assert key == [0, 0] + tail;
      assert key[0] == 0 && key[1] == 0 && key[2..] == tail;
    } else {
      assert key == [p[0]] + tail;
      assert key[0] == p[0] && key[1..] == tail;
    }
  }

  /** Splitting a key that starts with a whole composite key yields its parts first. */
  lemma {:induction false} SplitJoinAppend(ks: seq<Bytes>, t: Bytes)
    ensures Split(Join(ks) + t) == ks + Split(t)
    decreases |ks|
  {
    if |ks| == 0 {
      assert Join(ks) + t == t;
    } else {
      assert Join(ks) + t == Escape(ks[0]) + (Join(ks[1..]) + t);
      SplitEscaped(ks[0], [], Join(ks[1..]) + t);
      SplitJoinAppend(ks[1..], t);
      var empty: Bytes := [];
      assert empty + ks[0] == ks[0];
      assert [ks[0]] + ks[1..] == ks;
    }
  }

  /** Round trip: split(join(ks)) == ks, for every list of parts, including
      empty parts and parts holding 0x00 (kc/kc_test.go TestSplitJoin1/2). */
  lemma SplitJoin(ks: seq<Bytes>)
    ensures Split(Join(ks)) == ks
  {
    SplitJoinAppend(ks, []);
    assert Join(ks) + [] == Join(ks);
    assert Split([]) == [];
  }

  /** A key that starts with the composite key of ks splits into ks first. */
  lemma SplitPrefixed(ks: seq<Bytes>, k: Bytes)
    requires IsPrefix(Join(ks), k)
    ensures Split(k) == ks + Split(k[|Join(ks)|..])
  {
    var t := k[|Join(ks)|..];
    assert k == Join(ks) + t;
    SplitJoinAppend(ks, t);
  }

  /** A key as the codec writes it: the join of its own parts. */
  predicate Canonical(k: Bytes) {
    Join(Split(k)) == k
  }

  /** A canonical key that strictly extends the composite key of ks has at
      least one part beyond ks. */
  lemma CanonicalExtension(ks: seq<Bytes>, k: Bytes)
    requires Canonical(k) && IsPrefix(Join(ks), k) && |k| > |Join(ks)|
    ensures |Split(k)| > |ks|
  {
    var rest := k[|Join(ks)|..];
    SplitPrefixed(ks, k);
    JoinAppend(ks, Split(rest));
    assert k == Join(ks) + rest;
    assert Join(Split(rest)) == rest;
  }

  /** Join is injective, so a composite key determines its parts. */
  lemma JoinInjective(ks: seq<Bytes>, ls: seq<Bytes>)
    requires Join(ks) == Join(ls)
    ensures ks == ls
  {
    SplitJoin(ks);
    SplitJoin(ls);
  }

  /** Joining a concatenation is concatenating the joins. */
  lemma {:induction false} JoinAppend(ks: seq<Bytes>, ls: seq<Bytes>)
    ensures Join(ks + ls) == Join(ks) + Join(ls)
    decreases |ks|
  {
    if |ks| == 0 {
      assert ks + ls == ls;
    } else {
      assert (ks + ls)[0] == ks[0];
      assert (ks + ls)[1..] == ks[1..] + ls;
      JoinAppend(ks[1..], ls);
    }
  }

  /** escape(p) is the composite key of the single part p, terminator included. */
  lemma EscapeIsJoin(p: Bytes)
    ensures Escape(p) == Join([p])
  {
    assert [p][1..] == [];
  }

  /** The byte layout of kc/kc_test.go TestSplitJoin1. */
  lemma JoinLayout()
    ensures Join([[0, 1], [1, 2]]) == [0, 0, 1, 0, 1, 1, 2, 0, 1]
  {
    assert [[0, 1], [1, 2]][1..] == [[1, 2]];
    assert Escape([0, 1]) == [0, 0, 1, 0, 1];
    assert Escape([1, 2]) == [1, 2, 0, 1];
  }

  // ---------------------------------------------------------------------------
  // Byte order (Go's bytes.Compare)
  // ---------------------------------------------------------------------------

  /** a sorts strictly before b, byte by byte, a proper prefix first. */
  predicate Below(a: Bytes, b: Bytes)
    decreases |a|
  {
    |b| > 0 && (|a| == 0 || a[0] < b[0] || (a[0] == b[0] && Below(a[1..], b[1..])))
  }

  /** bytes.Compare: -1, 0 or 1. */
  function Compare(a: Bytes, b: Bytes): (c: int)
    ensures c == -1 || c == 0 || c == 1
  {
    if Below(a, b) then -1 else if a == b then 0 else 1
  }

  /** p is a prefix of k. */
  predicate IsPrefix(p: Bytes, k: Bytes) {
    |p| <= |k| && k[..|p|] == p
  }

  lemma {:induction false} BelowIrreflexive(a: Bytes)
    ensures !Below(a, a)
    decreases |a|
  {
    if |a| > 0 {
      BelowIrreflexive(a[1..]);
    }
  }

  lemma {:induction false} BelowTransitive(a: Bytes, b: Bytes, c: Bytes)
    requires Below(a, b) && Below(b, c)
    ensures Below(a, c)
    decreases |a|
  {
    if |a| > 0 && a[0] == b[0] && b[0] == c[0] {
      BelowTransitive(a[1..], b[1..], c[1..]);
    }
  }

  lemma {:induction false} BelowTotal(a: Bytes, b: Bytes)
    ensures a == b || Below(a, b) || Below(b, a)
    decreases |a|
  {
    if |a| > 0 && |b| > 0 && a[0] == b[0] {
      BelowTotal(a[1..], b[1..]);
      if a[1..] == b[1..] {
        assert a == [a[0]] + a[1..] && b == [b[0]] + b[1..];
      }
    }
  }

  lemma {:induction false} BelowAsymmetric(a: Bytes, b: Bytes)
    requires Below(a, b)
    ensures !Below(b, a)
    decreases |a|
  {
    if |a| > 0 && a[0] == b[0] {
      BelowAsymmetric(a[1..], b[1..]);
    }
  }

  /** Compare agrees with Below in both directions. */
  lemma CompareSigns(a: Bytes, b: Bytes)
    ensures Compare(a, b) < 0 <==> Below(a, b)
    ensures Compare(a, b) == 0 <==> a == b
    ensures Compare(a, b) > 0 <==> Below(b, a)
  {
    BelowTotal(a, b);
    BelowIrreflexive(a);
    if Below(a, b) {
      BelowAsymmetric(a, b);
    }
  }

  /** A common prefix does not change the order. */
  lemma {:induction false} BelowCommonPrefix(x: Bytes, p: Bytes, q: Bytes)
    requires Below(p, q)
    ensures Below(x + p, x + q)
    decreases |x|
  {
    if |x| > 0 {
      assert (x + p)[1..] == x[1..] + p && (x + q)[1..] == x[1..] + q;
      BelowCommonPrefix(x[1..], p, q);
    } else {
      assert x + p == p && x + q == q;
    }
  }

  /** Between keys of equal length the order is decided before any suffix. */
  lemma {:induction false} BelowEqualLengthAppend(x: Bytes, y: Bytes, p: Bytes, q: Bytes)
    requires |x| == |y| && Below(x, y)
    ensures Below(x + p, y + q)
    decreases |x|
  {
    if x[0] == y[0] {
      assert (x + p)[1..] == x[1..] + p && (y + q)[1..] == y[1..] + q;
      BelowEqualLengthAppend(x[1..], y[1..], p, q);
    }
  }

  /** A proper prefix sorts first. */
  lemma {:induction false} PrefixBelow(p: Bytes, k: Bytes)
    requires IsPrefix(p, k) && p != k
    ensures Below(p, k)
    decreases |p|
  {
    if |p| > 0 {
      assert k[1..][..|p| - 1] == p[1..];
      PrefixBelow(p[1..], k[1..]);
    }
  }

  /** Keys that share a prefix are contiguous in byte order: a key between p
      and a key prefixed by p is itself prefixed by p. */
  lemma {:induction false} PrefixBlock(p: Bytes, b: Bytes, c: Bytes)
    requires !Below(b, p)
    requires b == c || Below(b, c)
    requires IsPrefix(p, c)
    ensures IsPrefix(p, b)
    decreases |p|
  {
    if b == c || |p| == 0 {
    } else {
      assert c[0] == p[0];
      assert |b| > 0;
      assert b[0] == p[0];
      assert IsPrefix(p[1..], c[1..]) by {
        assert c[1..][..|p| - 1] == c[..|p|][1..];
      }
      PrefixBlock(p[1..], b[1..], c[1..]);
      assert b[..|p|] == [b[0]] + b[1..][..|p| - 1];
    }
  }

  /** Once a sorted scan at or above p meets a key not prefixed by p, no later key is. */
  lemma BlockEnded(p: Bytes, b: Bytes, c: Bytes)
    requires !Below(b, p) && !IsPrefix(p, b)
    requires Below(b, c)
    ensures !IsPrefix(p, c)
  {
    if IsPrefix(p, c) {
      PrefixBlock(p, b, c);
    }
  }

  /** A key at or above k that is neither k nor extended by k ++ [0x00] sorts
      after every key that extends k ++ [0x00]. */
  lemma {:induction false} AboveZeroExtension(k: Bytes, b: Bytes)
    requires !Below(b, k) && b != k
    ensures !Below(b, k + [0])
    decreases |k|
  {
    if |k| == 0 {
      assert |b| > 0;
    } else if |b| > 0 && b[0] == k[0] {
      assert (k + [0])[1..] == k[1..] + [0];
      assert b == [b[0]] + b[1..] && k == [k[0]] + k[1..];
      AboveZeroExtension(k[1..], b[1..]);
    }
  }

  /** The codec does not preserve order where one part is another plus a
      0x00: ["a"] sorts after ["a\x00"], because an escaped zero (0x00 0x00)
      sorts before a terminator (0x00 0x01). */
  lemma JoinOrderCounterexample()
    ensures Below([97], [97, 0]) && Below(Join([[97, 0]]), Join([[97]]))
  {
    assert [[97, 0]][1..] == [];
    assert [[97]][1..] == [];
    assert Join([[97, 0]]) == [97, 0, 0, 0, 1];
    assert Join([[97]]) == [97, 0, 1];
  }
}
