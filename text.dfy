/** Byte-string helpers shared by the kc and kol layers: Go's strings.Split
    and strings.Join on a one-byte separator, and ASCII constants. */
module ByteText {
  import opened KeyCodec

  /** strings.Split(b, sep) for a one-byte separator: always at least one part. */
  function SplitOn(b: Bytes, sep: Byte): (parts: seq<Bytes>)
    ensures |parts| >= 1
  {
    if |b| == 0 then [[]]
    else if b[0] == sep then [[]] + SplitOn(b[1..], sep)
    else
      var rest := SplitOn(b[1..], sep);
      [[b[0]] + rest[0]] + rest[1..]
  }

  /** strings.Join(parts, sep). */
  function JoinOn(parts: seq<Bytes>, sep: Byte): Bytes
    requires |parts| >= 1
  {
    if |parts| == 1 then parts[0] else parts[0] + [sep] + JoinOn(parts[1..], sep)
  }

  /** Splitting loses nothing, and no part holds the separator. */
  lemma {:induction false} SplitOnInverse(b: Bytes, sep: Byte)
    ensures JoinOn(SplitOn(b, sep), sep) == b
    ensures forall i :: 0 <= i < |SplitOn(b, sep)| ==> sep !in SplitOn(b, sep)[i]
  {
    if |b| == 0 {
    } else if b[0] == sep {
      SplitOnInverse(b[1..], sep);
      var rest := SplitOn(b[1..], sep);
      assert SplitOn(b, sep)[1..] == rest;
      assert b == [sep] + b[1..];
    } else {
      SplitOnInverse(b[1..], sep);
      var rest := SplitOn(b[1..], sep);
      var parts := SplitOn(b, sep);
      assert parts[0] == [b[0]] + rest[0];
      if |rest| == 1 {
        assert b == [b[0]] + b[1..];
      } else {
        assert parts[1..] == rest[1..];
        assert JoinOn(rest, sep) == rest[0] + [sep] + JoinOn(rest[1..], sep);
        assert b == [b[0]] + b[1..];
      }
      forall i | 0 < i < |parts|
        ensures sep !in parts[i]
      {
        assert parts[i] == rest[i];
      }
    }
  }

  /** A text that holds no separator is a single part. */
  lemma {:induction false} SplitOnNoSeparator(b: Bytes, sep: Byte)
    requires sep !in b
    ensures SplitOn(b, sep) == [b]
  {
    if |b| > 0 {
      assert sep !in b[1..];
      SplitOnNoSeparator(b[1..], sep);
      assert [b[0]] + b[1..] == b;
    }
  }

  /** The bytes read as a big-endian unsigned number (big.Int.SetBytes,
      binary.BigEndian). */
  function BeToNat(b: Bytes): nat {
    if |b| == 0 then 0 else BeToNat(b[..|b| - 1]) * 256 + b[|b| - 1]
  }

  /** The bytes of an ASCII string literal. */
  function Ascii(s: string): Bytes
    requires forall i :: 0 <= i < |s| ==> s[i] as int < 256
  {
    seq(|s|, i requires 0 <= i < |s| => s[i] as int)
  }
}
