/** Unsigned little-endian integers: the meaning of Python's
    `int.from_bytes(chunk, "little")` for the 8-byte chunks of the converter,
    and its inverse. */
module LittleEndian {

  /** One element of a Python `bytes` object. */
  type byte = b: int | 0 <= b < 256

  /** Bytes per output word: one 64-bit AXI beat. */
  const WordBytes := 8

  /** 2^64: every 8-byte little-endian value lies below it. */
  const WordLimit: nat := 0x1_0000_0000_0000_0000

  function Pow256(n: nat): (p: nat)
    ensures p > 0
  {
    if n == 0 then 1 else 256 * Pow256(n - 1)
  }

  lemma WordLimitIsPow256()
    ensures Pow256(WordBytes) == WordLimit
  {
  }

  /** The value of `chunk` read least-significant byte first (Horner form). */
  function LeValue(chunk: seq<byte>): (v: nat)
    ensures v < Pow256(|chunk|)
  {
    if chunk == [] then 0 else chunk[0] + 256 * LeValue(chunk[1..])
  }

  /** The textbook formula: the sum over j of chunk[j] * 256^j. */
  function LeSum(chunk: seq<byte>): nat
  {
    if chunk == [] then 0
    else LeSum(chunk[..|chunk| - 1]) + chunk[|chunk| - 1] * Pow256(|chunk| - 1)
  }

  /** The `n` bytes of `v`, least significant first: `v.to_bytes(n, "little")`
      for v < 256^n. For a larger value it keeps the low `n` bytes, where
      Python raises OverflowError. */
  function LeBytes(v: nat, n: nat): (r: seq<byte>)
    ensures |r| == n
  {
    if n == 0 then [] else [v % 256] + LeBytes(v / 256, n - 1)
  }

  /** Appending a byte adds it at the next power of 256. */
  lemma {:induction false} LeValueSnoc(s: seq<byte>, b: byte)
    ensures LeValue(s + [b]) == LeValue(s) + b * Pow256(|s|)
  {
    if s == [] {
      assert s + [b] == [b];
    } else {
      assert (s + [b])[1..] == s[1..] + [b];
      LeValueSnoc(s[1..], b);
      calc {
        LeValue(s + [b]);
        s[0] + 256 * LeValue(s[1..] + [b]);
        s[0] + 256 * (LeValue(s[1..]) + b * Pow256(|s| - 1));
        { assert 256 * (b * Pow256(|s| - 1)) == b * (256 * Pow256(|s| - 1)); }
        LeValue(s) + b * Pow256(|s|);
      }
    }
  }

  /** The recursive reading agrees with the sum formula, so a chunk's value is
      sum(chunk[j] * 256^j): byte 0 is the least significant. */
  lemma {:induction false} LeValueIsSum(chunk: seq<byte>)
    ensures LeValue(chunk) == LeSum(chunk)
  {
    if chunk != [] {
      var n := |chunk| - 1;
      LeValueIsSum(chunk[..n]);
      assert chunk == chunk[..n] + [chunk[n]];
      LeValueSnoc(chunk[..n], chunk[n]);
    }
  }

  /** Splitting a chunk's value back into bytes gives the chunk. */
  lemma {:induction false} LeBytesOfLeValue(chunk: seq<byte>)
    ensures LeBytes(LeValue(chunk), |chunk|) == chunk
  {
    if chunk != [] {
      var v := LeValue(chunk);
      assert v % 256 == chunk[0] && v / 256 == LeValue(chunk[1..]);
      LeBytesOfLeValue(chunk[1..]);
    }
  }

  /** Reading back the bytes of a value that fits in `n` bytes gives the value. */
  lemma {:induction false} LeValueOfLeBytes(v: nat, n: nat)
    requires v < Pow256(n)
    ensures LeValue(LeBytes(v, n)) == v
  {
    if n > 0 {
      var r := LeBytes(v, n);
      assert r[1..] == LeBytes(v / 256, n - 1);
      LeValueOfLeBytes(v / 256, n - 1);
    }
  }
}
