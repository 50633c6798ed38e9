/** Types shared by the models: bytes, optional values, results. */
module Prelude {

  type byte = x: int | 0 <= x < 256

  const U64_MAX: nat := 0xffff_ffff_ffff_ffff

  type u64 = x: int | 0 <= x <= U64_MAX

  /** The largest `usize` of the 64-bit targets the transport runs on. */
  const USIZE_MAX: nat := 0xffff_ffff_ffff_ffff

  /** The largest frame body, shared by the framing layer, the queue reserves and the overlay. */
  const MAX_FRAME_BYTES: nat := 1024 * 1024

  datatype Option<+T> = None | Some(value: T)

  datatype Result<+T, +E> = Ok(value: T) | Err(error: E)
}

/** Big-endian encodings of unsigned integers, as `to_be_bytes` and `from_be_bytes` give them. */
module BigEndian {
  import opened Prelude

  function Pow256(k: nat): (p: nat)
    ensures p >= 1
  {
    if k == 0 then 1 else 256 * Pow256(k - 1)
  }

  /** The low `k` bytes of `n`, most significant first. */
  function ToBytes(n: nat, k: nat): (b: seq<byte>)
    ensures |b| == k
    decreases k
  {
    if k == 0 then [] else
      var low: int := n % 256;
      ToBytes(n / 256, k - 1) + [low]
  }

  function FromBytes(b: seq<byte>): (n: nat)
    ensures n < Pow256(|b|)
  {
    if b == [] then 0
    else
      var high: int := FromBytes(b[..|b| - 1]);
      256 * high + b[|b| - 1]
  }

  lemma {:induction false} FromToBytes(n: nat, k: nat)
    requires n < Pow256(k)
    ensures FromBytes(ToBytes(n, k)) == n
    decreases k
  {
    if k > 0 {
      FromToBytes(n / 256, k - 1);
      assert ToBytes(n, k)[..k - 1] == ToBytes(n / 256, k - 1);
    }
  }

  lemma {:induction false} ToFromBytes(b: seq<byte>)
    ensures ToBytes(FromBytes(b), |b|) == b
  {
    if b != [] {
      var high: int, low: int := FromBytes(b[..|b| - 1]), b[|b| - 1];
      var n := FromBytes(b);
      assert n == 256 * high + low;
      assert n / 256 == high && n % 256 == low;
      ToFromBytes(b[..|b| - 1]);
      assert b == b[..|b| - 1] + [b[|b| - 1]];
    }
  }

  /** Whether the first byte in which two strings differ is lower in the first. */
  predicate Precedes(a: seq<byte>, b: seq<byte>)
    requires |a| == |b|
  {
    a != [] && (a[0] < b[0] || (a[0] == b[0] && Precedes(a[1..], b[1..])))
  }

  lemma {:induction false} PrecedesByLast(a: seq<byte>, x: byte, b: seq<byte>, y: byte)
    requires |a| == |b|
    ensures Precedes(a + [x], b + [y]) <==> Precedes(a, b) || (a == b && x < y)
  {
    if a == [] {
      assert a + [x] == [x] && b + [y] == [y];
    } else {
      assert (a + [x])[1..] == a[1..] + [x] && (b + [y])[1..] == b[1..] + [y];
      assert a == [a[0]] + a[1..] && b == [b[0]] + b[1..];
      PrecedesByLast(a[1..], x, b[1..], y);
    }
  }

  /** The first byte is the most significant one: equally long strings order as their numbers do. */
  lemma {:induction false} MostSignificantFirst(a: seq<byte>, b: seq<byte>)
    requires |a| == |b|
    ensures FromBytes(a) < FromBytes(b) <==> Precedes(a, b)
    ensures FromBytes(a) == FromBytes(b) <==> a == b
  {
    if a != [] {
      var n := |a| - 1;
      assert a == a[..n] + [a[n]] && b == b[..n] + [b[n]];
      MostSignificantFirst(a[..n], b[..n]);
      PrecedesByLast(a[..n], a[n], b[..n], b[n]);
    }
  }

  lemma Powers()
    ensures Pow256(1) == 0x100 && Pow256(2) == 0x1_0000
    ensures Pow256(4) == 0x1_0000_0000 && Pow256(8) == 0x1_0000_0000_0000_0000
  {
    assert Pow256(3) == 256 * Pow256(2);
    assert Pow256(5) == 256 * Pow256(4);
    assert Pow256(6) == 256 * Pow256(5);
    assert Pow256(7) == 256 * Pow256(6);
  }
}
