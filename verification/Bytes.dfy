/** Bytes, little-endian fields and the 64-bit arithmetic every reader shares. */
module Bytes {

  type byte = b: int | 0 <= b < 256

  const U64 := 0x1_0000_0000_0000_0000
  const U32 := 0x1_0000_0000

  /** The value of a little-endian field. */
  function Le(s: seq<byte>): nat {
    if s == [] then 0 else s[0] + 256 * Le(s[1..])
  }

  /** A little-endian field of `k` bytes. */
  function LeBytes(n: nat, k: nat): (s: seq<byte>)
    ensures |s| == k
  {
    if k == 0 then [] else [n % 256] + LeBytes(n / 256, k - 1)
  }

  function Pow256(k: nat): nat {
    if k == 0 then 1 else 256 * Pow256(k - 1)
  }

  lemma {:induction false} LeRoundTrip(n: nat, k: nat)
    requires n < Pow256(k)
    ensures Le(LeBytes(n, k)) == n
  {
    if k > 0 {
      LeRoundTrip(n / 256, k - 1);
      assert LeBytes(n, k)[1..] == LeBytes(n / 256, k - 1);
    }
  }

  lemma {:induction false} LeBound(s: seq<byte>)
    ensures Le(s) < Pow256(|s|)
  {
    if s != [] {
      LeBound(s[1..]);
    }
  }

  /** The field at `at`, if the bytes reach that far. */
  function Field(s: seq<byte>, at: nat, k: nat): nat
    requires at + k <= |s|
  {
    Le(s[at..at + k])
  }

  lemma Widths()
    ensures Pow256(2) == 0x1_0000 && Pow256(4) == U32 && Pow256(8) == U64
  {
    assert Pow256(3) == 256 * Pow256(2);
    assert Pow256(5) == 256 * Pow256(4) && Pow256(6) == 256 * Pow256(5) && Pow256(7) == 256 * Pow256(6);
  }

  /** `if(offset + count > size) count -= (offset + count) - size`, in unsigned 64-bit arithmetic:
      the way every stream of the library shortens a request at its end. */
  function Truncate(count: nat, offset: nat, size: nat): int
    requires count < U64 && offset < U64 && size < U64
  {
    var end := (offset + count) % U64;
    if end > size then (count - (end - size)) % U64 else count
  }

  /** Shortening yields the bytes that are left exactly when offset + count does not wrap. */
  lemma TruncateExact(count: nat, offset: nat, size: nat)
    requires count < U64 && offset <= size < U64
    ensures Truncate(count, offset, size) == (if count <= size - offset then count else size - offset)
            <==> offset + count < U64
  {
    if offset + count >= U64 {
      assert (offset + count) % U64 == offset + count - U64;
    }
  }

  lemma SliceSlice<T>(s: seq<T>, a: nat, b: nat, i: nat, j: nat)
    requires a <= b <= |s| && i <= j <= b - a
    ensures s[a..b][i..j] == s[a + i..a + j]
  {
    var t, u := s[a..b][i..j], s[a + i..a + j];
    assert |t| == |u| && forall k :: 0 <= k < |t| ==> t[k] == s[a + i + k] && u[k] == s[a + i + k];
  }
}
