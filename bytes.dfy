/**
 * Fixed-width unsigned integers and the little-endian byte order of the
 * `byteorder` crate (`LittleEndian::write_u64`, `read_u64`, `read_u32`),
 * together with `Vec::resize`.
 */
module Bytes {

  newtype u8 = x: int | 0 <= x < 256

  const TWO_32: nat := 0x1_0000_0000
  const TWO_64: nat := 0x1_0000_0000_0000_0000

  type u32 = x: nat | x < TWO_32
  type u64 = x: nat | x < TWO_64

  function Pow256(k: nat): (r: nat)
    ensures r >= 1
  {
    if k == 0 then 1 else 256 * Pow256(k - 1)
  }

  lemma Pow256Values()
    ensures Pow256(4) == TWO_32 && Pow256(8) == TWO_64
  {
    assert Pow256(2) == 0x1_0000;
    assert Pow256(4) == 0x1_0000 * 0x1_0000;
    assert Pow256(8) == Pow256(4) * Pow256(4) by {
      assert Pow256(8) == 256 * 256 * 256 * 256 * Pow256(4);
    }
  }

  /** The `k` low-order bytes of `n`, least significant first. */
  function LeBytes(n: nat, k: nat): (r: seq<u8>)
    ensures |r| == k
  {
    if k == 0 then [] else [(n % 256) as u8] + LeBytes(n / 256, k - 1)
  }

  /** Byte `i` of `LeBytes(n, k)` is digit `i` of `n` in base 256. */
  lemma {:induction false} LeBytesDigits(n: nat, k: nat)
    ensures forall i :: 0 <= i < k ==> LeBytes(n, k)[i] as nat == n / Pow256(i) % 256
  {
    if k > 0 {
      LeBytesDigits(n / 256, k - 1);
      DigitsShift(n, LeBytes(n / 256, k - 1));
    }
  }

  /** Digit `i` of `n / 256` is digit `i + 1` of `n`. */
  lemma DigitsShift(n: nat, rest: seq<u8>)
    requires forall i :: 0 <= i < |rest| ==> rest[i] as nat == n / 256 / Pow256(i) % 256
    ensures forall i :: 0 <= i < |rest| + 1 ==> ([(n % 256) as u8] + rest)[i] as nat == n / Pow256(i) % 256
  {
    forall i | 0 <= i < |rest| + 1
      ensures ([(n % 256) as u8] + rest)[i] as nat == n / Pow256(i) % 256
    {
      if i == 0 {
        assert Pow256(0) == 1;
      } else {
        DivPow(n, i - 1);
      }
    }
  }

  /** Dividing by 256 and then by `256^i` is dividing by `256^(i+1)`. */
  lemma DivPow(n: nat, i: nat)
    ensures n / 256 / Pow256(i) == n / Pow256(i + 1)
  {
    var m := Pow256(i);
    var q, t := n / 256, n / 256 / m;
    var u := q % m;
    assert q == m * t + u;
    assert n == 256 * (m * t) + 256 * u + n % 256;
    assert n == (256 * m) * t + (256 * u + n % 256);
    DivUnique(n, 256 * m, t, 256 * u + n % 256);
  }

  /** The quotient is the only `t` with `n == d * t + rem` and `rem < d`. */
  lemma DivUnique(n: nat, d: nat, t: nat, rem: nat)
    requires d > 0 && n == d * t + rem && rem < d
    ensures n / d == t
  {
    var q := n / d;
    assert d * q + n % d == d * t + rem;
    MulMono(d, q, t);
    MulMono(d, t, q);
  }

  lemma {:induction false} MulMono(d: nat, a: nat, b: nat)
    ensures a < b ==> d * a + d <= d * b
    decreases b - a
  {
    if a < b {
      assert d * (a + 1) == d * a + d;
      if a + 1 < b {
        MulMono(d, a + 1, b);
      }
    }
  }

  /** The unsigned number whose little-endian bytes are `s`. */
  function LeValue(s: seq<u8>): (r: nat)
    ensures r < Pow256(|s|)
  {
    if s == [] then 0
    else
      var rest := LeValue(s[1..]);
      assert rest <= Pow256(|s| - 1) - 1;
      assert 256 * rest <= 256 * Pow256(|s| - 1) - 256;
      s[0] as nat + 256 * rest
  }

  lemma {:induction false} LeValueOfLeBytes(n: nat, k: nat)
    requires n < Pow256(k)
    ensures LeValue(LeBytes(n, k)) == n
  {
    if k > 0 {
      var s := LeBytes(n, k);
      assert s[1..] == LeBytes(n / 256, k - 1);
      LeValueOfLeBytes(n / 256, k - 1);
    }
  }

  lemma {:induction false} LeBytesOfLeValue(s: seq<u8>)
    ensures LeBytes(LeValue(s), |s|) == s
  {
    if s != [] {
      var v := LeValue(s);
      assert v % 256 == s[0] as nat && v / 256 == LeValue(s[1..]);
      LeBytesOfLeValue(s[1..]);
    }
  }

  /** `LittleEndian::write_u64`: the 8-byte encoding of a u64. */
  function Le64(n: u64): (r: seq<u8>)
    ensures |r| == 8
  {
    LeBytes(n, 8)
  }

  /** `LittleEndian::write_u32` / `WriteBytesExt::write_u32`. */
  function Le32(n: u32): (r: seq<u8>)
    ensures |r| == 4
  {
    LeBytes(n, 4)
  }

  /** `LittleEndian::read_u64` over an 8-byte buffer. */
  function ReadLe64(s: seq<u8>): (r: u64)
    requires |s| == 8
  {
    Pow256Values();
    LeValue(s)
  }

  /** `LittleEndian::read_u32` over a 4-byte buffer. */
  function ReadLe32(s: seq<u8>): (r: u32)
    requires |s| == 4
  {
    Pow256Values();
    LeValue(s)
  }

  lemma Le64RoundTrip(n: u64)
    ensures ReadLe64(Le64(n)) == n
  {
    Pow256Values();
    LeValueOfLeBytes(n, 8);
  }

  lemma Le32RoundTrip(n: u32)
    ensures ReadLe32(Le32(n)) == n
  {
    Pow256Values();
    LeValueOfLeBytes(n, 4);
  }

  lemma ReadLe64Inverse(s: seq<u8>)
    requires |s| == 8
    ensures Le64(ReadLe64(s)) == s
  {
    LeBytesOfLeValue(s);
  }

  /** Four bytes that read as `v` are the encoding of `v`. */
  lemma ReadLe32Inverse(s: seq<u8>, v: u32)
    requires |s| == 4 && ReadLe32(s) == v
    ensures s == Le32(v)
  {
    LeBytesOfLeValue(s);
  }

  /** `LittleEndian::write_u64` into the 8-byte array `a`. */
  method WriteLe64(a: array<u8>, n: u64)
    requires a.Length == 8
    modifies a
    ensures a[..] == Le64(n)
  {
    var bytes := Le64(n);
    forall i | 0 <= i < 8 {
      a[i] := bytes[i];
    }
  }

  function Zeros(k: nat): (r: seq<u8>)
    ensures |r| == k && forall i :: 0 <= i < k ==> r[i] == 0
  {
    seq(k, _ => 0)
  }

  /** `Vec::resize(n, 0)`: truncate to `n` bytes, or extend with zero bytes. */
  function Resize(s: seq<u8>, n: nat): (r: seq<u8>)
    ensures |r| == n
    ensures forall i :: 0 <= i < n ==> r[i] == if i < |s| then s[i] else 0
  {
    if n <= |s| then s[..n] else s + Zeros(n - |s|)
  }
}
