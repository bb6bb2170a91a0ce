/** Bytes and big-endian integers, as `to_be_bytes` and `from_be_bytes` handle them. */
module BigEndian {

  type Byte = b: int | 0 <= b < 0x100

  type Bytes = seq<Byte>

  type U32 = n: int | 0 <= n < 0x1_0000_0000

  type U64 = n: int | 0 <= n < 0x1_0000_0000_0000_0000

  const U64_LIMIT: nat := 0x1_0000_0000_0000_0000

  /** The number of values that k bytes can take. */
  function Capacity(k: nat): (r: nat)
    ensures r > 0
  {
    if k == 0 then 1 else 0x100 * Capacity(k - 1)
  }

  /**
   The k low-order bytes of n, most significant first. Higher bytes are dropped, as a cast to a narrower type does.
   */
  function BE(n: nat, k: nat): (r: Bytes)
    ensures |r| == k
  {
    if k == 0 then [] else BE(n / 0x100, k - 1) + [n % 0x100]
  }

  function FromBE(s: Bytes): nat {
    if s == [] then 0 else FromBE(s[..|s| - 1]) * 0x100 + s[|s| - 1]
  }

  lemma {:induction false} FromBEInvertsBE(n: nat, k: nat)
    requires n < Capacity(k)
    ensures FromBE(BE(n, k)) == n
  {
    if k > 0 {
      FromBEInvertsBE(n / 0x100, k - 1);
      assert BE(n, k)[..k - 1] == BE(n / 0x100, k - 1);
    }
  }

  lemma {:induction false} BEInvertsFromBE(s: Bytes)
    ensures FromBE(s) < Capacity(|s|)
    ensures BE(FromBE(s), |s|) == s
  {
    if s != [] {
      BEInvertsFromBE(s[..|s| - 1]);
    }
  }

  lemma Capacities()
    ensures Capacity(4) == 0x1_0000_0000
    ensures Capacity(8) == U64_LIMIT
  {
    assert Capacity(2) == 0x1_0000;
    assert Capacity(4) == 0x1_0000 * Capacity(2);
    assert Capacity(6) == 0x1_0000 * Capacity(4);
    assert Capacity(8) == 0x1_0000 * Capacity(6);
  }

  /** What four bytes stand for, and eight. */
  lemma FourBytes(a: Byte, b: Byte, c: Byte, d: Byte)
    ensures FromBE([a, b, c, d]) == 0x100_0000 * a + 0x1_0000 * b + 0x100 * c + d
    ensures BE(0x100_0000 * a + 0x1_0000 * b + 0x100 * c + d, 4) == [a, b, c, d]
  {
    hide BE;
    var s := [a, b, c, d];
    assert s[..3] == [a, b, c] && [a, b, c][..2] == [a, b] && [a, b][..1] == [a] && [a][..0] == [];
    assert FromBE([a]) == a;
    assert FromBE([a, b]) == 0x100 * a + b;
    assert FromBE([a, b, c]) == 0x100 * FromBE([a, b]) + c;
    BEInvertsFromBE(s);
  }

  lemma EightBytes(high: Bytes, low: Bytes)
    requires |high| == 4 == |low|
    ensures FromBE(high + low) == 0x1_0000_0000 * FromBE(high) + FromBE(low)
    ensures BE(0x1_0000_0000 * FromBE(high) + FromBE(low), 8) == high + low
  {
    FromBEConcat(high, low);
    Capacities();
    BEInvertsFromBE(high + low);
  }

  lemma {:induction false} FromBEConcat(high: Bytes, low: Bytes)
    ensures FromBE(high + low) == FromBE(high) * Capacity(|low|) + FromBE(low)
    decreases |low|
  {
    if low == [] {
      assert high + low == high;
    } else {
      var n := |low| - 1;
      FromBEConcat(high, low[..n]);
      assert (high + low)[..|high| + n] == high + low[..n];
      assert (high + low)[|high| + n] == low[n];
      Shifted(FromBE(high), Capacity(n), FromBE(low[..n]));
    }
  }

  lemma Shifted(f: nat, k: nat, x: nat)
    ensures (f * k + x) * 0x100 == f * (0x100 * k) + x * 0x100
  {
  }

  lemma U32RoundTrip(n: nat)
    requires n < 0x1_0000_0000
    ensures FromBE(BE(n, 4)) == n
  {
    Capacities();
    FromBEInvertsBE(n, 4);
  }

  lemma U64RoundTrip(n: nat)
    requires n < U64_LIMIT
    ensures FromBE(BE(n, 8)) == n
  {
    Capacities();
    FromBEInvertsBE(n, 8);
  }

  lemma U32Bound(s: Bytes)
    requires |s| == 4
    ensures FromBE(s) < 0x1_0000_0000
    ensures BE(FromBE(s), 4) == s
  {
    Capacities();
    BEInvertsFromBE(s);
  }

  lemma U64Bound(s: Bytes)
    requires |s| == 8
    ensures FromBE(s) < U64_LIMIT
    ensures BE(FromBE(s), 8) == s
  {
    Capacities();
    BEInvertsFromBE(s);
  }

  /** The concatenation of all pieces. */
  function Flatten<T>(pieces: seq<seq<T>>): seq<T> {
    if pieces == [] then [] else pieces[0] + Flatten(pieces[1..])
  }

  /** A slice of what follows position `at`. */
  lemma SliceAfter(s: Bytes, at: nat, from: nat, to: nat)
    requires from <= to && at + to <= |s|
    ensures s[at..][from..to] == s[at + from..at + to]
    ensures s[at..][to..] == s[at + to..]
  {
  }

  lemma ConcatAssociates(a: Bytes, b: Bytes, c: Bytes, d: Bytes)
    ensures a + b + c + d == a + (b + c + d)
  {
  }
}
