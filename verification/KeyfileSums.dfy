/** Keyfile mixing in plain numbers: what src/crypto/keyfile.rs computes, without its own addition and its table. */
module KeyfileSums {
  import opened Arithmetic
  import opened Outcomes
  import opened Crc
  import opened Keyfile

  // The arithmetic of octets.

  /** An octet as a number. */
  function Val(x: bv8): (n: nat)
    ensures n < 256
  {
    x as nat
  }

  function Next(x: bv8): bv8 {
    x + 1
  }

  function Before(x: bv8): bv8 {
    x - 1
  }

  lemma NextVal(x: bv8)
    ensures Val(Next(x)) == if Val(x) == 255 then 0 else Val(x) + 1
  {
  }

  lemma BeforeVal(x: bv8)
    requires Val(x) != 0
    ensures Val(x) == Val(Before(x)) + 1
  {
  }

  lemma PlusNext(x: bv8, y: bv8)
    ensures Plus(x, y) == Next(Plus(x, Before(y)))
  {
  }

  lemma PlusZero(x: bv8, y: bv8)
    requires Val(y) == 0
    ensures Plus(x, y) == x
  {
  }

  /** The addition of the mixing is addition of numbers that wraps at 256. */
  lemma {:induction false} PlusWraps(x: bv8, y: bv8)
    ensures Val(Plus(x, y)) == (Val(x) + Val(y)) % 256
    decreases Val(y)
  {
    hide Plus, Next, Before, Val;
    if Val(y) == 0 {
      PlusZero(x, y);
    } else {
      BeforeVal(y);
      PlusWraps(x, Before(y));
      PlusNext(x, y);
      NextVal(Plus(x, Before(y)));
    }
  }

  lemma ZeroVal()
    ensures Val(0) == 0
  {
  }

  /** The bytes of a register are taken from its most significant end. */
  lemma RegisterInOrder(crc: bv32)
    ensures crc == (RegisterByte(crc, 0) as bv32 << 24) | (RegisterByte(crc, 1) as bv32 << 16)
                   | (RegisterByte(crc, 2) as bv32 << 8) | (RegisterByte(crc, 3) as bv32)
  {
  }

  // The sums.

  /** What the first n bytes of a keyfile add to pool position j: bytes of the bit-serial checksum, four a position. */
  function SumOf(data: Octets, n: nat, j: nat, size: nat): nat
    requires n <= |data| && size > 0
  {
    if n == 0 then 0
    else SumOf(data, n - 1, j, size)
         + if StartsAt(n - 1, size) == 4 * (j / 4) then Val(RegisterByte(SerialCrc(0xFFFF_FFFF, data[..n]), j % 4))
           else 0
  }

  /** Where in the pool the four bytes for byte i of a keyfile go. */
  function StartsAt(i: nat, size: nat): nat
    requires size > 0
  {
    4 * i % size
  }

  lemma MultipleDrops(k: nat, r: nat)
    ensures (256 * k + r) % 256 == r % 256
  {
  }

  lemma SumWraps(a: nat, b: nat)
    ensures (a % 256 + b) % 256 == (a + b) % 256
    ensures (a % 256 + b % 256) % 256 == (a + b) % 256
  {
    MultipleDrops(a / 256, a % 256 + b);
    MultipleDrops(b / 256, a % 256 + b % 256);
    assert a == 256 * (a / 256) + a % 256 && b == 256 * (b / 256) + b % 256;
  }

  /** What all keyfiles add; only the first 1 MiB of each counts. */
  function SumOfAll(keyfiles: seq<Octets>, j: nat, size: nat): nat
    requires size > 0
  {
    if keyfiles == [] then 0
    else
      var last := keyfiles[|keyfiles| - 1];
      SumOfAll(keyfiles[..|keyfiles| - 1], j, size)
      + SumOf(last, if |last| <= 1_048_576 then |last| else 1_048_576, j, size)
  }

  lemma SlotIs(i: nat, size: nat)
    requires size >= 4 && size % 4 == 0
    ensures SlotOf(i, size) == 4 * i % size
  {
    var m := size / 4;
    var q, r := i / m, i % m;
    assert i == q * m + r;
    assert 4 * i == q * size + 4 * r by {
      assert 4 * (q * m) == q * (4 * m);
    }
    RemainderIs(4 * i, size, q, 4 * r);
  }

  lemma RemainderIs(a: nat, b: nat, q: nat, r: nat)
    requires a == q * b + r && r < b
    ensures a % b == r
  {
    QuotientIs(a, b, q);
    assert a == a / b * b + a % b;
  }

  /** One position, in the terms of both. */
  lemma ShareIs(data: Octets, i: nat, j: nat, size: nat)
    requires i < |data| && size >= 4 && size % 4 == 0
    ensures Share(data, i, j, size)
         == if StartsAt(i, size) == 4 * (j / 4) then RegisterByte(SerialCrc(0xFFFF_FFFF, data[..i + 1]), j % 4) else 0
  {
    hide RegisterByte, Step, SerialCrc, SlotOf;
    SlotIs(i, size);
    RunningIsSerial(INITIAL_CRC, data[..i + 1]);
    var slot := 4 * i % size;
    SlotIsFourfold(i, size);
    assert slot <= j < slot + 4 <==> slot == 4 * (j / 4);
  }

  lemma SlotIsFourfold(i: nat, size: nat)
    requires size >= 4 && size % 4 == 0
    ensures 4 * i % size % 4 == 0
  {
    SlotIs(i, size);
  }

  lemma {:induction false} SharesAreSums(data: Octets, n: nat, j: nat, size: nat)
    requires n <= |data| && size >= 4 && size % 4 == 0
    ensures Val(Shares(data, n, j, size)) == SumOf(data, n, j, size) % 256
    decreases n
  {
    hide Plus, Val, RegisterByte, Share, SerialCrc, StartsAt;
    ZeroVal();
    if n > 0 {
      SharesAreSums(data, n - 1, j, size);
      PlusWraps(Shares(data, n - 1, j, size), Share(data, n - 1, j, size));
      ShareIs(data, n - 1, j, size);
      SumWraps(SumOf(data, n - 1, j, size), Val(Share(data, n - 1, j, size)));
    }
  }

  lemma {:induction false} UsedPart(data: Octets, m: nat, n: nat, j: nat, size: nat)
    requires n <= m <= |data| && size > 0
    ensures SumOf(data[..m], n, j, size) == SumOf(data, n, j, size)
    decreases n
  {
    hide Val, RegisterByte, SerialCrc, StartsAt;
    if n > 0 {
      UsedPart(data, m, n - 1, j, size);
      assert data[..m][..n] == data[..n];
    }
  }

  lemma TotalIsSum(data: Octets, j: nat, size: nat)
    requires size >= 4 && size % 4 == 0
    ensures Val(Total(data, j, size)) == SumOf(data, if |data| <= 1_048_576 then |data| else 1_048_576, j, size) % 256
  {
    hide Val, Shares, SumOf;
    SharesAreSums(Used(data), |Used(data)|, j, size);
    if |data| > 1_048_576 {
      UsedPart(data, 1_048_576, 1_048_576, j, size);
    }
  }

  lemma {:induction false} PoolIsSum(keyfiles: seq<Octets>, j: nat, size: nat)
    requires size >= 4 && size % 4 == 0
    ensures Val(PoolAt(keyfiles, j, size)) == SumOfAll(keyfiles, j, size) % 256
    decreases |keyfiles|
  {
    hide Plus, Val, Total, SumOf;
    ZeroVal();
    if keyfiles != [] {
      var front, last := keyfiles[..|keyfiles| - 1], keyfiles[|keyfiles| - 1];
      PoolIsSum(front, j, size);
      TotalIsSum(last, j, size);
      PlusWraps(PoolAt(front, j, size), Total(last, j, size));
      SumWraps(SumOfAll(front, j, size), SumOfAll(keyfiles, j, size) - SumOfAll(front, j, size));
    }
  }

  /**
   The effective password in numbers. Each of its bytes below the pool's size is the password byte, or zero beyond the
   password's end, plus the sum over all keyfiles, modulo 256; behind the pool it is the password byte.
   */
  lemma EffectiveInNumbers(password: Octets, keyfiles: seq<Octets>)
    requires keyfiles != [] && [] !in keyfiles
    ensures var size := if |password| <= 64 then 64 else 128;
            var r := Effective(password, keyfiles);
            && r.Ok? && |r.value| == (if |password| < size then size else |password|)
            && forall i :: 0 <= i < |r.value| ==>
                 var own := if i < |password| then Val(password[i]) else 0;
                 Val(r.value[i]) == if i < size then (own + SumOfAll(keyfiles, i, size)) % 256 else own
  {
    hide Plus, Val, PoolAt, SumOfAll, MixedAt;
    var size, r := PoolSize(|password|), Effective(password, keyfiles);
    forall i | 0 <= i < |r.value|
      ensures var own := if i < |password| then Val(password[i]) else 0;
              Val(r.value[i]) == if i < size then (own + SumOfAll(keyfiles, i, size)) % 256 else own
    {
      MixedInNumbers(password, keyfiles, i);
    }
  }

  lemma MixedInNumbers(password: Octets, keyfiles: seq<Octets>, i: nat)
    ensures var size := PoolSize(|password|);
            var own := if i < |password| then Val(password[i]) else 0;
            Val(MixedAt(password, keyfiles, i)) == if i < size then (own + SumOfAll(keyfiles, i, size)) % 256 else own
  {
    hide Plus, Val, PoolAt, SumOfAll;
    var size := PoolSize(|password|);
    ZeroVal();
    PoolIsSum(keyfiles, i, size);
    PlusWraps(Padded(password, i), if i < size then PoolAt(keyfiles, i, size) else 0);
  }

  /** Without keyfiles the password is used as it is, and an empty keyfile is an error. */
  lemma OtherwiseUnmixed(password: Octets, keyfiles: seq<Octets>)
    ensures keyfiles == [] ==> Effective(password, keyfiles) == Ok(password)
    ensures [] in keyfiles ==> Effective(password, keyfiles) == Err(EmptyKeyfile)
  {
  }
}
