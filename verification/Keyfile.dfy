/** Keyfile mixing: src/crypto/keyfile.rs. Bytes are octets here, whose addition wraps. */
module Keyfile {
  import opened Arithmetic
  import opened BigEndian
  import opened Outcomes
  import opened Crc
  import opened Encryptor
  import opened Wraith

  const KEYFILE_POOL_LEGACY_SIZE: nat := 64
  const KEYFILE_POOL_SIZE: nat := 128
  const KEYFILE_MAX_READ_LEN: nat := 1024 * 1024
  const INITIAL_CRC: bv32 := 0xFFFF_FFFF

  datatype KeyfileError = EmptyKeyfile

  function Plus(x: bv8, y: bv8): bv8 {
    x + y
  }

  lemma PlusIsAGroup(x: bv8, y: bv8, z: bv8)
    ensures Plus(Plus(x, y), z) == Plus(x, Plus(y, z))
    ensures Plus(x, y) == Plus(y, x)
    ensures Plus(x, 0) == x && Plus(0, x) == x
    ensures Plus(x, y) == Plus(x, z) ==> y == z
  {
  }

  /** Byte k of a register, most significant first. */
  function RegisterByte(crc: bv32, k: nat): bv8
    requires k < 4
  {
    match k
    case 0 => ((crc >> 24) & 0xFF) as bv8
    case 1 => ((crc >> 16) & 0xFF) as bv8
    case 2 => ((crc >> 8) & 0xFF) as bv8
    case _ => (crc & 0xFF) as bv8
  }

  lemma RegisterBytesDetermine(x: bv32, y: bv32)
    requires forall k: nat :: k < 4 ==> RegisterByte(x, k) == RegisterByte(y, k)
    ensures x == y
  {
    assert RegisterByte(x, 0) == RegisterByte(y, 0);
    assert RegisterByte(x, 1) == RegisterByte(y, 1);
    assert RegisterByte(x, 2) == RegisterByte(y, 2);
    assert RegisterByte(x, 3) == RegisterByte(y, 3);
  }

  function PoolSize(passwordLength: nat): nat {
    if passwordLength <= KEYFILE_POOL_LEGACY_SIZE then KEYFILE_POOL_LEGACY_SIZE else KEYFILE_POOL_SIZE
  }

  /** Where in the pool the register is added after byte i of a keyfile. */
  function SlotOf(i: nat, size: nat): nat
    requires size >= 4
  {
    4 * (i % (size / 4))
  }

  /** The register after the first n bytes. */
  function After(data: Octets, n: nat): bv32
    requires n <= |data|
  {
    Running(INITIAL_CRC, data[..n])
  }

  /** What byte i of a keyfile adds to pool position j. */
  function Share(data: Octets, i: nat, j: nat, size: nat): bv8
    requires i < |data| && size >= 4
  {
    if SlotOf(i, size) <= j < SlotOf(i, size) + 4
    then RegisterByte(After(data, i + 1), j - SlotOf(i, size))
    else 0
  }

  /** What the first n bytes of a keyfile add to pool position j. */
  function Shares(data: Octets, n: nat, j: nat, size: nat): bv8
    requires n <= |data| && size >= 4
  {
    if n == 0 then 0 else Plus(Shares(data, n - 1, j, size), Share(data, n - 1, j, size))
  }

  /** The part of a keyfile that is used. */
  function Used(data: Octets): Octets {
    if |data| <= KEYFILE_MAX_READ_LEN then data else data[..KEYFILE_MAX_READ_LEN]
  }

  /** What a whole keyfile adds to pool position j. */
  function Total(data: Octets, j: nat, size: nat): bv8
    requires size >= 4
  {
    Shares(Used(data), |Used(data)|, j, size)
  }

  /** What all keyfiles together add to pool position j. */
  function PoolAt(keyfiles: seq<Octets>, j: nat, size: nat): bv8
    requires size >= 4
  {
    if keyfiles == [] then 0
    else Plus(PoolAt(keyfiles[..|keyfiles| - 1], j, size), Total(keyfiles[|keyfiles| - 1], j, size))
  }

  lemma NextSlot(i: nat, size: nat)
    requires size >= 4 && size % 4 == 0
    ensures SlotOf(i, size) + 4 <= size
    ensures SlotOf(i + 1, size) == if SlotOf(i, size) + 4 >= size then 0 else SlotOf(i, size) + 4
  {
    NextRemainder(i, size / 4);
  }

  /** Folds a keyfile into the pool, four bytes for each byte read, going round. */
  method ProcessKeyfileBuf(table: array<bv32>, data: Octets, pool: array<bv8>, size: nat)
    requires IsTable(table)
    requires size % 4 == 0 && 4 <= size <= pool.Length
    modifies pool
    ensures forall j :: 0 <= j < size ==> pool[j] == Plus(old(pool[j]), Total(data, j, size))
    ensures forall j :: size <= j < pool.Length ==> pool[j] == old(pool[j])
  {
    hide Plus, RegisterByte, Step, After, SlotOf, IsTable;
    var used := Used(data);
    var crc, writePos, i := INITIAL_CRC, 0, 0;
    AfterSteps(used);
    FirstSlot(size);
    forall j | 0 <= j < size
      ensures pool[j] == Plus(old(pool[j]), Shares(used, 0, j, size))
    {
      PlusIsAGroup(pool[j], 0, 0);
    }
    while i < |used|
      invariant 0 <= i <= |used|
      invariant crc == After(used, i)
      invariant writePos == SlotOf(i, size) && writePos + 4 <= size
      invariant forall j :: 0 <= j < size ==> pool[j] == Plus(old(pool[j]), Shares(used, i, j, size))
      invariant forall j :: size <= j < pool.Length ==> pool[j] == old(pool[j])
    {
      crc := LookUp(table, crc, used[i]);
      assert crc == After(used, i + 1);
      ghost var before := pool[..];
      AddRegister(pool, writePos, crc);
      forall j | 0 <= j < size
        ensures pool[j] == Plus(old(pool[j]), Shares(used, i + 1, j, size))
      {
        PlusIsAGroup(old(pool[j]), Shares(used, i, j, size), Share(used, i, j, size));
        PlusIsAGroup(before[j], 0, 0);
        assert pool[j] == Plus(before[j], Share(used, i, j, size));
      }
      NextSlot(i, size);
      NextSlot(i + 1, size);
      writePos := writePos + 4;
      if writePos >= size {
        writePos := 0;
      }
      i := i + 1;
    }
  }

  lemma FirstSlot(size: nat)
    requires size >= 4 && size % 4 == 0
    ensures SlotOf(0, size) == 0
  {
  }

  lemma AfterSteps(data: Octets)
    ensures After(data, 0) == INITIAL_CRC
    ensures forall i :: 0 < i <= |data| ==> After(data, i) == Step(After(data, i - 1), data[i - 1])
  {
    hide Step;
    forall i | 0 < i <= |data|
      ensures After(data, i) == Step(After(data, i - 1), data[i - 1])
    {
      assert data[..i][..i - 1] == data[..i - 1];
    }
  }

  /** Adds the four bytes of the register to the pool, most significant first. */
  method AddRegister(pool: array<bv8>, at: nat, crc: bv32)
    requires at + 4 <= pool.Length
    modifies pool
    ensures forall j :: 0 <= j < pool.Length ==>
              pool[j] == if at <= j < at + 4 then Plus(old(pool[j]), RegisterByte(crc, j - at)) else old(pool[j])
  {
    hide Plus;
    pool[at] := Plus(pool[at], RegisterByte(crc, 0));
    pool[at + 1] := Plus(pool[at + 1], RegisterByte(crc, 1));
    pool[at + 2] := Plus(pool[at + 2], RegisterByte(crc, 2));
    pool[at + 3] := Plus(pool[at + 3], RegisterByte(crc, 3));
  }

  /** Byte i of the password, zero beyond its end. */
  function Padded(password: Octets, i: nat): bv8 {
    if i < |password| then password[i] else 0
  }

  function EffectiveLength(password: Octets): nat {
    var size := PoolSize(|password|);
    if |password| < size then size else |password|
  }

  /** Byte i of the mixed password. */
  function MixedAt(password: Octets, keyfiles: seq<Octets>, i: nat): bv8 {
    var size := PoolSize(|password|);
    Plus(Padded(password, i), if i < size then PoolAt(keyfiles, i, size) else 0)
  }

  function Mix(password: Octets, keyfiles: seq<Octets>, n: nat): (r: Octets)
    ensures |r| == n
    ensures forall i :: 0 <= i < n ==> r[i] == MixedAt(password, keyfiles, i)
  {
    if n == 0 then [] else Mix(password, keyfiles, n - 1) + [MixedAt(password, keyfiles, n - 1)]
  }

  /** The effective password. */
  function Effective(password: Octets, keyfiles: seq<Octets>): Result<Octets, KeyfileError> {
    if keyfiles == [] then Ok(password)
    else if [] in keyfiles then Err(EmptyKeyfile)
    else Ok(Mix(password, keyfiles, EffectiveLength(password)))
  }

  method ApplyKeyfiles(password: Octets, keyfiles: seq<Octets>) returns (r: Result<Octets, KeyfileError>)
    ensures r == Effective(password, keyfiles)
  {
    if keyfiles == [] {
      return Ok(password);
    }
    if [] in keyfiles {
      return Err(EmptyKeyfile);
    }
    var table := BuildTable();
    var pool := FillPool(table, keyfiles, PoolSize(|password|));
    var effective := AddPool(password, keyfiles, pool);
    r := Ok(effective[..]);
  }

  method FillPool(table: array<bv32>, keyfiles: seq<Octets>, size: nat) returns (pool: array<bv8>)
    requires IsTable(table)
    requires size % 4 == 0 && size >= 4
    ensures fresh(pool) && pool.Length == size
    ensures forall j :: 0 <= j < size ==> pool[j] == PoolAt(keyfiles, j, size)
  {
    hide Plus, Total, IsTable;
    pool := new bv8[size](_ => 0);
    var n := 0;
    while n < |keyfiles|
      invariant n <= |keyfiles|
      invariant forall j :: 0 <= j < size ==> pool[j] == PoolAt(keyfiles[..n], j, size)
    {
      ProcessKeyfileBuf(table, keyfiles[n], pool, size);
      assert keyfiles[..n + 1][..n] == keyfiles[..n];
      n := n + 1;
    }
    assert keyfiles[..n] == keyfiles;
  }

  /** Copies the password into a zeroed buffer of at least the pool's size and adds the pool to its front. */
  method AddPool(password: Octets, ghost keyfiles: seq<Octets>, pool: array<bv8>) returns (effective: array<bv8>)
    requires pool.Length == PoolSize(|password|)
    requires forall j :: 0 <= j < pool.Length ==> pool[j] == PoolAt(keyfiles, j, pool.Length)
    ensures fresh(effective)
    ensures effective[..] == Mix(password, keyfiles, EffectiveLength(password))
  {
    hide Plus, PoolAt;
    effective := new bv8[EffectiveLength(password)](_ => 0);
    forall i | 0 <= i < |password| {
      effective[i] := password[i];
    }
    var i := 0;
    while i < pool.Length
      invariant 0 <= i <= pool.Length <= effective.Length
      invariant forall j :: 0 <= j < i ==> effective[j] == MixedAt(password, keyfiles, j)
      invariant forall j :: i <= j < effective.Length ==> effective[j] == Padded(password, j)
    {
      effective[i] := Plus(effective[i], pool[i]);
      i := i + 1;
    }
    forall j | pool.Length <= j < effective.Length
      ensures effective[j] == MixedAt(password, keyfiles, j)
    {
      PlusIsAGroup(effective[j], 0, 0);
    }
  }

  // Order does not matter.

  lemma {:induction false} TakeOut(keyfiles: seq<Octets>, k: nat, j: nat, size: nat)
    requires k < |keyfiles| && size >= 4
    ensures PoolAt(keyfiles, j, size)
            == Plus(PoolAt(keyfiles[..k] + keyfiles[k + 1..], j, size), Total(keyfiles[k], j, size))
    decreases |keyfiles|
  {
    hide Plus, Total;
    var n := |keyfiles| - 1;
    var front, rest := keyfiles[..n], keyfiles[..k] + keyfiles[k + 1..];
    if k == n {
      assert rest == front;
    } else {
      TakeOut(front, k, j, size);
      assert rest[..n - 1] == front[..k] + front[k + 1..];
      assert rest[n - 1] == keyfiles[n];
      var a, b, c := PoolAt(front[..k] + front[k + 1..], j, size), Total(keyfiles[k], j, size),
        Total(keyfiles[n], j, size);
      PlusIsAGroup(a, b, c);
      PlusIsAGroup(a, c, b);
      PlusIsAGroup(b, c, a);
    }
  }

  lemma {:induction false} PoolIgnoresOrder(xs: seq<Octets>, ys: seq<Octets>, j: nat, size: nat)
    requires multiset(xs) == multiset(ys) && size >= 4
    ensures PoolAt(xs, j, size) == PoolAt(ys, j, size)
    decreases |xs|
  {
    hide Plus, Total;
    assert |xs| == |multiset(xs)| == |multiset(ys)| == |ys|;
    if xs != [] {
      var x, front := xs[|xs| - 1], xs[..|xs| - 1];
      assert xs == front + [x];
      assert x in multiset(ys);
      var k :| 0 <= k < |ys| && ys[k] == x;
      var rest := ys[..k] + ys[k + 1..];
      assert ys == ys[..k] + [x] + ys[k + 1..];
      assert multiset(xs) == multiset(front) + multiset{x};
      assert multiset(ys) == multiset(ys[..k]) + multiset{x} + multiset(ys[k + 1..]);
      assert multiset(rest) == multiset(ys[..k]) + multiset(ys[k + 1..]);
      assert multiset(front) == multiset(xs) - multiset{x} && multiset(rest) == multiset(ys) - multiset{x};
      PoolIgnoresOrder(front, rest, j, size);
      TakeOut(ys, k, j, size);
    }
  }

  /** Keyfiles may be given in any order. */
  lemma EffectiveIgnoresOrder(password: Octets, xs: seq<Octets>, ys: seq<Octets>)
    requires multiset(xs) == multiset(ys)
    ensures Effective(password, xs) == Effective(password, ys)
  {
    assert |xs| == |multiset(xs)| && |ys| == |multiset(ys)|;
    assert [] in xs <==> [] in multiset(xs);
    assert [] in ys <==> [] in multiset(ys);
    var n := EffectiveLength(password);
    forall i | 0 <= i < n
      ensures Mix(password, xs, n)[i] == Mix(password, ys, n)[i]
    {
      PoolIgnoresOrder(xs, ys, i, PoolSize(|password|));
    }
    assert Mix(password, xs, n) == Mix(password, ys, n);
  }

  lemma {:induction false} PoolUsesOnlyUsed(xs: seq<Octets>, ys: seq<Octets>, j: nat, size: nat)
    requires |xs| == |ys| && size >= 4
    requires forall i :: 0 <= i < |xs| ==> Used(xs[i]) == Used(ys[i])
    ensures PoolAt(xs, j, size) == PoolAt(ys, j, size)
    decreases |xs|
  {
    hide Plus, Used;
    if xs != [] {
      PoolUsesOnlyUsed(xs[..|xs| - 1], ys[..|ys| - 1], j, size);
    }
  }

  /** What lies beyond the first 1 MiB of a keyfile does not matter. */
  lemma OnlyUsedPartMatters(password: Octets, xs: seq<Octets>, ys: seq<Octets>)
    requires |xs| == |ys| && xs != []
    requires forall i :: 0 <= i < |xs| ==> Used(xs[i]) == Used(ys[i])
    ensures Effective(password, xs) == Effective(password, ys)
  {
    hide Plus, PoolAt;
    var n := EffectiveLength(password);
    forall i | 0 <= i < n
      ensures Mix(password, xs, n)[i] == Mix(password, ys, n)[i]
    {
      PoolUsesOnlyUsed(xs, ys, i, PoolSize(|password|));
    }
    assert Mix(password, xs, n) == Mix(password, ys, n);
    assert forall i :: 0 <= i < |xs| ==> (Used(xs[i]) == [] <==> xs[i] == []) && (Used(ys[i]) == [] <==> ys[i] == []);
    assert forall i :: 0 <= i < |xs| ==> (xs[i] == [] <==> ys[i] == []);
  }

  // Nothing is lost.

  /** With a keyfile the effective password has at least 64 bytes, so it is never empty. */
  lemma EffectiveIsLong(password: Octets, keyfiles: seq<Octets>)
    requires keyfiles != []
    ensures Effective(password, keyfiles).Ok? <==> [] !in keyfiles
    ensures Effective(password, keyfiles).Ok? ==>
      |Effective(password, keyfiles).value| >= KEYFILE_POOL_LEGACY_SIZE
        && |Effective(password, keyfiles).value| >= |password|
  {
  }

  /** Octets as the bytes that the codec is given. */
  function AsBytes(data: Octets): (b: Bytes)
    ensures |b| == |data|
    ensures forall i :: 0 <= i < |data| ==> b[i] == data[i] as int
  {
    if data == [] then [] else AsBytes(data[..|data| - 1]) + [data[|data| - 1] as int]
  }

  lemma AsBytesInjective(x: Octets, y: Octets)
    requires AsBytes(x) == AsBytes(y)
    ensures x == y
  {
    forall i | 0 <= i < |x|
      ensures x[i] == y[i]
    {
      assert x[i] as int == AsBytes(x)[i] == AsBytes(y)[i] == y[i] as int;
    }
  }

  /** The codec refuses mixed credentials as an empty password exactly when there is no password and no keyfile. */
  lemma GuardSeesCredentials(password: Octets, keyfiles: seq<Octets>, o: EncryptOptions)
    requires Effective(password, keyfiles).Ok?
    ensures Guard(AsBytes(Effective(password, keyfiles).value), o) == Some(InvalidPassword)
            <==> password == [] && keyfiles == []
  {
    hide MixedAt, PoolAt;
    if keyfiles != [] {
      EffectiveIsLong(password, keyfiles);
    }
  }

  /** Under the same keyfiles, two passwords have the same effect exactly when they agree after zero padding. */
  lemma PasswordsDistinguished(p: Octets, q: Octets, keyfiles: seq<Octets>)
    requires keyfiles != [] && [] !in keyfiles
    ensures Effective(p, keyfiles) == Effective(q, keyfiles) <==>
            EffectiveLength(p) == EffectiveLength(q)
            && forall i :: 0 <= i < EffectiveLength(p) ==> Padded(p, i) == Padded(q, i)
  {
    hide Plus, PoolAt;
    var n := EffectiveLength(p);
    if n == EffectiveLength(q) {
      assert PoolSize(|p|) == PoolSize(|q|);
      var x, y := Mix(p, keyfiles, n), Mix(q, keyfiles, n);
      forall i | 0 <= i < n
        ensures x[i] == y[i] <==> Padded(p, i) == Padded(q, i)
      {
        var s := if i < PoolSize(|p|) then PoolAt(keyfiles, i, PoolSize(|p|)) else 0;
        PlusIsAGroup(s, Padded(p, i), Padded(q, i));
        PlusIsAGroup(s, Padded(q, i), 0);
      }
      if forall i :: 0 <= i < n ==> Padded(p, i) == Padded(q, i) {
        assert x == y;
      }
    }
  }

  /** What one keyfile adds to a position that only its byte i reaches. */
  lemma {:induction false} SharesAlone(data: Octets, n: nat, i: nat, k: nat, size: nat)
    requires i < |data| && n <= |data| && k < 4
    requires size >= 4 && 4 * |data| <= size
    ensures SlotOf(i, size) == 4 * i
    ensures Shares(data, n, 4 * i + k, size) == if i < n then RegisterByte(After(data, i + 1), k) else 0
    decreases n
  {
    hide Plus, RegisterByte, After;
    SmallRemainder(i, size / 4);
    if n > 0 {
      SharesAlone(data, n - 1, i, k, size);
      SmallRemainder(n - 1, size / 4);
      PlusIsAGroup(Shares(data, n - 1, 4 * i + k, size), 0, 0);
      PlusIsAGroup(Share(data, n - 1, 4 * i + k, size), 0, 0);
    }
  }

  /** What one keyfile adds to the pool when it fits in one round: the registers after its bytes, and nothing behind. */
  lemma SharesOf(data: Octets, i: nat, k: nat, size: nat)
    requires data != [] && 4 * |data| <= size && size % 4 == 0 && k < 4 && 4 * i + k < size
    ensures Shares(data, |data|, 4 * i + k, size) == if i < |data| then RegisterByte(After(data, i + 1), k) else 0
  {
    if i < |data| {
      SharesAlone(data, |data|, i, k, size);
    } else {
      NoShareBehind(data, |data|, 4 * i + k, size);
    }
  }

  lemma {:induction false} NoShareBehind(data: Octets, n: nat, j: nat, size: nat)
    requires n <= |data| && 4 * |data| <= size && size >= 4 && j >= 4 * |data|
    ensures Shares(data, n, j, size) == 0
    decreases n
  {
    hide Plus, After;
    if n > 0 {
      NoShareBehind(data, n - 1, j, size);
      SmallRemainder(n - 1, size / 4);
      PlusIsAGroup(0, 0, 0);
    }
  }

  /** y continues x with bytes that each leave the register at zero, which adds nothing to the pool. */
  predicate ContinuesSilently(x: Octets, y: Octets) {
    && |x| <= |y| && y[..|x|] == x
    && forall i :: |x| < i <= |y| ==> After(y, i) == 0
  }

  /**
   Single keyfiles that fit the pool in one round have the same effect exactly when one of them continues the other
   silently; in particular, when they are equal.
   */
  lemma KeyfilesDistinguishedExactly(password: Octets, x: Octets, y: Octets)
    requires x != [] && 4 * |x| <= PoolSize(|password|) && y != [] && 4 * |y| <= PoolSize(|password|)
    ensures Effective(password, [x]) == Effective(password, [y])
            <==> ContinuesSilently(x, y) || ContinuesSilently(y, x)
  {
    if |x| <= |y| {
      LongerContinues(password, x, y);
      if ContinuesSilently(y, x) {
        assert x == y[..|x|] && x[..|y|] == y;
      }
    } else {
      LongerContinues(password, y, x);
    }
  }

  lemma LongerContinues(password: Octets, x: Octets, y: Octets)
    requires x != [] && |x| <= |y| && 4 * |y| <= PoolSize(|password|)
    ensures Effective(password, [x]) == Effective(password, [y]) <==> ContinuesSilently(x, y)
  {
    hide Plus, RegisterByte, After, ContinuesSilently, Effective;
    if Effective(password, [x]) == Effective(password, [y]) {
      SameEffectContinues(password, x, y);
    }
    if ContinuesSilently(x, y) {
      ContinuingChangesNothing(password, x, y);
    }
  }

  lemma SameEffectContinues(password: Octets, x: Octets, y: Octets)
    requires x != [] && |x| <= |y| && 4 * |y| <= PoolSize(|password|)
    requires Effective(password, [x]) == Effective(password, [y])
    ensures ContinuesSilently(x, y)
  {
    hide Plus, RegisterByte, After, Effective;
    forall i | 0 < i <= |y|
      ensures After(y, i) == if i <= |x| then After(x, i) else 0
    {
      SameRegister(password, x, y, i - 1);
    }
    var front := y[..|x|];
    forall i | 0 < i <= |x|
      ensures After(x, i) == After(front, i)
    {
      AfterFront(y, |x|, i);
    }
    SameStatesSameBytes(x, front, |x|);
    assert x[..|x|] == x && front[..|x|] == front;
  }

  lemma AfterFront(data: Octets, n: nat, i: nat)
    requires i <= n <= |data|
    ensures After(data[..n], i) == After(data, i)
  {
    hide Step;
    assert data[..n][..i] == data[..i];
  }

  /** The registers that two keyfiles of the same effect leave in one slot. */
  lemma SameRegister(password: Octets, x: Octets, y: Octets, i: nat)
    requires x != [] && |x| <= |y| && 4 * |y| <= PoolSize(|password|) && i < |y|
    requires Effective(password, [x]) == Effective(password, [y])
    ensures After(y, i + 1) == if i < |x| then After(x, i + 1) else 0
  {
    hide Plus, After, Effective, Shares;
    var size := PoolSize(|password|);
    var r := if i < |x| then After(x, i + 1) else 0;
    forall k: nat | k < 4
      ensures RegisterByte(After(y, i + 1), k) == RegisterByte(r, k)
    {
      SameShare(password, x, y, 4 * i + k);
      SharesOf(x, i, k, size);
      SharesOf(y, i, k, size);
      ZeroBytes(k);
    }
    RegisterBytesDetermine(After(y, i + 1), r);
  }

  lemma ZeroBytes(k: nat)
    requires k < 4
    ensures RegisterByte(0, k) == 0
  {
  }

  lemma SameShare(password: Octets, x: Octets, y: Octets, j: nat)
    requires x != [] && 4 * |x| <= PoolSize(|password|) && y != [] && 4 * |y| <= PoolSize(|password|)
    requires j < PoolSize(|password|)
    requires Effective(password, [x]) == Effective(password, [y])
    ensures Shares(x, |x|, j, PoolSize(|password|)) == Shares(y, |y|, j, PoolSize(|password|))
  {
    hide Plus, Shares;
    var n, size := EffectiveLength(password), PoolSize(|password|);
    assert Mix(password, [x], n)[j] == Mix(password, [y], n)[j];
    PoolOfOne(x, j, size);
    PoolOfOne(y, j, size);
    PlusIsAGroup(Padded(password, j), Total(x, j, size), Total(y, j, size));
  }

  lemma PoolOfOne(x: Octets, j: nat, size: nat)
    requires size >= 4
    ensures PoolAt([x], j, size) == Total(x, j, size)
  {
    hide Plus, Total;
    assert [x][..0] == [];
    PlusIsAGroup(Total(x, j, size), 0, 0);
  }

  lemma ContinuingChangesNothing(password: Octets, x: Octets, y: Octets)
    requires x != [] && |x| <= |y| && 4 * |y| <= PoolSize(|password|)
    requires ContinuesSilently(x, y)
    ensures Effective(password, [x]) == Effective(password, [y])
  {
    hide Plus, After, Total;
    var n, size := EffectiveLength(password), PoolSize(|password|);
    forall j | 0 <= j < n
      ensures Mix(password, [x], n)[j] == Mix(password, [y], n)[j]
    {
      if j < size {
        ContinuingAddsNothing(x, y, j, size);
        PoolOfOne(x, j, size);
        PoolOfOne(y, j, size);
      }
    }
    assert Mix(password, [x], n) == Mix(password, [y], n);
  }

  lemma ContinuingAddsNothing(x: Octets, y: Octets, j: nat, size: nat)
    requires x != [] && |x| <= |y| && 4 * |y| <= size && size % 4 == 0 && size <= KEYFILE_POOL_SIZE && j < size
    requires ContinuesSilently(x, y)
    ensures Total(x, j, size) == Total(y, j, size)
  {
    hide Plus, After, Shares;
    var i, k := j / 4, j % 4;
    SharesOf(x, i, k, size);
    SharesOf(y, i, k, size);
    ZeroBytes(k);
    if i < |x| {
      AfterFront(y, |x|, i + 1);
    }
  }

  /** A single keyfile that fits the pool in one round is told from every other of its length. */
  lemma KeyfilesDistinguished(password: Octets, x: Octets, y: Octets)
    requires |x| == |y| && x != [] && 4 * |x| <= PoolSize(|password|)
    ensures Effective(password, [x]) == Effective(password, [y]) <==> x == y
  {
    KeyfilesDistinguishedExactly(password, x, y);
    assert x[..|x|] == x && y[..|y|] == y;
  }

  lemma {:induction false} SameStatesSameBytes(x: Octets, y: Octets, n: nat)
    requires n <= |x| == |y|
    requires forall i :: 0 < i <= |x| ==> After(x, i) == After(y, i)
    ensures x[..n] == y[..n]
    decreases n
  {
    hide After, Step;
    if n > 0 {
      SameStatesSameBytes(x, y, n - 1);
      AfterSteps(x);
      AfterSteps(y);
      assert After(x, n) == After(y, n) && After(x, n - 1) == After(y, n - 1);
      StepInjective(After(x, n - 1), x[n - 1], y[n - 1]);
      assert x[..n] == x[..n - 1] + [x[n - 1]] && y[..n] == y[..n - 1] + [y[n - 1]];
    }
  }

  // Different lengths can collide.

  lemma ZeroStaysZero()
    ensures Step(0, 0) == 0
  {
    assert Xor(0, Word(0)) == 0 && LowByte(0) == 0 && DropByte(0) == 0 && Word(0) == 0;
    ZeroShifts(8);
  }

  /** Once the register is zero, a zero byte appended to a keyfile of any size changes nothing. */
  lemma AppendedZeroIsLost(password: Octets, x: Octets)
    requires x != [] && |x| < KEYFILE_MAX_READ_LEN && After(x, |x|) == 0
    ensures Effective(password, [x]) == Effective(password, [x + [0]])
  {
    hide Plus, After, Total;
    var y, n, size := x + [0], EffectiveLength(password), PoolSize(|password|);
    forall j | 0 <= j < n
      ensures Mix(password, [x], n)[j] == Mix(password, [y], n)[j]
    {
      if j < size {
        ZeroAddsNothing(x, j, size);
        PoolOfOne(x, j, size);
        PoolOfOne(y, j, size);
      }
    }
    assert Mix(password, [x], n) == Mix(password, [y], n);
  }

  lemma ZeroAddsNothing(x: Octets, j: nat, size: nat)
    requires |x| < KEYFILE_MAX_READ_LEN && After(x, |x|) == 0 && size >= 4
    ensures Total(x, j, size) == Total(x + [0], j, size)
  {
    hide Plus, RegisterByte, Step, After, SlotOf;
    var y, n := x + [0], |x|;
    SameSharesInFront(x, y, n, j, size);
    assert y[..n] == x && x[..n] == x;
    AfterFront(y, n, n);
    AfterSteps(y);
    ZeroStaysZero();
    ZeroBytes(0);
    ZeroBytes(1);
    ZeroBytes(2);
    ZeroBytes(3);
    PlusIsAGroup(Shares(y, n, j, size), 0, 0);
  }

  lemma {:induction false} SameSharesInFront(x: Octets, y: Octets, n: nat, j: nat, size: nat)
    requires n <= |x| <= |y| && y[..|x|] == x && size >= 4
    ensures Shares(x, n, j, size) == Shares(y, n, j, size)
    decreases n
  {
    hide Plus, RegisterByte, After, SlotOf;
    if n > 0 {
      SameSharesInFront(x, y, n - 1, j, size);
      AfterFront(y, |x|, n);
    }
  }

  const FOUR: Octets := [0xFF, 0xFF, 0xFF, 0xFF]

  lemma FourClearTheRegister()
    ensures After(FOUR, 4) == 0
  {
    hide Step;
    AfterSteps(FOUR);
    OnesShift(INITIAL_CRC);
    OnesShift(0xFF_FFFF);
    OnesShift(0xFFFF);
    OnesShift(0xFF);
    assert DropByte(INITIAL_CRC) == 0xFF_FFFF && DropByte(0xFF_FFFF) == 0xFFFF && DropByte(0xFFFF) == 0xFF;
    assert DropByte(0xFF) == 0;
    assert After(FOUR, 1) == 0xFF_FFFF;
    assert After(FOUR, 2) == 0xFFFF;
    assert After(FOUR, 3) == 0xFF;
  }

  /** A byte equal to the low byte of the register shifts it out. */
  lemma OnesShift(crc: bv32)
    requires crc & 0xFF == 0xFF
    ensures Step(crc, 0xFF) == DropByte(crc)
  {
    assert LowByte(Xor(crc, Word(0xFF))) == 0;
    assert Word(0) == 0;
    ZeroShifts(8);
  }

  /** So two keyfiles of different lengths have the same effect under every password. */
  lemma KeyfilesCanCollide(password: Octets)
    ensures FOUR != FOUR + [0] && Effective(password, [FOUR]) == Effective(password, [FOUR + [0]])
  {
    hide Effective, After;
    FourClearTheRegister();
    AppendedZeroIsLost(password, FOUR);
  }

  // Generating a keyfile.

  /** A hash of octets. */
  type Hash = Octets -> Octets

  function Xor8(x: bv8, y: bv8): bv8 {
    x ^ y
  }

  /** A 32-bit counter, most significant byte first. */
  function CounterBytes(n: nat): Octets {
    [((n / 0x100_0000) % 0x100) as bv8, ((n / 0x1_0000) % 0x100) as bv8, ((n / 0x100) % 0x100) as bv8,
      (n % 0x100) as bv8]
  }

  /** The counter is written with its least significant octet last. */
  lemma CounterShifts(q: nat, r: nat)
    requires q < 0x100_0000 && r < 0x100
    ensures CounterBytes(0) == [0, 0, 0, 0]
    ensures CounterBytes(0x100 * q + r) == CounterBytes(q)[1..] + [r as bv8]
  {
    var n := 0x100 * q + r;
    assert n % 0x100 == r && n / 0x100 == q;
    assert n / 0x1_0000 == q / 0x100 && n / 0x100_0000 == q / 0x1_0000;
  }

  const BLOCK: nat := 32

  /** Byte i of the stream that a digest expands to. */
  function StreamAt(hash: Hash, digest: Octets, i: nat): bv8 {
    var block := hash(digest + CounterBytes(i / BLOCK));
    if i % BLOCK < |block| then block[i % BLOCK] else 0
  }

  /** Some octets with the stream folded in. */
  function Folded(hash: Hash, digest: Octets, data: Octets, n: nat): (r: Octets)
    requires n <= |data|
    ensures |r| == n
    ensures forall i :: 0 <= i < n ==> r[i] == Xor8(data[i], StreamAt(hash, digest, i))
  {
    if n == 0 then [] else Folded(hash, digest, data, n - 1) + [Xor8(data[n - 1], StreamAt(hash, digest, n - 1))]
  }

  lemma StreamIs(hash: Hash, digest: Octets)
    requires forall x: Octets :: |hash(x)| == BLOCK
    ensures forall i: nat :: StreamAt(hash, digest, i) == hash(digest + CounterBytes(i / 32))[i % 32]
  {
    hide CounterBytes;
  }

  /** Random octets, with collected entropy folded in block by block. */
  method GenerateKeyfile(hash: Hash, domain: Octets, random: Octets, entropy: Octets) returns (r: Option<Octets>)
    requires forall x: Octets :: |hash(x)| == BLOCK
    ensures r.Some? <==> 1 <= |random| <= 1_048_576
    ensures r.Some? ==>
              r.value == if entropy == [] then random else Folded(hash, hash(domain + entropy), random, |random|)
    ensures r.Some? && entropy != [] ==>
              && |r.value| == |random|
              && forall i :: 0 <= i < |random| ==>
                   r.value[i] == Xor8(random[i], hash(hash(domain + entropy) + CounterBytes(i / 32))[i % 32])
  {
    hide Xor8, StreamAt;
    if |random| == 0 || |random| > KEYFILE_MAX_READ_LEN {
      return None;
    }
    var output := new bv8[|random|](i requires 0 <= i < |random| => random[i]);
    assert output[..] == random;
    if entropy != [] {
      var digest := hash(domain + entropy);
      var block, offset := 0, 0;
      while offset < output.Length
        invariant offset == block * BLOCK || offset == output.Length
        invariant offset <= output.Length
        invariant forall i :: 0 <= i < offset ==> output[i] == Xor8(random[i], StreamAt(hash, digest, i))
        invariant forall i :: offset <= i < output.Length ==> output[i] == random[i]
      {
        var toMix := if output.Length - offset < BLOCK then output.Length - offset else BLOCK;
        FoldBlock(hash, digest, output, block, toMix);
        offset := offset + toMix;
        block := block + 1;
      }
      assert output[..] == Folded(hash, digest, random, |random|);
      StreamIs(hash, digest);
    }
    r := Some(output[..]);
  }

  /** An octet, with the stream folded in when its position lies in this stretch. */
  function FoldedWithin(hash: Hash, digest: Octets, from: nat, to: nat, x: bv8, i: nat): bv8 {
    if from <= i < to then Xor8(x, StreamAt(hash, digest, i)) else x
  }

  /** Folds one block of the stream in. */
  method FoldBlock(hash: Hash, digest: Octets, output: array<bv8>, block: nat, toMix: nat)
    requires forall x: Octets :: |hash(x)| == BLOCK
    requires toMix <= BLOCK && block * BLOCK + toMix <= output.Length
    modifies output
    ensures forall i :: 0 <= i < output.Length ==>
              output[i] == FoldedWithin(hash, digest, block * BLOCK, block * BLOCK + toMix, old(output[i]), i)
  {
    hide Xor8;
    var blk := hash(digest + CounterBytes(block));
    var i := 0;
    while i < toMix
      invariant i <= toMix
      invariant forall k :: 0 <= k < output.Length ==>
                  output[k] == FoldedWithin(hash, digest, block * BLOCK, block * BLOCK + i, old(output[k]), k)
    {
      assert (block * BLOCK + i) / BLOCK == block && (block * BLOCK + i) % BLOCK == i;
      output[block * BLOCK + i] := Xor8(output[block * BLOCK + i], blk[i]);
      i := i + 1;
    }
  }

  lemma Xor8Cancels(x: bv8, y: bv8)
    ensures Xor8(Xor8(x, y), y) == x
  {
  }

  /** Folding loses no randomness: folding the same entropy in again gives the random octets back. */
  lemma FoldingIsReversible(hash: Hash, digest: Octets, random: Octets)
    ensures Folded(hash, digest, Folded(hash, digest, random, |random|), |random|) == random
  {
    hide Xor8, StreamAt;
    var once := Folded(hash, digest, random, |random|);
    forall i | 0 <= i < |random|
      ensures Folded(hash, digest, once, |random|)[i] == random[i]
    {
      Xor8Cancels(random[i], StreamAt(hash, digest, i));
    }
  }
}
