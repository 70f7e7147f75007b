/** The chunk fingerprint of internal/pkg/rolling: a weighted sum of the
    bytes, Σ data[i]·2^i, computed in wrapping uint64 arithmetic, and the
    attempted inverse FromRollingHash. */
module Rolling {
  import opened Common

  function Pow2(i: nat): (p: nat)
    ensures p >= 1
  {
    if i == 0 then 1 else 2 * Pow2(i - 1)
  }

  /** Σ data[i]·2^i over the integers, with no wrap-around. */
  function WeightedSum(data: seq<byte>): int
  {
    if data == [] then 0
    else WeightedSum(data[..|data| - 1]) + data[|data| - 1] as int * Pow2(|data| - 1)
  }

  /** The value Hash is meant to produce: the weighted sum reduced modulo 2^64. */
  function HashSpec(data: seq<byte>): (h: int)
    ensures 0 <= h < U64Modulus
  {
    WeightedSum(data) % U64Modulus
  }

  // ---------------------------------------------------------------------
  // Arithmetic helpers

  lemma {:induction false} Pow2Add(a: nat, b: nat)
    ensures Pow2(a + b) == Pow2(a) * Pow2(b)
  {
    if b > 0 {
      Pow2Add(a, b - 1);
      assert Pow2(a + b) == 2 * Pow2(a + b - 1);
    }
  }

  lemma Pow2Eight()
    ensures Pow2(8) == 256
  {
  }

  lemma Pow2Sixteen()
    ensures Pow2(16) == 0x1_0000
  {
    Pow2Eight();
    Pow2Add(8, 8);
  }

  lemma Pow2ThirtyTwo()
    ensures Pow2(32) == 0x1_0000_0000
  {
    Pow2Sixteen();
    Pow2Add(16, 16);
  }

  lemma Pow2Values()
    ensures Pow2(8) == 256 && Pow2(56) == 0x100_0000_0000_0000 && Pow2(64) == U64Modulus
  {
    Pow2Eight();
    Pow2Sixteen();
    Pow2ThirtyTwo();
    Pow2Add(32, 16);
    Pow2Add(48, 8);
    Pow2Add(32, 32);
  }

  lemma {:induction false} Pow2Monotonic(a: nat, b: nat)
    requires a <= b
    ensures Pow2(a) <= Pow2(b)
  {
    if a < b {
      Pow2Monotonic(a, b - 1);
    }
  }

  lemma ModMultiple(k: int, r: int)
    ensures (k * U64Modulus + r) % U64Modulus == r % U64Modulus
  {
  }

  lemma ModAddLeft(a: int, b: int)
    ensures (a % U64Modulus + b) % U64Modulus == (a + b) % U64Modulus
  {
    ModMultiple(a / U64Modulus, a % U64Modulus + b);
  }

  lemma ModAddRight(a: int, b: int)
    ensures (a + b % U64Modulus) % U64Modulus == (a + b) % U64Modulus
  {
    ModAddLeft(b, a);
  }

  lemma ModMulRight(b: int, c: int)
    ensures (b * (c % U64Modulus)) % U64Modulus == (b * c) % U64Modulus
  {
    var q, r := c / U64Modulus, c % U64Modulus;
    assert c == q * U64Modulus + r;
    assert b * c == (b * q) * U64Modulus + b * r;
    ModMultiple(b * q, b * r);
  }

  /** powers[i] = powers[i-1] * 2 in uint64 is 2^i reduced modulo 2^64. */
  lemma PowerStep(i: nat)
    requires i >= 1
    ensures ((Pow2(i - 1) % U64Modulus) * 2) % U64Modulus == Pow2(i) % U64Modulus
  {
    ModMulRight(2, Pow2(i - 1));
  }

  /** One step of the accumulation loop, in uint64 arithmetic. */
  lemma HashStep(data: seq<byte>, i: nat, hash: int, power: int)
    requires i < |data|
    requires hash == WeightedSum(data[..i]) % U64Modulus
    requires power == Pow2(i) % U64Modulus
    ensures AddTerm(hash, data[i] as int, power) == WeightedSum(data[..i + 1]) % U64Modulus
  {
    var m := U64Modulus;
    var w := WeightedSum(data[..i]);
    var t := data[i] as int * Pow2(i);
    assert data[..i + 1][..i] == data[..i];
    assert WeightedSum(data[..i + 1]) == w + t;
    ModMulRight(data[i] as int, Pow2(i));
    ModAddRight(hash, data[i] as int * power);
    ModAddRight(hash, t);
    ModAddLeft(w, t);
  }

  /** Go's `hash + uint64(b) * power` on uint64 operands. */
  function AddTerm(hash: int, b: int, power: int): (r: int)
    ensures 0 <= r < U64Modulus
  {
    (hash + (b * power) % U64Modulus) % U64Modulus
  }

  // ---------------------------------------------------------------------
  // Hash

  /** rolling.Hash: fills `powers` with 2^i (wrapping), then accumulates
      data[i]·powers[i] into `hash` (wrapping). `powers[0] = 1` panics on an
      empty slice, hence the precondition. */
  method Hash(data: seq<byte>) returns (hash: u64)
    requires |data| >= 1
    ensures hash as int == HashSpec(data)
  {
    var n := |data|;
    hash := 0;
    var powers := new u64[n];
    powers[0] := 1;
    for i := 1 to n
      invariant forall k {:trigger powers[k]} :: 0 <= k < i ==> powers[k] as int == Pow2(k) % U64Modulus
    {
      PowerStep(i);
      powers[i] := ((powers[i - 1] as int * 2) % U64Modulus) as u64;
    }
    for i := 0 to n
      invariant forall k {:trigger powers[k]} :: 0 <= k < n ==> powers[k] as int == Pow2(k) % U64Modulus
      invariant hash as int == WeightedSum(data[..i]) % U64Modulus
    {
      HashStep(data, i, hash as int, powers[i] as int);
      hash := AddTerm(hash as int, data[i] as int, powers[i] as int) as u64;
    }
    assert data[..n] == data;
  }

  // ---------------------------------------------------------------------
  // Properties of the fingerprint

  /** The values of rolling_hash_test.go. */
  lemma KnownValues()
    ensures HashSpec([1]) == 1
    ensures HashSpec([1, 2]) == 5
    ensures HashSpec([255]) == 255
    ensures HashSpec([255, 254]) == 763
  {
    assert [1 as byte, 2][..1] == [1];
    assert [255 as byte, 254][..1] == [255];
  }

  lemma Distribute(p: int, a: int, x: int, q: int)
    ensures p * (a + x * q) == p * a + x * (p * q)
  {
  }

  /** The sum over a sequence is the sum over a prefix plus the weighted sum over the rest. */
  lemma {:induction false} WeightedSumSplit(s: seq<byte>, n: nat)
    requires n <= |s|
    ensures WeightedSum(s) == WeightedSum(s[..n]) + Pow2(n) * WeightedSum(s[n..])
  {
    if n == |s| {
      assert s[..n] == s;
      assert s[n..] == [];
    } else {
      var last := |s| - 1;
      var init := s[..last];
      var tail := s[n..];
      WeightedSumSplit(init, n);
      assert init[..n] == s[..n];
      assert tail[..|tail| - 1] == init[n..];
      assert tail[|tail| - 1] == s[last];
      var a := WeightedSum(init[n..]);
      var x := s[last] as int;
      var p, q := Pow2(n), Pow2(last - n);
      assert WeightedSum(tail) == a + x * q;
      assert WeightedSum(s) == WeightedSum(init) + x * Pow2(last);
      Pow2Add(n, last - n);
      assert Pow2(last) == p * q;
      Distribute(p, a, x, q);
    }
  }

  /** powers[i] wraps to 0 for i >= 64. */
  lemma PowersWrapToZero(i: nat)
    requires i >= 64
    ensures Pow2(i) % U64Modulus == 0
  {
    Pow2Values();
    Pow2Add(64, i - 64);
    ModMultiple(Pow2(i - 64), 0);
  }

  /** The hash of a sequence of 64 bytes or more is the hash of its first 64. */
  lemma HashOfFirst64(a: seq<byte>)
    requires |a| >= 64
    ensures HashSpec(a) == HashSpec(a[..64])
  {
    WeightedSumSplit(a, 64);
    Pow2Values();
    ModMultiple(WeightedSum(a[64..]), WeightedSum(a[..64]));
  }

  /** Bytes at index 64 and beyond do not affect the hash. */
  lemma HashIgnoresFrom64(a: seq<byte>, b: seq<byte>)
    requires |a| >= 64 && |b| >= 64 && a[..64] == b[..64]
    ensures HashSpec(a) == HashSpec(b)
  {
    HashOfFirst64(a);
    HashOfFirst64(b);
  }

  lemma MulBound(x: int, p: int)
    requires 0 <= x <= 255 && p >= 0
    ensures 0 <= x * p <= 255 * p
  {
  }

  lemma {:induction false} WeightedSumBound(s: seq<byte>)
    ensures 0 <= WeightedSum(s) <= 255 * (Pow2(|s|) - 1)
  {
    if s != [] {
      var n := |s|;
      WeightedSumBound(s[..n - 1]);
      MulBound(s[n - 1] as int, Pow2(n - 1));
      assert Pow2(n) == 2 * Pow2(n - 1);
    }
  }

  /** For at most 56 bytes nothing wraps: the hash is the exact sum, below 255·2^n. */
  lemma HashExactForShortData(s: seq<byte>)
    requires |s| <= 56
    ensures HashSpec(s) == WeightedSum(s)
    ensures WeightedSum(s) < 255 * Pow2(|s|)
  {
    WeightedSumBound(s);
    Pow2Monotonic(|s|, 56);
    Pow2Values();
  }

  /** Two inputs of one length with the same hash: no function of
      (hash, length) can give the data back. */
  lemma HashNotInjective()
    ensures HashSpec([2, 0]) == HashSpec([0, 1]) == 2
  {
    var a: seq<byte> := [2, 0];
    var b: seq<byte> := [0, 1];
    assert a[..1] == [2] && b[..1] == [0];
    assert WeightedSum([2]) == 2;
    assert WeightedSum([0]) == 0;
    assert WeightedSum(a) == 2;
    assert WeightedSum(b) == 2;
  }

  // ---------------------------------------------------------------------
  // FromRollingHash

  /** What FromRollingHash(h, k) produces: it peels off byte k-1 first, as
      byte(h / 2^(k-1)), subtracts its weight in uint64, and recurses. */
  function Unhash(h: int, k: nat): (data: seq<byte>)
    ensures |data| == k
    decreases k
  {
    if k == 0 then []
    else
      var power := Pow2(k - 1);
      var b := Digit(h, power);
      Unhash(Peel(h, b as int, power), k - 1) + [b]
  }

  /** Go's `byte(hash / power)`: the quotient truncated to its low 8 bits. */
  function Digit(h: int, power: int): byte
    requires power >= 1
  {
    ((h / power) % 256) as byte
  }

  /** Go's `hash -= uint64(b) * power` on uint64 operands. */
  function Peel(h: int, b: int, power: int): (r: int)
    ensures 0 <= r < U64Modulus
  {
    (h - (b * power) % U64Modulus) % U64Modulus
  }

  /** One iteration of FromRollingHash's second loop: `data[i] = byte(hash / powers[i])`
      and `hash -= uint64(data[i]) * powers[i]`. */
  method DecodeStep(h: int, i: nat, power: u64) returns (b: byte, rest: int)
    requires 0 <= h < U64Modulus && i < 64 && power as int == Pow2(i)
    ensures 0 <= rest < U64Modulus
    ensures Unhash(h, i + 1) == Unhash(rest, i) + [b]
    ensures h < 256 * Pow2(i) ==> b as int == h / Pow2(i) && rest == h % Pow2(i)
  {
    b := Digit(h, power as int);
    rest := Peel(h, b as int, power as int);
    if h < 256 * Pow2(i) {
      DigitFits(h, power as int);
    }
  }

  /** Below 256·power the digit is the whole quotient and peeling it off
      leaves the remainder. */
  lemma DigitFits(h: int, power: int)
    requires 1 <= power && 0 <= h < 256 * power && h < U64Modulus
    ensures Digit(h, power) as int == h / power
    ensures Peel(h, h / power, power) == h % power
  {
    var q, r := h / power, h % power;
    assert h == q * power + r && 0 <= q && 0 <= r < power;
    QuotientBelow(q, r, power);
    assert (q * power) % U64Modulus == q * power;
    assert (h - q * power) % U64Modulus == r;
  }

  lemma QuotientBelow(q: int, r: int, power: int)
    requires 1 <= power && 0 <= q && 0 <= r && q * power + r < 256 * power
    ensures q < 256 && 0 <= q * power
  {
    MulAtLeast(q, 0, power);
    if q >= 256 {
      MulAtLeast(q, 256, power);
    }
  }

  lemma MulAtLeast(a: int, b: int, c: int)
    requires a >= b && c >= 1
    ensures a * c >= b * c
  {
  }

  lemma Pow2BelowModulus(i: nat)
    requires i < 64
    ensures Pow2(i) < U64Modulus
  {
    Pow2Monotonic(i, 63);
    Pow2Values();
    assert Pow2(64) == 2 * Pow2(63);
  }

  /** rolling.FromRollingHash: fills `powers` as Hash does, then fills
      `data` from the last index down. It needs 1 <= n: `powers[0]` panics
      on n = 0; and n <= 64: for n > 64 the first division is by
      powers[n-1] = 0. */
  method FromRollingHash(hash: u64, n: int) returns (data: seq<byte>)
    requires 1 <= n <= 64
    ensures |data| == n
    ensures data == Unhash(hash as int, n)
  {
    var out := new byte[n];
    var powers := new u64[n];
    powers[0] := 1;
    for i := 1 to n
      invariant forall k {:trigger powers[k]} :: 0 <= k < i ==> powers[k] as int == Pow2(k)
    {
      Pow2BelowModulus(i);
      powers[i] := (powers[i - 1] as int * 2) as u64;
    }
    var h := hash as int;
    for i := n downto 0
      invariant forall k {:trigger powers[k]} :: 0 <= k < n ==> powers[k] as int == Pow2(k)
      invariant 0 <= h < U64Modulus
      invariant Unhash(h, i) + out[i..] == Unhash(hash as int, n)
    {
      ghost var done := out[i + 1..];
      var b, rest := DecodeStep(h, i, powers[i]);
      out[i] := b;
      assert out[i..] == [b] + done;
      h := rest;
    }
    data := out[..];
  }

  /** FromRollingHash is not the inverse of Hash: [255, 254] hashes to 763,
      which decodes to [1, 125]. */
  lemma FromRollingHashIsNotInverse()
    ensures HashSpec([255, 254]) == 763
    ensures Unhash(763, 2) == [1, 125]
  {
    KnownValues();
    assert Digit(763, 2) == 125 && Peel(763, 125, 2) == 513;
    assert Digit(513, 1) == 1 && Peel(513, 1, 1) == 512;
    assert Unhash(512, 0) == [];
    assert Unhash(513, 1) == [1];
  }
}
