/**
 * Shared vocabulary of the block-snapshot module model: Linux error numbers,
 * the sector and page geometry, 64-bit unsigned arithmetic, Option/Result
 * wrappers and powers of two.
 */
module Kernel {

  // Linux error numbers; the module returns them negated.
  const SUCCESS: int := 0
  const ENOENT: int := 2
  const ESRCH: int := 3
  const EINTR: int := 4
  const ENOMEM: int := 12
  const EFAULT: int := 14
  const EBUSY: int := 16
  const ENODEV: int := 19
  const EINVAL: int := 22
  const ENODATA: int := 61
  const ENOBUFS: int := 105
  const EALREADY: int := 114
  /** The kernel-internal "restart the system call" code a signal-interrupted wait returns. */
  const ERESTARTSYS: int := 512

  const SECTOR_SHIFT: nat := 9
  const SECTOR_SIZE: nat := 512
  /** The page geometry of the 4 KiB-page architectures. */
  const PAGE_SHIFT: nat := 12
  const PAGE_SIZE: nat := 4096
  /** Sectors in one page: 1 << (PAGE_SHIFT - SECTOR_SHIFT). */
  const SECTOR_IN_PAGE: nat := 8

  /** 2^64: the modulus of sector_t, size_t and u64 arithmetic. */
  const U64: nat := 0x1_0000_0000_0000_0000

  type Byte = x: int | 0 <= x < 256
  type U64Val = x: nat | x < U64

  datatype Option<T> = None | Some(value: T)
  datatype Result<T> = Ok(value: T) | Err(code: int)

  /**
   * The list walks with list_for_each_entry that stop at the first entry
   * whose key matches: the index of that entry, or None when there is none.
   */
  function FindFirst<T>(s: seq<T>, key: T -> nat, k: nat): (r: Option<nat>)
    ensures r.Some? ==> r.value < |s| && key(s[r.value]) == k && forall j :: 0 <= j < r.value ==> key(s[j]) != k
    ensures r.None? ==> forall j :: 0 <= j < |s| ==> key(s[j]) != k
    decreases |s|
  {
    if s == [] then None
    else if key(s[0]) == k then Some(0)
    else
      var r := FindFirst(s[1..], key, k);
      if r.Some? then Some(r.value + 1) else None
  }

  /** A range of sectors as the control interface passes it. */
  datatype SectorRange = SectorRange(sectorOffset: U64Val, sectorCount: U64Val)

  function Min(a: int, b: int): int { if a <= b then a else b }
  function Max(a: int, b: int): int { if a >= b then a else b }

  function Pow2(n: nat): (r: nat)
    ensures r >= 1
  {
    if n == 0 then 1 else 2 * Pow2(n - 1)
  }

  /** Powers of two grow strictly with the exponent. */
  lemma {:induction false} Pow2Strict(a: nat, b: nat)
    requires a < b
    ensures Pow2(a) < Pow2(b)
  {
    if b == a + 1 {
    } else {
      Pow2Strict(a, b - 1);
    }
  }

  /** Division of naturals, kept apart from its divisor's definition so the solver sees a plain positive divisor. */
  function Div(n: nat, d: nat): nat
    requires d >= 1
  {
    n / d
  }

  /** Rounded-up division: the number of d-sized blocks that cover n. */
  function CeilDiv(n: nat, d: nat): (r: nat)
    requires d >= 1
    ensures r * d >= n
    ensures (r - 1) * d < n
  {
    var q := (n + d - 1) / d;
    var m := (n + d - 1) % d;
    assert n + d - 1 == q * d + m;
    assert (q - 1) * d == q * d - d;
    q
  }

  /** i <= n / d exactly when i blocks of d fit below n. */
  lemma DivLowerBound(n: nat, d: nat, i: nat)
    requires d > 0
    ensures i <= n / d <==> i * d <= n
  {
    var q, r := n / d, n % d;
    assert n == q * d + r && 0 <= r < d;
    if i <= q {
      assert i * d <= q * d;
    } else {
      assert i >= q + 1;
      assert i * d >= (q + 1) * d == q * d + d;
    }
  }

  /** n / d <= i exactly when n lies below block i + 1. */
  lemma DivUpperBound(n: nat, d: nat, i: nat)
    requires d > 0
    ensures n / d <= i <==> n < (i + 1) * d
  {
    DivLowerBound(n, d, i + 1);
  }
}
