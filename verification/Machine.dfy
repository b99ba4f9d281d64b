// The 32-bit machine the kernel is compiled for: wrap-around arithmetic, and the
// bit numbering of the page-frame bitmap (bit 0 of a word is its most significant bit).
module Machine {

  const FOUR_KB: nat := 0x1000
  const FOUR_MB: nat := 0x40_0000
  // Number of page frames (and of virtual pages) in a 32-bit address space.
  const PAGES: nat := 0x10_0000

  type u32 = x: int | 0 <= x < 0x1_0000_0000

  function Wrap(x: int): (r: u32)
  {
    x % 0x1_0000_0000
  }

  function AlignUp(n: u32, a: u32): (r: u32)
    requires a > 0
  {
    var m := n % a;
    if m == 0 then n else Wrap(n + (a - m))
  }

  function AlignDown(n: u32, a: u32): (r: u32)
    requires a > 0
  {
    n - n % a
  }

  // (num - 1) / den + 1, where num - 1 wraps to the largest word for num == 0.
  function DivCeil(num: u32, den: u32): (r: u32)
    requires den > 0
  {
    Wrap(Wrap(num - 1) / den + 1)
  }

  // Number of pages that cover n bytes.
  function PageCount(n: u32): (r: nat)
  {
    AlignUp(n, 0x1000) / 0x1000
  }

  // Rounding up to a page is the least multiple of the page size that is not below n,
  // except in the last page of the address space, where it wraps to 0.
  lemma AlignUpPage(n: u32)
    ensures AlignUp(n, 0x1000) % 0x1000 == 0
    ensures n <= 0xFFFF_F000 ==> n <= AlignUp(n, 0x1000) < n + 0x1000
    ensures n > 0xFFFF_F000 ==> AlignUp(n, 0x1000) == 0
    ensures AlignUp(n, 0x1000) == PageCount(n) * 0x1000
  {
  }

  // For the divisors the kernel uses, rounding division is the exact ceiling unless the
  // dividend is 0, which borrows through the whole word.
  lemma DivCeilExact(num: u32)
    ensures DivCeil(num, 8) == if num > 0 then (num + 7) / 8 else 0x2000_0000
    ensures DivCeil(num, 32) == if num > 0 then (num + 31) / 32 else 0x0800_0000
    ensures DivCeil(num, 0x1000) == if num > 0 then (num + 0xFFF) / 0x1000 else 0x10_0000
  {
    if num > 0 {
      assert Wrap(num - 1) == num - 1;
    } else {
      assert Wrap(num - 1) == 0xFFFF_FFFF;
    }
  }

  // Bit j of a bitmap word, numbered from the most significant bit.
  predicate BitSet(w: bv32, j: nat)
    requires j < 32
  {
    (w >> (31 - j)) & 1 == 1
  }

  function BitMask(j: nat): bv32
    requires j < 32
  {
    (1 as bv32) << (31 - j)
  }

  lemma ToggleShifted(w: bv32, a: bv32, b: bv32)
    requires a < 32 && b < 32
    ensures ((w ^ ((1 as bv32) << a)) >> b) & 1 == (if a == b then 1 - ((w >> b) & 1) else (w >> b) & 1)
  {
  }

  // Exclusive or with the mask of bit j flips bit j and no other bit.
  lemma ToggleMask(w: bv32, j: nat, k: nat)
    requires j < 32 && k < 32
    ensures BitSet(w ^ BitMask(j), k) == (if j == k then !BitSet(w, k) else BitSet(w, k))
  {
    ToggleShifted(w, (31 - j) as bv32, (31 - k) as bv32);
  }

  lemma ZeroHasNoBits(k: nat)
    requires k < 32
    ensures !BitSet(0, k)
  {
  }
}
