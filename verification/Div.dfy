/** 64-by-32-bit division of arch/x86/include/arch/div.h. */
module Div {
  import opened Arith

  const U32 := 0x1_0000_0000
  /** A uint64_t that a function modifies through a pointer. */
  class Word64 {
    var value: nat

    constructor (v: nat)
      ensures value == v
    {
      value := v;
    }
  }

  /** The divl instruction: edx:eax by a 32-bit divisor.  It faults unless the
      quotient fits in eax, which is what the precondition rules out. */
  method DivL(eax: nat, edx: nat, divisor: nat) returns (quotient: nat, remainder: nat)
    requires eax < U32 && edx < U32 && 0 < divisor < U32
    requires edx < divisor
    ensures edx * U32 + eax == quotient * divisor + remainder
    ensures quotient < U32 && remainder < divisor
  {
    var n := edx * U32 + eax;
    quotient, remainder := n / divisor, n % divisor;
    DivModIdentity(n, divisor);
    assert n < divisor * U32;
    assert quotient * divisor <= n;
    MulOrder(quotient, U32, divisor);
  }

  /** The 64-bit build. */
  method DivMod64Long(dividend: Word64, divisor: nat) returns (mod: nat)
    requires dividend.value < U64 && 0 < divisor < U32
    modifies dividend
    ensures dividend.value == old(dividend.value) / divisor
    ensures mod == old(dividend.value) % divisor
  {
    mod := dividend.value % divisor;
    dividend.value := dividend.value / divisor;
  }

  /** The 32-bit build: two narrow divisions, which agree with the wide one. */
  method DivMod64Split(dividend: Word64, divisor: nat) returns (mod: nat)
    requires dividend.value < U64 && 0 < divisor < U32
    modifies dividend
    ensures dividend.value == old(dividend.value) / divisor
    ensures mod == old(dividend.value) % divisor
  {
    ghost var n := dividend.value;
    var high, low, umod := dividend.value / U32, dividend.value % U32, 0;
    ghost var h := high;
    if high != 0 {
      umod := high % divisor;
      high := high / divisor;
    }
    DivModIdentity(h, divisor);
    var quotient;
    quotient, mod := DivL(low, umod, divisor);
    dividend.value := high * U32 + quotient;
    SplitDivision(n, h, low, divisor, high, umod, quotient, mod);
  }

  /** Schoolbook division: the remainder of the upper half is carried into the lower. */
  lemma SplitDivision(n: nat, h: nat, low: nat, divisor: nat, high: nat, umod: nat, quotient: nat, mod: nat)
    requires divisor > 0 && mod < divisor
    requires n == h * U32 + low
    requires h == high * divisor + umod
    requires umod * U32 + low == quotient * divisor + mod
    ensures n / divisor == high * U32 + quotient && n % divisor == mod
  {
    assert n == (high * U32 + quotient) * divisor + mod;
    DivModUnique(n, divisor, high * U32 + quotient, mod);
  }
}
