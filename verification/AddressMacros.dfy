/** The address macros of the virtual memory manager, with the bit operations of C on unsigned numbers. */
module AddressMacros {
  import opened Modulo
  import opened Paging

  /** `x & y` on unsigned numbers, bit by bit. */
  function BitAnd(x: nat, y: nat): nat {
    if x == 0 || y == 0 then 0 else 2 * BitAnd(x / 2, y / 2) + (if x % 2 == 1 && y % 2 == 1 then 1 else 0)
  }

  /** `x | y` */
  function BitOr(x: nat, y: nat): nat {
    if x == 0 then y else if y == 0 then x
    else 2 * BitOr(x / 2, y / 2) + (if x % 2 == 1 || y % 2 == 1 then 1 else 0)
  }

  /** `x << k`, before it is cut to 32 bits */
  function ShiftLeft(x: nat, k: nat): nat {
    if k == 0 then x else 2 * ShiftLeft(x, k - 1)
  }

  /** `x >> k` */
  function ShiftRight(x: nat, k: nat): nat {
    if k == 0 then x else ShiftRight(x / 2, k - 1)
  }

  lemma EvenMask(x: nat, m: nat)
    ensures BitAnd(x, 2 * m) == 2 * BitAnd(x / 2, m)
  {
  }

  lemma OddMask(x: nat, m: nat)
    ensures BitAnd(x, 2 * m + 1) == 2 * BitAnd(x / 2, m) + x % 2
  {
  }

  /** A mask that ends in `k` zeros works on the bits above them. */
  lemma {:induction false} HighBits(x: nat, m: nat, k: nat)
    ensures BitAnd(x, ShiftLeft(m, k)) == ShiftLeft(BitAnd(ShiftRight(x, k), m), k)
  {
    if k > 0 {
      HighBits(x / 2, m, k - 1);
      EvenMask(x, ShiftLeft(m, k - 1));
    }
  }

  lemma {:induction false} RemainderOfHalf(x: nat, q: nat)
    requires q > 0
    ensures x % (2 * q) == 2 * (x / 2 % q) + x % 2
  {
    var d, r := x / 2 / q, x / 2 % q;
    assert x / 2 == q * d + r;
    assert x == (2 * q) * d + (2 * r + x % 2);
    ModUnique(x, 2 * q, d, 2 * r + x % 2);
  }

  /** 1 << k */
  function Power(k: nat): (p: nat)
    ensures p > 0
  {
    if k == 0 then 1 else 2 * Power(k - 1)
  }

  lemma {:induction false} LowBit(x: nat, p: nat)
    requires p > 0 && BitAnd(x / 2, p - 1) == x / 2 % p
    ensures BitAnd(x, 2 * p - 1) == x % (2 * p)
  {
    OddMask(x, p - 1);
    RemainderOfHalf(x, p);
  }

  /** A mask of `k` ones keeps the lowest `k` bits. */
  lemma {:induction false} LowBits(x: nat, k: nat)
    ensures BitAnd(x, Power(k) - 1) == x % Power(k)
  {
    if k == 0 {
      assert x % 1 == 0;
    } else {
      LowBits(x / 2, k - 1);
      LowBit(x, Power(k - 1));
    }
  }

  lemma {:induction false} Power8()
    ensures Power(8) == 0x100
  {
    assert Power(2) == 4 && Power(4) == 16 && Power(6) == 64;
  }

  lemma RightTwice(x: nat, k: nat)
    ensures ShiftRight(x, k + 2) == ShiftRight(x / 4, k)
  {
  }

  lemma {:induction false} EightRight(x: nat)
    ensures ShiftRight(x, 8) == x / 0x100
  {
    RightTwice(x, 6);
    RightTwice(x / 4, 4);
    RightTwice(x / 16, 2);
    RightTwice(x / 64, 0);
  }

  lemma LeftTwice(x: nat, k: nat)
    ensures ShiftLeft(x, k + 2) == 4 * ShiftLeft(x, k)
  {
  }

  lemma {:induction false} EightLeft(x: nat, k: nat)
    ensures ShiftLeft(x, k + 8) == 0x100 * ShiftLeft(x, k)
  {
    LeftTwice(x, k);
    LeftTwice(x, k + 2);
    LeftTwice(x, k + 4);
    LeftTwice(x, k + 6);
  }

  /** A shifted number and one that fits below it do not share a bit. */
  lemma {:induction false} OrAdds(x: nat, y: nat, k: nat)
    requires y < ShiftLeft(1, k)
    ensures BitOr(ShiftLeft(x, k), y) == ShiftLeft(x, k) + y
  {
    if k > 0 { OrAdds(x, y / 2, k - 1); }
  }

  /** GET_PAGE_NUMBER */
  lemma {:induction false} PageMacro(address: nat)
    ensures ShiftRight(BitAnd(address, 0xFF00), 8) == PageOf(address)
  {
    EightLeft(0xFF, 0);
    HighBits(address, 0xFF, 8);
    EightRight(address);
    Power8();
    LowBits(address / PAGE_SIZE, 8);
    EightLeft(PageOf(address), 0);
    EightRight(PageOf(address) * PAGE_SIZE);
  }

  /** GET_OFFSET */
  lemma {:induction false} OffsetMacro(address: nat)
    ensures BitAnd(address, 0xFF) == OffsetOf(address)
  {
    Power8();
    LowBits(address, 8);
  }

  /** GET_PHYSICAL_ADDRESS, when it fits into 32 bits */
  lemma {:induction false} PhysicalMacro(frame: nat, offset: nat)
    requires frame < 0x100_0000 && offset < PAGE_SIZE
    ensures BitOr(ShiftLeft(frame, 8) % WRAP, offset) == frame * PAGE_SIZE + offset < WRAP
  {
    EightLeft(frame, 0);
    EightLeft(1, 0);
    OrAdds(frame, offset, 8);
  }

  /** The masks and shifts of the macros compute page, offset and physical address. */
  lemma {:induction false} MacrosAgree(address: nat, frame: nat)
    ensures ShiftLeft(1, 16) - ShiftLeft(1, 8) == 0xFF00 && ShiftLeft(1, 8) - 1 == 0xFF
    ensures ShiftRight(BitAnd(address, 0xFF00), 8) == PageOf(address)
    ensures BitAnd(address, 0xFF) == OffsetOf(address)
    ensures frame < 0x100_0000 ==>
      BitOr(ShiftLeft(frame, 8) % WRAP, OffsetOf(address)) == frame * PAGE_SIZE + OffsetOf(address) < WRAP
  {
    EightLeft(1, 0);
    EightLeft(1, 8);
    PageMacro(address);
    OffsetMacro(address);
    if frame < 0x100_0000 { PhysicalMacro(frame, OffsetOf(address)); }
  }
}
