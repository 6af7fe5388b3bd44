/** 64-bit words, six-limb field elements and the word operations they are built from. */
module BlsLimbs {
  import opened Arithmetic

  // ----- word operations -----

  function Add64(x: U64, y: U64, carry: nat): (r: (U64, nat))
    requires carry <= 1
    ensures r.0 + 0x1_0000_0000_0000_0000 * r.1 == x + y + carry && r.1 <= 1
  {
    var s := x + y + carry;
    if s < 0x1_0000_0000_0000_0000 then (s, 0) else (s - 0x1_0000_0000_0000_0000, 1)
  }

  function Sub64(x: U64, y: U64, borrow: nat): (r: (U64, nat))
    requires borrow <= 1
    ensures r.0 - 0x1_0000_0000_0000_0000 * r.1 == x - y - borrow && r.1 <= 1
  {
    var d := x - y - borrow;
    if d >= 0 then (d, 0) else (d + 0x1_0000_0000_0000_0000, 1)
  }

  /** A product, named so that proofs about carries can treat it as a unit. */
  function Prod(x: nat, y: nat): nat { x * y }

  lemma ProductBound(x: nat, y: nat, b: nat)
    requires x < b && y < b
    ensures x * y <= (b - 1) * (b - 1) && x * y >= 0
  {
    ProductGrows(y, b - 1, x);
    ProductGrows(x, b - 1, b - 1);
  }

  /** High and low word of a product. */
  function Mul64(x: U64, y: U64): (r: (U64, U64))
    ensures 0x1_0000_0000_0000_0000 * r.0 + r.1 == x * y
    ensures r.0 <= 0x1_0000_0000_0000_0000 - 2
  {
    ProductBound(x, y, 0x1_0000_0000_0000_0000);
    var p := x * y;
    (p / 0x1_0000_0000_0000_0000, p % 0x1_0000_0000_0000_0000)
  }

  // ----- multiply-and-add helpers: high word first -----

  /** a*b + c; never overflows two words. */
  function Madd1(a: U64, b: U64, c: U64): (r: (U64, U64))
    ensures 0x1_0000_0000_0000_0000 * r.0 + r.1 == Prod(a, b) + c
  {
    var (hi, lo) := Mul64(a, b);
    var (lo', carry) := Add64(lo, c, 0);
    (Add64(hi, 0, carry).0, lo')
  }

  /** The high word of a*b + c. */
  function Madd0(a: U64, b: U64, c: U64): (hi: U64)
    ensures hi == Madd1(a, b, c).0
  {
    var (hi, lo) := Mul64(a, b);
    var (_, carry) := Add64(lo, c, 0);
    Add64(hi, 0, carry).0
  }

  /** a*b + c + d; never overflows two words. */
  function Madd2(a: U64, b: U64, c: U64, d: U64): (r: (U64, U64))
    ensures 0x1_0000_0000_0000_0000 * r.0 + r.1 == Prod(a, b) + c + d
  {
    ProductBound(a, b, 0x1_0000_0000_0000_0000);
    var (hi, lo) := Mul64(a, b);
    var (c', carry) := Add64(c, d, 0);
    var hi' := Add64(hi, 0, carry).0;
    var (lo', carry') := Add64(lo, c', 0);
    (Add64(hi', 0, carry').0, lo')
  }

  /** a*b + c + d + e*2^64; the last addition loses its carry unless the sum fits two words. */
  function Madd3(a: U64, b: U64, c: U64, d: U64, e: U64): (r: (U64, U64))
    ensures Prod(a, b) + c + d + 0x1_0000_0000_0000_0000 * e < 0x1_0000_0000_0000_0000 * 0x1_0000_0000_0000_0000 ==>
              0x1_0000_0000_0000_0000 * r.0 + r.1 == Prod(a, b) + c + d + 0x1_0000_0000_0000_0000 * e
  {
    ProductBound(a, b, 0x1_0000_0000_0000_0000);
    var (hi, lo) := Mul64(a, b);
    var (c', carry) := Add64(c, d, 0);
    var hi' := Add64(hi, 0, carry).0;
    var (lo', carry') := Add64(lo, c', 0);
    (Add64(hi', e, carry').0, lo')
  }
}
