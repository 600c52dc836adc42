/**
 * Address decoding of the cache simulator: a 32-bit address is split into a
 * set index (the `s` bits above the `b` block-offset bits) and a tag (all bits
 * above `s + b`), with the same masking and shifting as the simulator.
 *
 * Unsigned machine words are naturals below 2^32; the bitwise `&` and `>>`
 * of unsigned integers are defined here bit by bit on naturals.
 */
module Decoding {

  const WORD_LIMIT: nat := 0x1_0000_0000

  /** An `unsigned` (32-bit) machine value. */
  type Word = x: nat | x < WORD_LIMIT

  function Pow2(n: nat): (p: nat)
    ensures p >= 1
  {
    if n == 0 then 1 else 2 * Pow2(n - 1)
  }

  /** 2^n grows with n. */
  lemma {:induction false} Pow2Mono(m: nat, n: nat)
    requires m <= n
    ensures Pow2(m) <= Pow2(n)
  {
    if m < n {
      Pow2Mono(m, n - 1);
    }
  }

  lemma {:induction false} Pow2Add(m: nat, n: nat)
    ensures Pow2(m + n) == Pow2(m) * Pow2(n)
  {
    if n > 0 {
      Pow2Add(m, n - 1);
      assert Pow2(m + n) == 2 * Pow2(m + n - 1);
    }
  }

  /** Every 2^n with n < 32 fits in a word. */
  lemma Pow2BelowWordLimit(n: nat)
    requires n < 32
    ensures Pow2(n) < WORD_LIMIT
  {
    assert Pow2(4) == 16;
    Pow2Add(4, 4);
    Pow2Add(8, 8);
    Pow2Add(16, 15);
    assert Pow2(15) == Pow2(16) / 2;
    Pow2Mono(n, 31);
  }

  /** Unsigned right shift `x >> n`: drop the `n` low-order bits. */
  function ShiftRight(x: nat, n: nat): nat
  {
    if n == 0 then x else ShiftRight(x / 2, n - 1)
  }

  /** Bitwise `x & y` of two unsigned values, bit by bit from the lowest bit. */
  function BitAnd(x: nat, y: nat): nat
    decreases x
  {
    if x == 0 || y == 0 then 0
    else 2 * BitAnd(x / 2, y / 2) + (if x % 2 == 1 && y % 2 == 1 then 1 else 0)
  }

  lemma MulAtLeast(d: nat, k: nat)
    requires k >= 1
    ensures d * k >= d
  {
    assert d * k == d * (k - 1) + d;
  }

  /** Quotient and remainder are the only ones: x == d * q + r with r < d. */
  lemma DivModUnique(x: nat, d: nat, q: nat, r: nat)
    requires d > 0 && r < d && x == d * q + r
    ensures x / d == q && x % d == r
  {
    var q0, r0 := x / d, x % d;
    assert x == d * q0 + r0;
    if q0 < q {
      assert d * q == d * q0 + d * (q - q0);
      MulAtLeast(d, q - q0);
    } else if q0 > q {
      assert d * q0 == d * q + d * (q0 - q);
      MulAtLeast(d, q0 - q);
    }
  }

  /** Splits x by a * c into x / (a * c), then a quotient below c, then a remainder below a. */
  lemma DivSplit(x: nat, a: nat, c: nat) returns (q: nat, r2: nat, r1: nat)
    requires a > 0 && c > 0
    ensures q == x / (a * c) && r2 < c && r1 < a
    ensures x == a * (c * q + r2) + r1
    ensures r2 == (x % (a * c)) / a
  {
    q := x / (a * c);
    var r := x % (a * c);
    assert x == (a * c) * q + r;
    r1 := r % a;
    r2 := r / a;
    assert r == a * r2 + r1;
    assert (a * c) * q == a * (c * q);
    assert a * (c * q + r2) == a * (c * q) + a * r2;
  }

  /** (x / a) / c == x / (a * c) for positive a and c. */
  lemma DivDiv(x: nat, a: nat, c: nat)
    requires a > 0 && c > 0
    ensures x / a / c == x / (a * c)
  {
    var q, r2, r1 := DivSplit(x, a, c);
    DivModUnique(x, a, c * q + r2, r1);
    DivModUnique(c * q + r2, c, q, r2);
  }

  /** x % (2 * m) splits into its lowest bit and the rest. */
  lemma ModDouble(x: nat, m: nat)
    requires m > 0
    ensures x % (2 * m) == 2 * ((x / 2) % m) + x % 2
  {
    var h := x / 2;
    var q := h / m;
    var r := h % m;
    assert h == m * q + r;
    assert x == 2 * h + x % 2;
    assert 2 * (m * q) == (2 * m) * q;
    assert x == (2 * m) * q + (2 * r + x % 2);
    DivModUnique(x, 2 * m, q, 2 * r + x % 2);
  }

  /** `x >> n` is division by 2^n. */
  lemma {:induction false} ShiftRightIsDiv(x: nat, n: nat)
    ensures ShiftRight(x, n) == x / Pow2(n)
  {
    if n > 0 {
      ShiftRightIsDiv(x / 2, n - 1);
      DivDiv(x, 2, Pow2(n - 1));
    }
  }

  /** `x & (2^n - 1)` keeps the `n` low-order bits, that is `x % 2^n`. */
  lemma {:induction false} BitAndLowMask(x: nat, n: nat)
    ensures BitAnd(x, Pow2(n) - 1) == x % Pow2(n)
  {
    if n > 0 && x > 0 {
      var m := Pow2(n - 1);
      var p := Pow2(n);
      assert p == 2 * m;
      DivModUnique(p - 1, 2, m - 1, 1);
      BitAndOddStep(x, p - 1);
      BitAndLowMask(x / 2, n - 1);
      ModDouble(x, m);
    } else if n == 0 {
      assert Pow2(n) == 1;
    } else {
      DivModUnique(0, Pow2(n), 0, 0);
    }
  }

  /** And-ing with an odd value keeps the lowest bit of x. */
  lemma BitAndOddStep(x: nat, y: nat)
    requires x > 0 && y > 0 && y % 2 == 1
    ensures BitAnd(x, y) == 2 * BitAnd(x / 2, y / 2) + x % 2
  {
  }

  /** The geometry given by `-s`, `-E` and `-b`: S = 2^s sets of E lines of B = 2^b bytes. */
  datatype Geometry = Geometry(s: nat, E: nat, b: nat)
  {
    /** What the simulator relies on: at least one line per set, and S*B fits in a word. */
    predicate Valid()
    {
      E >= 1 && s + b < 32
    }

    function SetCount(): nat
    {
      Pow2(s)
    }

    function BlockSize(): nat
    {
      Pow2(b)
    }
  }

  datatype Decoded = Decoded(index: nat, tag: Word)

  /**
   * `index = (address & (S*B - 1)) >> b` and `tag = address >> (s + b)`:
   * the index is below S and is the s bits of the address above its b offset
   * bits, the tag is everything above bit s + b.
   */
  function Decode(g: Geometry, address: Word): (d: Decoded)
    requires g.Valid()
    ensures d.index < g.SetCount()
    ensures d.index == (address / g.BlockSize()) % g.SetCount()
    ensures d.tag == address / (g.SetCount() * g.BlockSize())
  {
    var S := g.SetCount();
    var B := g.BlockSize();
    var index := ShiftRight(BitAnd(address, S * B - 1), g.b);
    var tag := ShiftRight(address, g.s + g.b);
    assert index == (address / B) % S && index < S by {
      MaskShiftValue(address, g.s, g.b);
    }
    assert tag == address / (S * B) && tag <= address by {
      TagShiftValue(address, g.s, g.b);
    }
    Decoded(index, tag)
  }

  /** `(x & (2^s * 2^b - 1)) >> b` is `(x / 2^b) % 2^s`. */
  lemma MaskShiftValue(x: nat, s: nat, b: nat)
    ensures ShiftRight(BitAnd(x, Pow2(s) * Pow2(b) - 1), b) == (x / Pow2(b)) % Pow2(s)
    ensures (x / Pow2(b)) % Pow2(s) < Pow2(s)
  {
    Pow2Add(s, b);
    BitAndLowMask(x, s + b);
    var low := BitAnd(x, Pow2(s) * Pow2(b) - 1);
    assert low == x % (Pow2(s) * Pow2(b));
    ShiftRightIsDiv(low, b);
    ModDivIsDivMod(x, Pow2(b), Pow2(s));
  }

  /** `x >> (s + b)` is `x / (2^s * 2^b)`, which is no larger than x. */
  lemma TagShiftValue(x: nat, s: nat, b: nat)
    ensures ShiftRight(x, s + b) == x / (Pow2(s) * Pow2(b))
    ensures ShiftRight(x, s + b) <= x
  {
    Pow2Add(s, b);
    ShiftRightIsDiv(x, s + b);
    DivAtMost(x, Pow2(s + b));
  }

  /** Dividing by a positive value never increases. */
  lemma DivAtMost(x: nat, d: nat)
    requires d > 0
    ensures x / d <= x
  {
    var q := x / d;
    assert x == d * q + x % d;
    MulAtLeast(q, d);
    assert d * q == q * d;
  }

  /** (x % (s * b)) / b == (x / b) % s: the bits of x between b and s * b. */
  lemma ModDivIsDivMod(x: nat, b: nat, s: nat)
    requires b > 0 && s > 0
    ensures (x % (s * b)) / b == (x / b) % s
  {
    var q, r2, r1 := DivSplit(x, b, s);
    assert s * b == b * s;
    DivModUnique(x, b, s * q + r2, r1);
    DivModUnique(s * q + r2, s, q, r2);
  }

  /** Tag, index and offset put back together give the address again. */
  lemma DecodeRecompose(g: Geometry, address: Word)
    requires g.Valid()
    ensures var d := Decode(g, address);
      (d.tag * g.SetCount() + d.index) * g.BlockSize() + address % g.BlockSize() == address
  {
    RecomposeValue(address, g.SetCount(), g.BlockSize());
  }

  lemma RecomposeValue(x: nat, S: nat, B: nat)
    requires S > 0 && B > 0
    ensures ((x / (S * B)) * S + (x / B) % S) * B + x % B == x
  {
    DivDiv(x, B, S);
    assert B * S == S * B;
    var h := x / B;
    var t := h / S;
    assert t == x / (S * B);
    assert h == S * t + h % S;
    assert t * S + h % S == h;
    assert x == B * h + x % B;
    assert h * B == B * h;
  }

  /** Bit `i` of an unsigned value. */
  function Bit(x: nat, i: nat): nat
  {
    (x / Pow2(i)) % 2
  }

  /** Below bit n, `x % 2^n` has the bits of x. */
  lemma LowBitsKept(y: nat, n: nat, i: nat)
    requires i < n
    ensures Bit(y % Pow2(n), i) == Bit(y, i)
  {
    var p := Pow2(i);
    var m := Pow2(n - i);
    var h := Pow2(n - i - 1);
    Pow2Add(n - i, i);
    assert Pow2(n) == m * p;
    ModDivIsDivMod(y, p, m);
    var z := y / p;
    assert (y % Pow2(n)) / p == z % m;
    assert m == 2 * h;
    ModDouble(z, h);
    DivModUnique(z % m, 2, (z / 2) % h, z % 2);
  }

  /** Shifting by b and then by i is shifting by b + i. */
  lemma {:induction false} ShiftRightAdd(x: nat, b: nat, i: nat)
    ensures ShiftRight(ShiftRight(x, b), i) == ShiftRight(x, b + i)
  {
    if b > 0 {
      ShiftRightAdd(x / 2, b - 1, i);
    }
  }

  /** Bit i of `x >> b` is bit b + i of x. */
  lemma ShiftedBit(x: nat, b: nat, i: nat)
    ensures Bit(ShiftRight(x, b), i) == Bit(x, b + i)
  {
    ShiftRightAdd(x, b, i);
    ShiftRightIsDiv(ShiftRight(x, b), i);
    ShiftRightIsDiv(x, b + i);
  }

  /** Bit by bit, the index holds bits b .. b + s - 1 of the address and nothing above. */
  lemma IndexBits(g: Geometry, address: Word, i: nat)
    requires g.Valid()
    ensures Bit(Decode(g, address).index, i) == if i < g.s then Bit(address, g.b + i) else 0
  {
    ShiftRightIsDiv(address, g.b);
    IndexBitsOf(ShiftRight(address, g.b), g.s, i);
    ShiftedBit(address, g.b, i);
  }

  /** `y % 2^s` keeps the bits of y below s and clears the rest. */
  lemma IndexBitsOf(y: nat, s: nat, i: nat)
    ensures Bit(y % Pow2(s), i) == if i < s then Bit(y, i) else 0
  {
    if i < s {
      LowBitsKept(y, s, i);
    } else {
      Pow2Mono(s, i);
      DivModUnique(y % Pow2(s), Pow2(i), 0, y % Pow2(s));
    }
  }

  /** Bit by bit, the tag holds the bits of the address from s + b upwards. */
  lemma TagBits(g: Geometry, address: Word, i: nat)
    requires g.Valid()
    ensures Bit(Decode(g, address).tag, i) == Bit(address, g.s + g.b + i)
  {
    ShiftedBit(address, g.s + g.b, i);
  }
}
