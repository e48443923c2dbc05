/** The packed-lane operations of arm_math.h for cores without DSP instructions. */
module Lanes {
  import opened Bits
  import opened FixedPoint

  type Packed = x: int | 0 <= x < 0x1_0000_0000

  /** The source's saturation: a doubling loop, then one comparison on the side of the sign. At width
      32 the doubling wraps to the least integer, and both bounds come out right all the same. */
  method SSat(x: int, y: nat) returns (r: int)
    requires Int32(x) && 1 <= y <= 32
    ensures r == Clamp(x, -(Pow2(y - 1) as int), Pow2(y - 1) - 1)
  {
    hide ToSigned32, Pow2;
    var posMax: int := 1;
    Widths(0);
    for i := 0 to y - 1
      invariant posMax == if i < 31 then Pow2(i) else -0x8000_0000
    {
      Widths(i);
      posMax := ToSigned32(posMax * 2);
    }
    Widths(y - 1);
    r := x;
    if r > 0 {
      posMax := ToSigned32(posMax - 1);
      if r > posMax {
        r := posMax;
      }
    } else {
      var negMin := ToSigned32(-posMax);
      if r < negMin {
        r := negMin;
      }
    }
  }

  /** The bounds of a width, with their wraps. */
  lemma Widths(n: nat)
    requires n <= 31
    ensures Pow2(0) == 1 && (n == 31 ==> Pow2(n) == 0x8000_0000) && (n < 31 ==> Pow2(n) < 0x8000_0000)
    ensures n < 30 ==> ToSigned32(Pow2(n) * 2) == Pow2(n + 1)
    ensures n == 30 ==> ToSigned32(Pow2(n) * 2) == -0x8000_0000
    ensures n < 31 ==> ToSigned32(Pow2(n) - 1) == Pow2(n) - 1 && ToSigned32(-(Pow2(n) as int)) == -(Pow2(n) as int)
    ensures ToSigned32(-0x8000_0000 - 1) == 0x7FFF_FFFF && ToSigned32(0x8000_0000) == -0x8000_0000
  {
    hide ToSigned32;
    Pow2Values();
    assert Pow2(32) == 2 * Pow2(31) && Pow2(31) == 2 * Pow2(30);
    assert Pow2(n + 1) == 2 * Pow2(n);
    Below(n);
    WrapAtBounds();
    if n < 31 {
      SignedFits(Pow2(n) - 1);
      SignedFits(-(Pow2(n) as int));
    }
    if n < 30 {
      Below(n + 1);
      SignedFits(Pow2(n + 1));
    }
  }

  lemma {:induction false} Below(n: nat)
    requires n <= 31 && Pow2(31) == 0x8000_0000
    ensures n < 31 ==> Pow2(n) < 0x8000_0000
    decreases 31 - n
  {
    if n < 31 {
      Below(n + 1);
      assert Pow2(n + 1) == 2 * Pow2(n);
    }
  }

  lemma WrapAtBounds()
    ensures ToSigned32(-0x8000_0000 - 1) == 0x7FFF_FFFF && ToSigned32(0x8000_0000) == -0x8000_0000
  {
  }

  function SSat8(x: int): (r: int)
    ensures x >= 0x7F ==> r == 0x7F
    ensures x <= -0x80 ==> r == -0x80
    ensures -0x80 <= x <= 0x7F ==> r == x
  {
    Clamp(x, -0x80, 0x7F)
  }

  function SSat16(x: int): (r: int)
    ensures -0x8000 <= r <= 0x7FFF
    ensures x >= 0x7FFF ==> r == 0x7FFF
    ensures x <= -0x8000 ==> r == -0x8000
    ensures -0x8000 <= x <= 0x7FFF ==> r == x
  {
    Clamp(x, -0x8000, 0x7FFF)
  }

  /** The lanes' saturations are what SSat leaves at widths 8 and 16. */
  lemma SaturationsAgree(x: int)
    ensures SSat8(x) == Clamp(x, -(Pow2(7) as int), Pow2(7) - 1)
    ensures SSat16(x) == Clamp(x, -(Pow2(15) as int), Pow2(15) - 1)
  {
    hide Pow2;
    LaneBounds();
  }

  lemma LaneBounds()
    ensures Pow2(7) == 0x80 && Pow2(15) == 0x8000
  {
    Pow2Values();
    assert Pow2(8) == 2 * Pow2(7) && Pow2(16) == 2 * Pow2(15);
  }

  /** `x >> 1`, rounding down. */
  function Halved(x: int): (r: int)
    ensures 2 * r <= x <= 2 * r + 1
    ensures -0x1_0000 <= x <= 0xFFFF ==> -0x8000 <= r <= 0x7FFF
  {
    x / 2
  }

  // ---- what a lane is -----------------------------------------------------------------------

  /** The four bytes and the two halfwords of a word, as signed numbers, lowest first. */
  function Bytes(x: Packed): (int, int, int, int) {
    (ToSigned8(x), ToSigned8(x / 0x100), ToSigned8(x / 0x1_0000), ToSigned8(x / 0x100_0000))
  }

  function Halves(x: Packed): (int, int) {
    (ToSigned16(x), ToSigned16(x / 0x1_0000))
  }

  /** The lanes lie in the ranges of their widths and, taken modulo them, are the word's digits. */
  lemma BytesMeaning(x: Packed)
    ensures var b := Bytes(x);
      && -0x80 <= b.0 <= 0x7F && -0x80 <= b.1 <= 0x7F && -0x80 <= b.2 <= 0x7F && -0x80 <= b.3 <= 0x7F
      && x == b.3 % 0x100 * 0x100_0000 + b.2 % 0x100 * 0x1_0000 + b.1 % 0x100 * 0x100 + b.0 % 0x100
  {
    hide ToSigned8;
    var b0, b1, b2, b3 := Digits(x);
    DigitOfSigned(b3 * 0x1_0000 + b2 * 0x100 + b1, b0);
    DigitOfSigned(b3 * 0x100 + b2, b1);
    DigitOfSigned(b3, b2);
    DigitOfSigned(0, b3);
  }

  lemma DigitOfSigned(high: int, b: int)
    requires 0 <= b < 0x100
    ensures -0x80 <= ToSigned8(high * 0x100 + b) <= 0x7F && ToSigned8(high * 0x100 + b) % 0x100 == b
  {
    hide ToSigned8;
    SignedDigit(high, b);
    DivModUnique(Sign8(b), 0x100, if b < 0x80 then 0 else -1, b);
  }

  lemma HalvesMeaning(x: Packed)
    ensures var h := Halves(x);
      && -0x8000 <= h.0 <= 0x7FFF && -0x8000 <= h.1 <= 0x7FFF
      && x == h.1 % 0x1_0000 * 0x1_0000 + h.0 % 0x1_0000
  {
    hide ToSigned16;
    var high, low := x / 0x1_0000, x % 0x1_0000;
    SignedDigit(high, low);
    SignedDigit(0, high);
    DivModUnique(Sign16(low), 0x1_0000, if low < 0x8000 then 0 else -1, low);
    DivModUnique(Sign16(high), 0x1_0000, if high < 0x8000 then 0 else -1, high);
  }

  // ---- how the source takes lanes apart and packs them --------------------------------------

  /** `((q31_t)x << n) >> 24` for n = 24, 16, 8, 0. */
  function Byte0(x: Packed): int { ToSigned32(x * 0x100_0000) / 0x100_0000 }
  function Byte1(x: Packed): int { ToSigned32(x * 0x1_0000) / 0x100_0000 }
  function Byte2(x: Packed): int { ToSigned32(x * 0x100) / 0x100_0000 }
  function Byte3(x: Packed): int { ToSigned32(x) / 0x100_0000 }

  /** `((q31_t)x << 16) >> 16` and `(q31_t)x >> 16`. */
  function Low(x: Packed): int { ToSigned32(x * 0x1_0000) / 0x1_0000 }
  function High(x: Packed): int { ToSigned32(x) / 0x1_0000 }

  function PackBytes(r: int, s: int, t: int, u: int): nat {
    Or(Or(Or(Shl(And(ToUnsigned32(u), 0xFF), 24), Shl(And(ToUnsigned32(t), 0xFF), 16)),
          Shl(And(ToUnsigned32(s), 0xFF), 8)), And(ToUnsigned32(r), 0xFF))
  }

  function PackHalves(r: int, s: int): nat {
    Or(Shl(And(ToUnsigned32(s), 0xFFFF), 16), And(ToUnsigned32(r), 0xFFFF))
  }

  function Sign8(b: int): int { if b < 0x80 then b else b - 0x100 }

  function Sign16(h: int): int { if h < 0x8000 then h else h - 0x1_0000 }

  lemma SignedDigit(high: int, b: int)
    ensures 0 <= b < 0x100 ==> ToSigned8(high * 0x100 + b) == Sign8(b)
    ensures 0 <= b < 0x1_0000 ==> ToSigned16(high * 0x1_0000 + b) == Sign16(b)
  {
  }

  lemma SignedPattern(high: int, c: int)
    requires 0 <= c < 0x1_0000_0000
    ensures ToSigned32(high * 0x1_0000_0000 + c) == if c < 0x8000_0000 then c else c - 0x1_0000_0000
  {
    var w := high * 0x1_0000_0000 + c + 0x8000_0000;
    if c < 0x8000_0000 {
      DivModUnique(w, 0x1_0000_0000, high, c + 0x8000_0000);
    } else {
      DivModUnique(w, 0x1_0000_0000, high + 1, c - 0x8000_0000);
    }
  }

  /** Shifting a lane to the top and back down keeps its sign and drops what was above it. */
  lemma ShiftedTop(high: int, b: int, low: int)
    ensures 0 <= b < 0x100 && 0 <= low < 0x100_0000 ==>
      ToSigned32(high * 0x1_0000_0000 + b * 0x100_0000 + low) / 0x100_0000 == Sign8(b)
    ensures 0 <= b < 0x1_0000 && 0 <= low < 0x1_0000 ==>
      ToSigned32(high * 0x1_0000_0000 + b * 0x1_0000 + low) / 0x1_0000 == Sign16(b)
  {
    hide ToSigned32;
    if 0 <= b < 0x100 && 0 <= low < 0x100_0000 {
      SignedPattern(high, b * 0x100_0000 + low);
      DivModUnique(Sign8(b) * 0x100_0000 + low, 0x100_0000, Sign8(b), low);
    }
    if 0 <= b < 0x1_0000 && 0 <= low < 0x1_0000 {
      SignedPattern(high, b * 0x1_0000 + low);
      DivModUnique(Sign16(b) * 0x1_0000 + low, 0x1_0000, Sign16(b), low);
    }
  }

  lemma Digits(x: Packed) returns (b0: int, b1: int, b2: int, b3: int)
    ensures 0 <= b0 < 0x100 && 0 <= b1 < 0x100 && 0 <= b2 < 0x100 && 0 <= b3 < 0x100
    ensures x == b3 * 0x100_0000 + b2 * 0x1_0000 + b1 * 0x100 + b0
    ensures x / 0x100 == b3 * 0x1_0000 + b2 * 0x100 + b1 && x / 0x1_0000 == b3 * 0x100 + b2 && x / 0x100_0000 == b3
  {
    var h1 := x / 0x100;
    var h2 := h1 / 0x100;
    b0, b1, b2, b3 := x % 0x100, h1 % 0x100, h2 % 0x100, h2 / 0x100;
    DivModUnique(x, 0x1_0000, h2, b1 * 0x100 + b0);
    DivModUnique(x, 0x100_0000, b3, b2 * 0x1_0000 + b1 * 0x100 + b0);
  }

  lemma TakenApart(x: Packed)
    ensures (Byte0(x), Byte1(x), Byte2(x), Byte3(x)) == Bytes(x)
  {
    hide ToSigned8, ToSigned32, Sign8;
    var b0, b1, b2, b3 := Digits(x);
    ShiftedTop(b3 * 0x1_0000 + b2 * 0x100 + b1, b0, 0);
    ShiftedTop(b3 * 0x100 + b2, b1, b0 * 0x1_0000);
    ShiftedTop(b3, b2, (b1 * 0x100 + b0) * 0x100);
    ShiftedTop(0, b3, b2 * 0x1_0000 + b1 * 0x100 + b0);
    SignedDigit(b3 * 0x1_0000 + b2 * 0x100 + b1, b0);
    SignedDigit(b3 * 0x100 + b2, b1);
    SignedDigit(b3, b2);
    SignedDigit(0, b3);
  }

  lemma HalvesTakenApart(x: Packed)
    ensures (Low(x), High(x)) == Halves(x)
  {
    hide ToSigned16, ToSigned32, Sign16;
    var h, l := x / 0x1_0000, x % 0x1_0000;
    ShiftedTop(h, l, 0);
    ShiftedTop(0, h, l);
    SignedDigit(h, l);
    SignedDigit(0, h);
  }

  lemma Masked(x: int)
    ensures And(ToUnsigned32(x), 0xFF) == x % 0x100 && And(ToUnsigned32(x), 0xFFFF) == x % 0x1_0000
  {
    hide And, Pow2;
    Pow2Values();
    var h, u := x / 0x1_0000_0000, ToUnsigned32(x);
    AndLow(u, 8);
    AndLow(u, 16);
    DivModUnique(x, 0x100, h * 0x100_0000 + u / 0x100, u % 0x100);
    DivModUnique(x, 0x1_0000, h * 0x1_0000 + u / 0x1_0000, u % 0x1_0000);
  }

  /** Packing joins the lanes without overlap. */
  lemma PackedHalves(r: int, s: int)
    ensures PackHalves(r, s) == s % 0x1_0000 * 0x1_0000 + r % 0x1_0000 < 0x1_0000_0000
  {
    hide And, Or, Shl, Pow2;
    Pow2Values();
    Masked(r);
    Masked(s);
    ShlIsProduct(s % 0x1_0000, 16);
    OrJoins(s % 0x1_0000, r % 0x1_0000, 16);
  }

  lemma PackedBytes(r: int, s: int, t: int, u: int)
    ensures PackBytes(r, s, t, u) ==
      u % 0x100 * 0x100_0000 + t % 0x100 * 0x1_0000 + s % 0x100 * 0x100 + r % 0x100 < 0x1_0000_0000
  {
    hide And, Or, Shl, Pow2;
    Pow2Values();
    Masked(r);
    Masked(s);
    Masked(t);
    Masked(u);
    var a, b, c, d := u % 0x100, t % 0x100, s % 0x100, r % 0x100;
    JoinBytes(a, b, c, d);
  }

  /** `a << 24 | b << 16 | c << 8 | d`, joined from the left. */
  lemma JoinBytes(a: nat, b: nat, c: nat, d: nat)
    requires a < 0x100 && b < 0x100 && c < 0x100 && d < 0x100
    ensures Or(Or(Or(Shl(a, 24), Shl(b, 16)), Shl(c, 8)), d) == a * 0x100_0000 + b * 0x1_0000 + c * 0x100 + d
  {
    hide Or, Shl, Pow2;
    Pow2Values();
    ShlIsProduct(a, 24);
    ShlIsProduct(b, 16);
    ShlIsProduct(c, 8);
    OrJoins(a, b * 0x1_0000, 24);
    ShlIsProduct(a * 0x100 + b, 16);
    OrJoins(a * 0x100 + b, c * 0x100, 16);
    ShlIsProduct((a * 0x100 + b) * 0x100 + c, 8);
    OrJoins((a * 0x100 + b) * 0x100 + c, d, 8);
  }

  /** The lanes of a packed word are the packed values, reduced to the lane width. */
  lemma HalvesOfPacked(r: int, s: int)
    ensures PackHalves(r, s) < 0x1_0000_0000 && Halves(PackHalves(r, s)) == (ToSigned16(r), ToSigned16(s))
  {
    hide PackHalves, ToSigned16;
    PackedHalves(r, s);
    var l, h := r % 0x1_0000, s % 0x1_0000;
    DivModUnique(h * 0x1_0000 + l, 0x1_0000, h, l);
    SignedDigit(h, l);
    SignedDigit(0, h);
    SignedDigit(r / 0x1_0000, l);
    SignedDigit(s / 0x1_0000, h);
  }

  lemma BytesOfPacked(r: int, s: int, t: int, u: int)
    ensures PackBytes(r, s, t, u) < 0x1_0000_0000
    ensures Bytes(PackBytes(r, s, t, u)) == (ToSigned8(r), ToSigned8(s), ToSigned8(t), ToSigned8(u))
  {
    hide PackBytes, ToSigned8, Sign8;
    PackedBytes(r, s, t, u);
    var a, b, c, d := u % 0x100, t % 0x100, s % 0x100, r % 0x100;
    var w := a * 0x100_0000 + b * 0x1_0000 + c * 0x100 + d;
    DivModUnique(w, 0x100, a * 0x1_0000 + b * 0x100 + c, d);
    DivModUnique(w, 0x1_0000, a * 0x100 + b, c * 0x100 + d);
    DivModUnique(w, 0x100_0000, a, b * 0x1_0000 + c * 0x100 + d);
    SignedDigit(a * 0x1_0000 + b * 0x100 + c, d);
    SignedDigit(a * 0x100 + b, c);
    SignedDigit(a, b);
    SignedDigit(0, a);
    SignedDigit(r / 0x100, d);
    SignedDigit(s / 0x100, c);
    SignedDigit(t / 0x100, b);
    SignedDigit(u / 0x100, a);
  }

  lemma NarrowIsIdentity(x: int)
    ensures -0x80 <= x <= 0x7F ==> ToSigned8(x) == x
    ensures -0x8000 <= x <= 0x7FFF ==> ToSigned16(x) == x
  {
  }

  lemma NarrowBytes(r: int, s: int, t: int, u: int)
    requires -0x80 <= r <= 0x7F && -0x80 <= s <= 0x7F && -0x80 <= t <= 0x7F && -0x80 <= u <= 0x7F
    ensures PackBytes(r, s, t, u) < 0x1_0000_0000 && Bytes(PackBytes(r, s, t, u)) == (r, s, t, u)
  {
    hide PackBytes, Bytes, ToSigned8;
    BytesOfPacked(r, s, t, u);
    NarrowIsIdentity(r);
    NarrowIsIdentity(s);
    NarrowIsIdentity(t);
    NarrowIsIdentity(u);
  }

  lemma NarrowHalves(r: int, s: int)
    requires -0x8000 <= r <= 0x7FFF && -0x8000 <= s <= 0x7FFF
    ensures PackHalves(r, s) < 0x1_0000_0000 && Halves(PackHalves(r, s)) == (r, s)
  {
    hide PackHalves, Halves, ToSigned16;
    HalvesOfPacked(r, s);
    NarrowIsIdentity(r);
    NarrowIsIdentity(s);
  }

  lemma HalvesRange(x: Packed)
    ensures -0x8000 <= Halves(x).0 <= 0x7FFF && -0x8000 <= Halves(x).1 <= 0x7FFF
  {
  }

  // ---- the operations -----------------------------------------------------------------------

  function QAdd8(x: Packed, y: Packed): (w: Packed)
    ensures Bytes(w) == (SSat8(Bytes(x).0 + Bytes(y).0), SSat8(Bytes(x).1 + Bytes(y).1),
                         SSat8(Bytes(x).2 + Bytes(y).2), SSat8(Bytes(x).3 + Bytes(y).3))
  {
    hide Byte0, Byte1, Byte2, Byte3, PackBytes, Bytes;
    TakenApart(x);
    TakenApart(y);
    var r, s := SSat8(Byte0(x) + Byte0(y)), SSat8(Byte1(x) + Byte1(y));
    var t, u := SSat8(Byte2(x) + Byte2(y)), SSat8(Byte3(x) + Byte3(y));
    NarrowBytes(r, s, t, u);
    PackBytes(r, s, t, u)
  }

  function QSub8(x: Packed, y: Packed): (w: Packed)
    ensures Bytes(w) == (SSat8(Bytes(x).0 - Bytes(y).0), SSat8(Bytes(x).1 - Bytes(y).1),
                         SSat8(Bytes(x).2 - Bytes(y).2), SSat8(Bytes(x).3 - Bytes(y).3))
  {
    hide Byte0, Byte1, Byte2, Byte3, PackBytes, Bytes;
    TakenApart(x);
    TakenApart(y);
    var r, s := SSat8(Byte0(x) - Byte0(y)), SSat8(Byte1(x) - Byte1(y));
    var t, u := SSat8(Byte2(x) - Byte2(y)), SSat8(Byte3(x) - Byte3(y));
    NarrowBytes(r, s, t, u);
    PackBytes(r, s, t, u)
  }

  /** Saturating lane sums. */
  function QAdd16(x: Packed, y: Packed): (w: Packed)
    ensures Halves(w) == (SSat16(Halves(x).0 + Halves(y).0), SSat16(Halves(x).1 + Halves(y).1))
  {
    hide Low, High, PackHalves, Halves, SSat16, Halved;
    HalvesTakenApart(x);
    HalvesTakenApart(y);
    HalvesRange(x);
    HalvesRange(y);
    var r, s := SSat16(Low(x) + Low(y)), SSat16(High(x) + High(y));
    NarrowHalves(r, s);
    PackHalves(r, s)
  }

  /** Saturating lane differences. */
  function QSub16(x: Packed, y: Packed): (w: Packed)
    ensures Halves(w) == (SSat16(Halves(x).0 - Halves(y).0), SSat16(Halves(x).1 - Halves(y).1))
  {
    hide Low, High, PackHalves, Halves, SSat16, Halved;
    HalvesTakenApart(x);
    HalvesTakenApart(y);
    HalvesRange(x);
    HalvesRange(y);
    var r, s := SSat16(Low(x) - Low(y)), SSat16(High(x) - High(y));
    NarrowHalves(r, s);
    PackHalves(r, s)
  }

  /** Lanes of `y` exchanged; difference below, sum above. */
  function QAsx(x: Packed, y: Packed): (w: Packed)
    ensures Halves(w) == (SSat16(Halves(x).0 - Halves(y).1), SSat16(Halves(x).1 + Halves(y).0))
  {
    hide Low, High, PackHalves, Halves, SSat16, Halved;
    HalvesTakenApart(x);
    HalvesTakenApart(y);
    HalvesRange(x);
    HalvesRange(y);
    var r, s := SSat16(Low(x) - High(y)), SSat16(High(x) + Low(y));
    NarrowHalves(r, s);
    PackHalves(r, s)
  }

  /** Lanes of `y` exchanged; sum below, difference above. */
  function QSax(x: Packed, y: Packed): (w: Packed)
    ensures Halves(w) == (SSat16(Halves(x).0 + Halves(y).1), SSat16(Halves(x).1 - Halves(y).0))
  {
    hide Low, High, PackHalves, Halves, SSat16, Halved;
    HalvesTakenApart(x);
    HalvesTakenApart(y);
    HalvesRange(x);
    HalvesRange(y);
    var r, s := SSat16(Low(x) + High(y)), SSat16(High(x) - Low(y));
    NarrowHalves(r, s);
    PackHalves(r, s)
  }

  /** Halved lane sums, rounded down. */
  function ShAdd16(x: Packed, y: Packed): (w: Packed)
    ensures Halves(w) == (Halved(Halves(x).0 + Halves(y).0), Halved(Halves(x).1 + Halves(y).1))
  {
    hide Low, High, PackHalves, Halves, SSat16, Halved;
    HalvesTakenApart(x);
    HalvesTakenApart(y);
    HalvesRange(x);
    HalvesRange(y);
    var r, s := Halved(Low(x) + Low(y)), Halved(High(x) + High(y));
    NarrowHalves(r, s);
    PackHalves(r, s)
  }

  /** Halved lane differences, rounded down. */
  function ShSub16(x: Packed, y: Packed): (w: Packed)
    ensures Halves(w) == (Halved(Halves(x).0 - Halves(y).0), Halved(Halves(x).1 - Halves(y).1))
  {
    hide Low, High, PackHalves, Halves, SSat16, Halved;
    HalvesTakenApart(x);
    HalvesTakenApart(y);
    HalvesRange(x);
    HalvesRange(y);
    var r, s := Halved(Low(x) - Low(y)), Halved(High(x) - High(y));
    NarrowHalves(r, s);
    PackHalves(r, s)
  }

  /** Halved and exchanged: difference below, sum above. */
  function ShAsx(x: Packed, y: Packed): (w: Packed)
    ensures Halves(w) == (Halved(Halves(x).0 - Halves(y).1), Halved(Halves(x).1 + Halves(y).0))
  {
    hide Low, High, PackHalves, Halves, SSat16, Halved;
    HalvesTakenApart(x);
    HalvesTakenApart(y);
    HalvesRange(x);
    HalvesRange(y);
    var r, s := Halved(Low(x) - High(y)), Halved(High(x) + Low(y));
    NarrowHalves(r, s);
    PackHalves(r, s)
  }

  /** Halved and exchanged: sum below, difference above. */
  function ShSax(x: Packed, y: Packed): (w: Packed)
    ensures Halves(w) == (Halved(Halves(x).0 + Halves(y).1), Halved(Halves(x).1 - Halves(y).0))
  {
    hide Low, High, PackHalves, Halves, SSat16, Halved;
    HalvesTakenApart(x);
    HalvesTakenApart(y);
    HalvesRange(x);
    HalvesRange(y);
    var r, s := Halved(Low(x) + High(y)), Halved(High(x) - Low(y));
    NarrowHalves(r, s);
    PackHalves(r, s)
  }
}
