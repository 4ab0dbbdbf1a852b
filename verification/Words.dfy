/**
 The 64-bit words a bitmap layer is made of. Bit 0 of a word is its most
 significant bit, so that counting leading zeros finds the lowest set index.

 The operations are the source's shifts, masks and complements on `bv64`; the
 lemmas relate them to `Bits(w)`, the 64 booleans a reader sees in the word.
 */
module Words {

  type Word = bv64

  const ALL_ONES: Word := 0xFFFF_FFFF_FFFF_FFFF

  function And(a: Word, b: Word): Word { a & b }

  /** Whether `w` has a bit of the mask `m`. */
  predicate Hits(w: Word, m: Word) { w & m != 0 }

  function Or(a: Word, b: Word): Word { a | b }

  function AndNot(a: Word, b: Word): Word { a & !b }

  function Twice(a: Word): Word { a << 1 }

  /** The value of `1L << k`, one doubling at a time. */
  function OneShl(k: nat): Word
    requires k < 64
  {
    if k == 0 then 1 else Twice(OneShl(k - 1))
  }

  /** The value of `-1UL << k`. */
  function OnesShl(k: nat): Word
    requires k < 64
  {
    if k == 0 then ALL_ONES else Twice(OnesShl(k - 1))
  }

  /** The word after `|= 1L << (63 - b)`. */
  function SetBit(w: Word, b: nat): Word
    requires b < 64
  {
    Or(w, OneShl(63 - b))
  }

  /** The word after `&= ~(1L << (63 - b))`. */
  function ClearBit(w: Word, b: nat): Word
    requires b < 64
  {
    AndNot(w, OneShl(63 - b))
  }

  predicate TopBit(w: Word) { w & 0x8000_0000_0000_0000 != 0 }

  /** Whether bit `b`, counted from the most significant end, is 1. */
  predicate Bit(w: Word, b: nat)
    requires b < 64
    decreases b
  {
    if b == 0 then TopBit(w) else Bit(Twice(w), b - 1)
  }

  /** All 64 bits of `w`, most significant first. */
  function Bits(w: Word): (s: seq<bool>)
    ensures |s| == 64
  {
    seq(64, b requires 0 <= b < 64 => Bit(w, b))
  }

  // ----- shifts by an integer amount, in terms of bit-vector shifts -----

  ghost function Succ(a: Word): Word { a + 1 }

  ghost predicate Less(a: Word, b: Word) { a < b }

  function Shift(a: Word, p: Word): Word
    requires p < 64
  {
    a << p
  }

  /** `k` as a bit vector. */
  ghost function Pos(k: nat): Word {
    if k == 0 then 0 else Succ(Pos(k - 1))
  }

  ghost function Octal(d: nat): Word
    requires d < 8
  {
    if d == 0 then 0 else if d == 1 then 1 else if d == 2 then 2 else if d == 3 then 3
    else if d == 4 then 4 else if d == 5 then 5 else if d == 6 then 6 else 7
  }

  /** `8 * c + r` as a bit vector. */
  ghost function Binary(c: nat, r: nat): Word
    requires c < 8 && r < 8
  {
    (Octal(c) << 3) | Octal(r)
  }

  lemma BinaryStep(c: nat, r: nat)
    requires c < 8 && 0 < r < 8
    ensures Binary(c, r) == Succ(Binary(c, r - 1)) && Less(Binary(c, r - 1), 63)
  {}

  lemma BinaryCarry(c: nat)
    requires 0 < c < 8
    ensures Binary(c, 0) == Succ(Binary(c - 1, 7)) && Less(Binary(c - 1, 7), 63)
  {}

  lemma NextAbove(a: Word)
    requires a < 63
    ensures a < 64 && Less(a, Succ(a)) && Less(Succ(a), 64)
  {}

  lemma LessTransitive(a: Word, b: Word, c: Word)
    requires Less(a, b) && Less(b, c) && Less(c, 64)
    ensures Less(a, c)
  {}

  lemma BinaryTop()
    ensures Binary(7, 7) == 63 && Less(Binary(7, 7), 64)
  {}

  lemma BelowTop(a: Word)
    requires Less(a, 63)
    ensures Less(a, 64)
  {}

  lemma {:induction false} PosIsBinary(c: nat, r: nat)
    requires c < 8 && r < 8
    ensures Pos(8 * c + r) == Binary(c, r)
    decreases 8 * c + r
  {
    if r > 0 {
      PosIsBinary(c, r - 1);
      BinaryStep(c, r);
    } else if c > 0 {
      PosIsBinary(c - 1, 7);
      BinaryCarry(c);
    }
  }

  lemma PosBelow(k: nat)
    requires k < 64
    ensures k < 63 ==> Less(Pos(k), 63)
    ensures Less(Pos(k), 64)
  {
    var c, r := k / 8, k % 8;
    PosIsBinary(c, r);
    if r < 7 {
      BinaryStep(c, r + 1);
      BelowTop(Pos(k));
    } else if c < 7 {
      BinaryCarry(c + 1);
      BelowTop(Pos(k));
    } else {
      BinaryTop();
    }
  }

  lemma {:induction false} PosOrder(j: nat, k: nat)
    requires j < k < 64
    ensures Less(Pos(j), Pos(k)) && Less(Pos(k), 64)
  {
    PosBelow(k);
    PosBelow(k - 1);
    NextAbove(Pos(k - 1));
    if j < k - 1 {
      PosOrder(j, k - 1);
      LessTransitive(Pos(j), Pos(k - 1), Pos(k));
    }
  }

  lemma ShiftOneStep(p: Word)
    requires p < 63
    ensures p + 1 < 64
    ensures Twice(Shift(1, p)) == Shift(1, p + 1)
  {}

  lemma ShiftOnesStep(p: Word)
    requires p < 63
    ensures p + 1 < 64
    ensures Twice(Shift(ALL_ONES, p)) == Shift(ALL_ONES, p + 1)
  {}

  /** The repeated doublings are the machine's shifts. */
  lemma {:induction false} ShlIsShift(k: nat)
    requires k < 64
    ensures Pos(k) < 64
    ensures OneShl(k) == Shift(1, Pos(k))
    ensures OnesShl(k) == Shift(ALL_ONES, Pos(k))
  {
    PosBelow(k);
    if k > 0 {
      PosBelow(k - 1);
      ShlIsShift(k - 1);
      ShiftOneStep(Pos(k - 1));
      ShiftOnesStep(Pos(k - 1));
    }
  }

  lemma ShiftNonzero(a: Word)
    requires a < 64
    ensures Hits(Shift(1, a), Shift(1, a))
  {}

  lemma TwiceHits(w: Word, m: Word)
    requires !TopBit(m)
    ensures Hits(Twice(w), Twice(m)) <==> Hits(w, m)
  {}

  lemma LowestMisses(m: Word)
    ensures !Hits(1, Twice(m)) && !Hits(Twice(m), 1)
  {}

  lemma HitsBoth(m: Word, n: Word)
    ensures Hits(m, n) <==> Hits(n, m)
  {}

  lemma ShiftNotTop(p: Word)
    requires Less(p, 63)
    ensures p < 64 && !TopBit(Shift(1, p))
  {}

  lemma OneShlNotTop(k: nat)
    requires k < 63
    ensures !TopBit(OneShl(k))
  {
    ShlIsShift(k);
    PosBelow(k);
    ShiftNotTop(Pos(k));
  }

  lemma {:induction false} OnesApart(j: nat, k: nat)
    requires j < k < 64
    ensures !Hits(OneShl(j), OneShl(k)) && !Hits(OneShl(k), OneShl(j))
    decreases j
  {
    if j == 0 {
      LowestMisses(OneShl(k - 1));
    } else {
      OnesApart(j - 1, k - 1);
      OneShlNotTop(k - 1);
      TwiceHits(OneShl(j - 1), OneShl(k - 1));
      HitsBoth(OneShl(j), OneShl(k));
    }
  }

  lemma ShiftKeeps(a: Word, b: Word)
    requires a < 64 && b < 64 && a <= b
    ensures Hits(Shift(ALL_ONES, a), Shift(1, b))
  {}

  lemma ShiftDrops(a: Word, b: Word)
    requires a < 64 && b < 64 && Less(b, a)
    ensures !Hits(Shift(ALL_ONES, a), Shift(1, b))
  {}

  lemma LessStrict(a: Word, b: Word)
    requires Less(a, b)
    ensures a != b && a <= b
  {}

  lemma MasksDisjoint(j: nat, k: nat)
    requires j < 64 && k < 64
    ensures Hits(OneShl(j), OneShl(k)) <==> j == k
    ensures Hits(OnesShl(j), OneShl(k)) <==> j <= k
  {
    ShlIsShift(j);
    ShlIsShift(k);
    ShiftNonzero(Pos(j));
    if j < k {
      PosOrder(j, k);
      LessStrict(Pos(j), Pos(k));
      OnesApart(j, k);
      ShiftKeeps(Pos(j), Pos(k));
    } else if k < j {
      PosOrder(k, j);
      LessStrict(Pos(k), Pos(j));
      OnesApart(k, j);
      ShiftDrops(Pos(j), Pos(k));
    } else {
      ShiftKeeps(Pos(j), Pos(j));
    }
  }

  lemma PosTop()
    ensures Pos(63) == 63
  {
    PosIsBinary(7, 7);
    BinaryTop();
  }

  // ----- the bits of a word after each operation -----

  lemma TopMask()
    ensures OneShl(63) == 0x8000_0000_0000_0000
  {
    ShlIsShift(63);
    PosTop();
  }

  /** Bit `b` is the one that the mask `1L << (63 - b)` selects. */
  lemma {:induction false} BitIsMasked(w: Word, b: nat)
    requires b < 64
    ensures Bit(w, b) <==> Hits(w, OneShl(63 - b))
    decreases b
  {
    TopMask();
    if b > 0 {
      BitIsMasked(Twice(w), b - 1);
      MasksDisjoint(63 - b, 63);
      TwiceHits(w, OneShl(63 - b));
    }
  }

  lemma OrDistributes(w: Word, m: Word, n: Word)
    ensures (w | m) & n == (w & n) | (m & n)
  {}

  lemma OrZero(w: Word)
    ensures Or(0, w) == w && w | 0 == w
  {}

  lemma OrOther(w: Word, m: Word, n: Word)
    requires !Hits(m, n)
    ensures Hits(Or(w, m), n) <==> Hits(w, n)
  {
    OrDistributes(w, m, n);
    OrZero(w & n);
  }

  lemma OrSame(w: Word, m: Word)
    requires Hits(m, m)
    ensures Hits(Or(w, m), m)
  {}

  lemma AndNotKeeps(w: Word, m: Word, n: Word)
    requires m & n == 0
    ensures w & !m & n == w & n
  {}

  lemma AndNotOther(w: Word, m: Word, n: Word)
    requires !Hits(m, n)
    ensures Hits(AndNot(w, m), n) <==> Hits(w, n)
  {
    if Hits(w, n) {
      AndNotKeeps(w, m, n);
      assert (w & !m) & n == w & n;
    } else {
      AndNotKeeps(w, m, n);
    }
  }

  lemma AndNotSame(w: Word, m: Word)
    ensures !Hits(AndNot(w, m), m)
  {}

  lemma HitsUnits(w: Word)
    ensures !Hits(0, w)
    ensures Hits(w, ALL_ONES) <==> w != 0
    ensures Hits(ALL_ONES, w) <==> w != 0
    ensures Hits(w, w) <==> w != 0
    ensures And(ALL_ONES, w) == w
  {}

  lemma SetBitAt(w: Word, b: nat, c: nat)
    requires b < 64 && c < 64
    ensures Bit(SetBit(w, b), c) <==> b == c || Bit(w, c)
  {
    MasksDisjoint(63 - b, 63 - c);
    BitIsMasked(w, c);
    BitIsMasked(SetBit(w, b), c);
    if b == c {
      OrSame(w, OneShl(63 - b));
    } else {
      OrOther(w, OneShl(63 - b), OneShl(63 - c));
    }
  }

  lemma ClearBitAt(w: Word, b: nat, c: nat)
    requires b < 64 && c < 64
    ensures Bit(ClearBit(w, b), c) <==> b != c && Bit(w, c)
  {
    MasksDisjoint(63 - b, 63 - c);
    BitIsMasked(w, c);
    BitIsMasked(ClearBit(w, b), c);
    if b == c {
      AndNotSame(w, OneShl(63 - b));
    } else {
      AndNotOther(w, OneShl(63 - b), OneShl(63 - c));
    }
  }

  lemma BitsOfChanged(v: Word, w: Word, b: nat, x: bool)
    requires b < 64
    requires forall c: nat :: c < 64 ==> Bit(v, c) == if c == b then x else Bit(w, c)
    ensures Bits(v) == Bits(w)[b := x]
  {
    assert forall c: nat :: c < 64 ==> Bits(v)[c] == Bit(v, c);
  }

  /** Setting one bit changes that bit only. */
  lemma SetBitBits(w: Word, b: nat)
    requires b < 64
    ensures Bits(SetBit(w, b)) == Bits(w)[b := true]
  {
    forall c: nat | c < 64
      ensures Bit(SetBit(w, b), c) == if c == b then true else Bit(w, c)
    {
      SetBitAt(w, b, c);
    }
    BitsOfChanged(SetBit(w, b), w, b, true);
  }

  /** Clearing one bit changes that bit only. */
  lemma ClearBitBits(w: Word, b: nat)
    requires b < 64
    ensures Bits(ClearBit(w, b)) == Bits(w)[b := false]
  {
    forall c: nat | c < 64
      ensures Bit(ClearBit(w, b), c) == if c == b then false else Bit(w, c)
    {
      ClearBitAt(w, b, c);
    }
    BitsOfChanged(ClearBit(w, b), w, b, false);
  }

  lemma ShiftOnesSplit(p: Word)
    requires p < 63
    ensures p + 1 < 64
    ensures Shift(ALL_ONES, p) == Or(Shift(ALL_ONES, p + 1), Shift(1, p))
  {}

  lemma OnesShlSplit(k: nat)
    requires k < 63
    ensures OnesShl(k) == Or(OnesShl(k + 1), OneShl(k))
  {
    ShlIsShift(k);
    ShlIsShift(k + 1);
    PosBelow(k);
    ShiftOnesSplit(Pos(k));
  }

  lemma ShiftTop()
    ensures Shift(ALL_ONES, 63) == Shift(1, 63)
  {}

  lemma LastOnes()
    ensures OnesShl(63) == OneShl(63)
  {
    ShlIsShift(63);
    PosTop();
    ShiftTop();
  }

  lemma MissBoth(w: Word, m: Word, n: Word)
    requires !Hits(w, m) && !Hits(w, n)
    ensures !Hits(w, Or(m, n))
  {}

  lemma {:induction false} HighBitsZero(w: Word, b: nat)
    requires b < 64
    requires forall c: nat :: c <= b ==> !Bit(w, c)
    ensures !Hits(w, OnesShl(63 - b))
  {
    assert !Bit(w, b);
    BitIsMasked(w, b);
    if b == 0 {
      LastOnes();
    } else {
      HighBitsZero(w, b - 1);
      OnesShlSplit(63 - b);
      MissBoth(w, OnesShl(64 - b), OneShl(63 - b));
    }
  }

  lemma ZeroHasNoBits()
    ensures true !in Bits(0)
  {
    forall b: nat | b < 64
      ensures !Bits(0)[b]
    {
      BitIsMasked(0, b);
      HitsUnits(OneShl(63 - b));
    }
  }

  lemma NoBitsIsZero(w: Word)
    requires true !in Bits(w)
    ensures w == 0
  {
    forall c: nat | c <= 63
      ensures !Bit(w, c)
    {
      assert !Bits(w)[c];
    }
    HighBitsZero(w, 63);
    HitsUnits(w);
  }

  /** A word is zero exactly when none of its 64 bits is set. */
  lemma ZeroWord(w: Word)
    ensures w == 0 <==> true !in Bits(w)
  {
    ZeroHasNoBits();
    if true !in Bits(w) {
      NoBitsIsZero(w);
    }
  }

  lemma SetBitNonzero(w: Word, b: nat)
    requires b < 64
    ensures SetBit(w, b) != 0
  {
    SetBitBits(w, b);
    assert Bits(SetBit(w, b))[b];
    ZeroWord(SetBit(w, b));
  }

  lemma ClearBitOfZero(b: nat)
    requires b < 64
    ensures ClearBit(0, b) == 0
  {
    ClearBitBits(0, b);
    ZeroWord(0);
    ZeroWord(ClearBit(0, b));
  }

  /** `__builtin_clzl`: the number of leading zero bits of a nonzero word. */
  function Clz(w: Word): (n: nat)
    requires w != 0
    ensures n < 64 && Bits(w)[n] && true !in Bits(w)[..n]
  {
    ZeroWord(w);
    LeadingZeros(Bits(w))
  }

  function LeadingZeros(s: seq<bool>): (n: nat)
    requires true in s
    ensures n < |s| && s[n] && true !in s[..n]
  {
    if s[0] then 0 else 1 + LeadingZeros(s[1..])
  }

  /** The last word of a layer with `tail` valid bits in it. */
  function TailWord(tail: nat): Word
    requires 0 < tail < 64
  {
    And(ALL_ONES, OnesShl(64 - tail))
  }

  lemma OnesShlBit(k: nat, b: nat)
    requires k < 64 && b < 64
    ensures Bit(OnesShl(k), b) <==> b <= 63 - k
  {
    MasksDisjoint(k, 63 - b);
    BitIsMasked(OnesShl(k), b);
  }

  lemma TailWordIsMask(tail: nat)
    requires 0 < tail < 64
    ensures TailWord(tail) == OnesShl(64 - tail)
  {
    HitsUnits(OnesShl(64 - tail));
  }

  /** The tail mask keeps exactly the first `tail` bits of a word of ones. */
  lemma TailWordBits(tail: nat, b: nat)
    requires 0 < tail < 64 && b < 64
    ensures Bits(TailWord(tail))[b] <==> b < tail
  {
    TailWordIsMask(tail);
    OnesShlBit(64 - tail, b);
  }

  lemma AllOnesBit(b: nat)
    requires b < 64
    ensures Bits(ALL_ONES)[b]
  {
    OnesShlBit(0, b);
  }

  // ----- the mask of `set` as it is written -----

  /**
   The mask `set` computes as written, `1 << (63 - b)` with a 32-bit `int` one,
   on a machine that takes the shift amount modulo 32; the `int` is
   sign-extended when it is or-ed into the 64-bit word.
   */
  function IntMask(b: nat): Word
    requires b < 64
  {
    var s := (63 - b) % 32;
    if s == 31 then 0xFFFF_FFFF_8000_0000 else OneShl(s)
  }

  lemma EqualMasks(j: nat, k: nat)
    requires j < 64 && k < 64
    ensures OneShl(j) == OneShl(k) <==> j == k
  {
    MasksDisjoint(j, k);
    HitsUnits(OneShl(j));
  }

  lemma NotOneBit(p: Word)
    requires p < 64
    ensures Shift(1, p) != 0xFFFF_FFFF_8000_0000
  {}

  /** The mask as written is the intended one exactly for the last 31 bits of a
      word: for bits 0 to 32 it marks some other set of bits. */
  lemma IntMaskCorrectExactly(b: nat)
    requires b < 64
    ensures IntMask(b) == OneShl(63 - b) <==> b >= 33
  {
    ShlIsShift(63 - b);
    NotOneBit(Pos(63 - b));
    EqualMasks((63 - b) % 32, 63 - b);
  }

  /** For a bit `b` that is off: whether the mask as written turns on that bit
      alone. For bits 0 and 32 the mask covers the first 33 bits, which is right
      when the 32 others are on; for bits 1 to 31 it covers some other bit. */
  predicate RightBit(w: Word, b: nat) {
    b >= 33 || ((b == 0 || b == 32) && OthersOn(w, b))
  }

  /** Of the first 33 bits, all but `b` are on. */
  predicate OthersOn(w: Word, b: nat) {
    forall c: nat :: c <= 32 && c != b ==> Bit(w, c)
  }

  lemma OrTopOn(w: Word, m: Word)
    requires TopBit(m)
    ensures TopBit(Or(w, m)) && TopBit(Or(m, w))
  {}

  lemma OrTopOff(w: Word, m: Word)
    requires !TopBit(w) && !TopBit(m)
    ensures !TopBit(Or(w, m))
  {}

  lemma OrTop(w: Word, m: Word)
    ensures TopBit(Or(w, m)) <==> TopBit(w) || TopBit(m)
  {
    if TopBit(m) {
      OrTopOn(w, m);
    } else if TopBit(w) {
      OrTopOn(m, w);
    } else {
      OrTopOff(w, m);
    }
  }

  lemma OrTwice(w: Word, m: Word)
    ensures Twice(Or(w, m)) == Or(Twice(w), Twice(m))
  {}

  lemma {:induction false} OrBit(w: Word, m: Word, b: nat)
    requires b < 64
    ensures Bit(Or(w, m), b) <==> Bit(w, b) || Bit(m, b)
    decreases b
  {
    if b == 0 {
      OrTop(w, m);
    } else {
      OrTwice(w, m);
      OrBit(Twice(w), Twice(m), b - 1);
    }
  }

  lemma TopBitOn(w: Word)
    requires TopBit(w)
    ensures Or(w, 0x8000_0000_0000_0000) == w
  {}

  lemma TwiceAbsorbs(w: Word, m: Word)
    requires !TopBit(m) && Or(Twice(w), Twice(m)) == Twice(w)
    ensures Or(w, m) == w
  {}

  /** A bit that is on already is set to no effect. */
  lemma {:induction false} SetBitOn(w: Word, b: nat)
    requires b < 64 && Bit(w, b)
    ensures SetBit(w, b) == w
    decreases b
  {
    TopMask();
    if b == 0 {
      TopBitOn(w);
    } else {
      SetBitOn(Twice(w), b - 1);
      MasksDisjoint(63 - b, 63);
      TwiceAbsorbs(w, OneShl(63 - b));
    }
  }

  lemma OrAssociates(a: Word, b: Word, c: Word)
    ensures Or(a, Or(b, c)) == Or(Or(a, b), c)
    ensures Or(b, c) == Or(c, b)
  {}

  lemma {:induction false} OnesAbsorbed(w: Word, k: nat)
    requires k < 64 && forall c: nat :: c <= 63 - k ==> Bit(w, c)
    ensures Or(w, OnesShl(k)) == w
    decreases 63 - k
  {
    SetBitOn(w, 63 - k);
    if k < 63 {
      OnesShlSplit(k);
      OnesAbsorbed(w, k + 1);
      OrAssociates(w, OnesShl(k + 1), OneShl(k));
    } else {
      LastOnes();
    }
  }

  lemma ShiftWide()
    ensures Shift(ALL_ONES, 31) == 0xFFFF_FFFF_8000_0000
  {}

  lemma Binary31()
    ensures Binary(3, 7) == 31
  {}

  lemma WideMask()
    ensures OnesShl(31) == 0xFFFF_FFFF_8000_0000
  {
    ShlIsShift(31);
    PosIsBinary(3, 7);
    Binary31();
    ShiftWide();
  }

  lemma WideMaskRight(w: Word, b: nat)
    requires b <= 32 && OthersOn(w, b)
    ensures Or(w, OnesShl(31)) == SetBit(w, b)
  {
    forall c: nat | c <= 32
      ensures Bit(SetBit(w, b), c)
    {
      SetBitAt(w, b, c);
    }
    OnesAbsorbed(SetBit(w, b), 31);
    OnesShlBit(31, b);
    SetBitOn(OnesShl(31), b);
    OrAssociates(w, OneShl(63 - b), OnesShl(31));
  }

  lemma WideMaskWrong(w: Word, b: nat, c: nat)
    requires b <= 32 && c <= 32 && c != b && !Bit(w, c)
    ensures Or(w, OnesShl(31)) != SetBit(w, b)
  {
    SetBitAt(w, b, c);
    OnesShlBit(31, c);
    OrBit(w, OnesShl(31), c);
  }

  lemma OtherBitWrong(w: Word, b: nat, k: nat)
    requires b < 64 && k < 64 && k != 63 - b && !Bit(w, b)
    ensures Or(w, OneShl(k)) != SetBit(w, b)
  {
    SetBitAt(w, b, b);
    MasksDisjoint(k, 63 - b);
    BitIsMasked(OneShl(k), b);
    OrBit(w, OneShl(k), b);
  }

  lemma WideMaskExactly(w: Word, b: nat)
    requires b <= 32
    ensures Or(w, OnesShl(31)) == SetBit(w, b) <==> OthersOn(w, b)
  {
    if !OthersOn(w, b) {
      var c: nat :| c <= 32 && c != b && !Bit(w, c);
      WideMaskWrong(w, b, c);
    } else {
      WideMaskRight(w, b);
    }
  }

  lemma IntMaskIs(b: nat)
    requires b <= 32
    ensures b == 0 || b == 32 ==> IntMask(b) == OnesShl(31)
    ensures 0 < b < 32 ==> IntMask(b) == OneShl(31 - b)
  {
    WideMask();
    assert b > 0 ==> (63 - b) % 32 == if b == 32 then 31 else 31 - b;
  }

  lemma IntMaskRight(w: Word, b: nat)
    requires b < 64 && !Bit(w, b)
    ensures Or(w, IntMask(b)) == SetBit(w, b) <==> RightBit(w, b)
  {
    if b >= 33 {
      IntMaskCorrectExactly(b);
    } else {
      IntMaskIs(b);
      if b == 0 || b == 32 {
        WideMaskExactly(w, b);
      } else {
        OtherBitWrong(w, b, 31 - b);
      }
    }
  }
}
