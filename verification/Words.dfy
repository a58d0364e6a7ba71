/**
  32-bit unsigned numbers and their bits, as the hash table's key arithmetic uses
  them. A number is an integer below 2^32; its bits are listed from the lowest up.
 */
module Words {

  const LIMIT := 0x1_0000_0000

  type u32 = x: int | 0 <= x < 0x1_0000_0000

  function Pow2(n: nat): (p: nat)
    ensures p > 0
  {
    if n == 0 then 1 else 2 * Pow2(n - 1)
  }

  function B(b: bool): nat { if b then 1 else 0 }

  /** The number that a list of bits stands for. */
  function Val(w: seq<bool>): (v: nat)
    ensures v < Pow2(|w|)
  {
    if |w| == 0 then 0 else B(w[0]) + 2 * Val(w[1..])
  }

  /** The k lowest bits of n. */
  function Bits(n: nat, k: nat): (w: seq<bool>)
    ensures |w| == k
  {
    if k == 0 then [] else [n % 2 == 1] + Bits(n / 2, k - 1)
  }

  function Word(x: u32): seq<bool> { Bits(x, 32) }

  function Flip(w: seq<bool>): (r: seq<bool>)
    ensures |r| == |w|
    ensures forall i :: 0 <= i < |w| ==> r[i] == w[|w| - 1 - i]
  {
    seq(|w|, i requires 0 <= i < |w| => w[|w| - 1 - i])
  }

  // ------------------------------------------------------------ numbers and bits

  lemma {:induction false} BitsOfVal(w: seq<bool>)
    ensures Bits(Val(w), |w|) == w
  {
    if |w| > 0 {
      BitsOfVal(w[1..]);
      assert Val(w) / 2 == Val(w[1..]) && (Val(w) % 2 == 1) == w[0];
    }
  }

  lemma {:induction false} ValOfBits(n: nat, k: nat)
    requires n < Pow2(k)
    ensures Val(Bits(n, k)) == n
  {
    if k > 0 {
      ValOfBits(n / 2, k - 1);
      assert Bits(n, k)[1..] == Bits(n / 2, k - 1);
    }
  }

  /** Equal numbers have equal bits, and conversely. */
  lemma ValInjective(v: seq<bool>, w: seq<bool>)
    requires |v| == |w| && Val(v) == Val(w)
    ensures v == w
  {
    BitsOfVal(v);
    BitsOfVal(w);
  }

  /** Low bits are remainders and high bits are quotients. */
  lemma {:induction false} Split(w: seq<bool>, a: nat)
    requires a <= |w|
    ensures Val(w) == Val(w[..a]) + Pow2(a) * Val(w[a..])
  {
    if a == 0 {
      assert w[..0] == [] && w[0..] == w;
    } else {
      Split(w[1..], a - 1);
      assert w[1..][..a - 1] == w[..a][1..] && w[1..][a - 1..] == w[a..];
      assert Val(w) == B(w[0]) + 2 * Val(w[1..]);
      assert Val(w[..a]) == B(w[0]) + 2 * Val(w[..a][1..]);
      Distribute(Val(w[..a][1..]), Pow2(a - 1), Val(w[a..]));
    }
  }

  lemma Distribute(x: int, p: int, y: int)
    ensures 2 * (x + p * y) == 2 * x + (2 * p) * y
  {
  }

  lemma DivMod(n: int, p: int, q: int, r: int)
    requires 0 <= r < p && n == r + p * q
    ensures n / p == q && n % p == r
  {
    var d := n / p - q;
    assert p * (n / p) - p * q == p * d;
    assert d >= 1 ==> p * d >= p;
    assert d <= -1 ==> p * d <= -p;
  }

  lemma SplitDivMod(w: seq<bool>, a: nat)
    requires a <= |w|
    ensures Val(w) % Pow2(a) == Val(w[..a]) && Val(w) / Pow2(a) == Val(w[a..])
  {
    Split(w, a);
    DivMod(Val(w), Pow2(a), Val(w[a..]), Val(w[..a]));
  }

  lemma {:induction false} ZeroBits(w: seq<bool>)
    requires forall i :: 0 <= i < |w| ==> !w[i]
    ensures Val(w) == 0
  {
    if |w| > 0 {
      ZeroBits(w[1..]);
    }
  }

  lemma {:induction false} Pow2Add(a: nat, b: nat)
    ensures Pow2(a + b) == Pow2(a) * Pow2(b)
  {
    if a > 0 {
      Pow2Add(a - 1, b);
      Distribute(0, Pow2(a - 1), Pow2(b));
    }
  }

  lemma Pow2At32()
    ensures Pow2(32) == LIMIT && Pow2(31) == 0x8000_0000
  {
    assert Pow2(8) == 256;
    Pow2Add(8, 8);
    Pow2Add(16, 16);
  }

  // ------------------------------------------------------------ the C operators

  /** The number with the given 32 bits. */
  function Number(w: seq<bool>): (x: u32)
    requires |w| == 32
  {
    Pow2At32();
    Val(w)
  }

  function Bit(x: u32, i: nat): bool
    requires i < 32
  {
    Word(x)[i]
  }

  function BitAnd(x: u32, y: u32): u32 {
    Number(seq(32, i requires 0 <= i < 32 => Bit(x, i) && Bit(y, i)))
  }

  function BitOr(x: u32, y: u32): u32 {
    Number(seq(32, i requires 0 <= i < 32 => Bit(x, i) || Bit(y, i)))
  }

  function BitXor(x: u32, y: u32): u32 {
    Number(seq(32, i requires 0 <= i < 32 => Bit(x, i) != Bit(y, i)))
  }

  function Shr(x: u32, k: nat): u32 {
    Number(seq(32, i requires 0 <= i < 32 => i + k < 32 && Bit(x, i + k)))
  }

  function Shl(x: u32, k: nat): u32 {
    Number(seq(32, i requires 0 <= i < 32 => k <= i && Bit(x, i - k)))
  }

  lemma WordOfNumber(w: seq<bool>)
    requires |w| == 32
    ensures Word(Number(w)) == w
  {
    BitsOfVal(w);
  }

  lemma AndBit(x: u32, y: u32, i: nat)
    requires i < 32
    ensures Bit(BitAnd(x, y), i) == (Bit(x, i) && Bit(y, i))
  {
    WordOfNumber(seq(32, i requires 0 <= i < 32 => Bit(x, i) && Bit(y, i)));
  }

  lemma OrBit(x: u32, y: u32, i: nat)
    requires i < 32
    ensures Bit(BitOr(x, y), i) == (Bit(x, i) || Bit(y, i))
  {
    WordOfNumber(seq(32, i requires 0 <= i < 32 => Bit(x, i) || Bit(y, i)));
  }

  lemma XorBit(x: u32, y: u32, i: nat)
    requires i < 32
    ensures Bit(BitXor(x, y), i) == (Bit(x, i) != Bit(y, i))
  {
    WordOfNumber(seq(32, i requires 0 <= i < 32 => Bit(x, i) != Bit(y, i)));
  }

  lemma ShrBit(x: u32, k: nat, i: nat)
    requires i < 32
    ensures Bit(Shr(x, k), i) == (i + k < 32 && Bit(x, i + k))
  {
    WordOfNumber(seq(32, i requires 0 <= i < 32 => i + k < 32 && Bit(x, i + k)));
  }

  lemma ShlBit(x: u32, k: nat, i: nat)
    requires i < 32
    ensures Bit(Shl(x, k), i) == (k <= i && Bit(x, i - k))
  {
    WordOfNumber(seq(32, i requires 0 <= i < 32 => k <= i && Bit(x, i - k)));
  }

  lemma SameBits(x: u32, y: u32)
    requires forall i :: 0 <= i < 32 ==> Bit(x, i) == Bit(y, i)
    ensures x == y
  {
    forall i | 0 <= i < 32
      ensures Word(x)[i] == Word(y)[i]
    {
      assert Bit(x, i) == Bit(y, i);
    }
    assert Word(x) == Word(y);
    Pow2At32();
    ValOfBits(x, 32);
    ValOfBits(y, 32);
  }

  // ------------------------------------------------------------ bit reversal

  /** LockFreeHashTable::reverse, stage by stage. */
  function Reverse(x: u32): u32 {
    var x1 := BitOr(Shr(BitAnd(x, 0xaaaaaaaa), 1), Shl(BitAnd(x, 0x55555555), 1));
    var x2 := BitOr(Shr(BitAnd(x1, 0xcccccccc), 2), Shl(BitAnd(x1, 0x33333333), 2));
    var x3 := BitOr(Shr(BitAnd(x2, 0xf0f0f0f0), 4), Shl(BitAnd(x2, 0x0f0f0f0f), 4));
    var x4 := BitOr(Shr(BitAnd(x3, 0xff00ff00), 8), Shl(BitAnd(x3, 0x00ff00ff), 8));
    BitOr(Shr(x4, 16), Shl(x4, 16))
  }

  /** The k lowest bits of n, from position `at` on, come in runs of `run` equal bits:
      ones where position / run is odd (`high`) or where it is even. */
  predicate InRuns(n: nat, k: nat, at: nat, run: nat, high: bool)
    requires run > 0
  {
    k == 0 || ((n % 2 == 1) == ((at / run % 2 == 1) == high) && InRuns(n / 2, k - 1, at + 1, run, high))
  }

  lemma {:induction false} RunsAt(n: nat, k: nat, at: nat, run: nat, high: bool, i: nat)
    requires run > 0 && InRuns(n, k, at, run, high) && i < k
    ensures Bits(n, k)[i] == (((at + i) / run % 2 == 1) == high)
  {
    if i > 0 {
      RunsAt(n / 2, k - 1, at + 1, run, high, i - 1);
    }
  }

  /** The position that trades places with i when neighbouring runs are exchanged. */
  function Partner(i: nat, run: nat): int
    requires run > 0
  {
    if i / run % 2 == 0 then i + run else i - run
  }

  function Stage(x: u32, hi: u32, lo: u32, run: nat): u32 {
    BitOr(Shr(BitAnd(x, hi), run), Shl(BitAnd(x, lo), run))
  }

  lemma StageHigh(x: u32, hi: u32, run: nat, i: nat)
    requires run in {1, 2, 4, 8} && i < 32 && InRuns(hi, 32, 0, run, true)
    ensures Bit(Shr(BitAnd(x, hi), run), i) == (i / run % 2 == 0 && i + run < 32 && Bit(x, i + run))
  {
    ShrBit(BitAnd(x, hi), run, i);
    if i + run < 32 {
      AndBit(x, hi, i + run);
      RunsAt(hi, 32, 0, run, true, i + run);
      NextRun(i, run);
    }
  }

  lemma StageLow(x: u32, lo: u32, run: nat, i: nat)
    requires run in {1, 2, 4, 8} && i < 32 && InRuns(lo, 32, 0, run, false)
    ensures Bit(Shl(BitAnd(x, lo), run), i) == (i / run % 2 == 1 && run <= i && Bit(x, i - run))
  {
    hide Bits, Val, Pow2;
    ShlBit(BitAnd(x, lo), run, i);
    if run <= i {
      AndBit(x, lo, i - run);
      RunsAt(lo, 32, 0, run, false, i - run);
      NextRun(i - run, run);
    }
  }

  lemma NextRun(i: nat, run: nat)
    requires run in {1, 2, 4, 8}
    ensures (i + run) / run == i / run + 1
  {
  }

  /** One stage of the reversal, with complementary masks: runs change places. */
  lemma StageBit(x: u32, hi: u32, lo: u32, run: nat, i: nat)
    requires run in {1, 2, 4, 8} && i < 32
    requires InRuns(hi, 32, 0, run, true) && InRuns(lo, 32, 0, run, false)
    ensures 0 <= Partner(i, run) < 32 && Bit(Stage(x, hi, lo, run), i) == Bit(x, Partner(i, run))
  {
    OrBit(Shr(BitAnd(x, hi), run), Shl(BitAnd(x, lo), run), i);
    StageHigh(x, hi, run, i);
    StageLow(x, lo, run, i);
    PartnerRange(i, run);
  }

  lemma PartnerRange(i: nat, run: nat)
    requires run in {1, 2, 4, 8, 16} && i < 32
    ensures 0 <= Partner(i, run) < 32
  {
  }

  lemma LastStageBit(x: u32, i: nat)
    requires i < 32
    ensures 0 <= Partner(i, 16) < 32 && Bit(BitOr(Shr(x, 16), Shl(x, 16)), i) == Bit(x, Partner(i, 16))
  {
    OrBit(Shr(x, 16), Shl(x, 16), i);
    ShrBit(x, 16, i);
    ShlBit(x, 16, i);
  }

  lemma {:induction false} RunsAppend(p: nat, q: nat, a: nat, b: nat, at: nat, run: nat, high: bool)
    requires run > 0 && p < Pow2(a) && InRuns(p, a, at, run, high) && InRuns(q, b, at + a, run, high)
    ensures InRuns(p + Pow2(a) * q, a + b, at, run, high)
  {
    if a > 0 {
      RunsAppend(p / 2, q, a - 1, b, at + 1, run, high);
      Distribute(p / 2, Pow2(a - 1), q);
      assert (p + Pow2(a) * q) / 2 == p / 2 + Pow2(a - 1) * q;
    }
  }

  lemma {:induction false} RunsShift(p: nat, a: nat, at: nat, run: nat, high: bool)
    requires run in {1, 2, 4, 8} && InRuns(p, a, at, run, high)
    ensures InRuns(p, a, at + 16, run, high)
  {
    if a > 0 {
      RunsShift(p / 2, a - 1, at + 1, run, high);
      ShiftParity(at, run);
    }
  }

  lemma ShiftParity(at: nat, run: nat)
    requires run in {1, 2, 4, 8}
    ensures (at + 16) / run % 2 == at / run % 2
  {
    if run == 1 {
      assert (at + 16) / 1 == at / 1 + 16;
    } else if run == 2 {
      assert (at + 16) / 2 == at / 2 + 8;
    } else if run == 4 {
      assert (at + 16) / 4 == at / 4 + 4;
    } else {
      assert (at + 16) / 8 == at / 8 + 2;
    }
  }

  /** A mask whose two halves are the same 16 bits. */
  lemma Halves(half: nat, run: nat, high: bool)
    requires run in {1, 2, 4, 8} && half < 0x1_0000 && InRuns(half, 16, 0, run, high)
    ensures InRuns(half + 0x1_0000 * half, 32, 0, run, high)
  {
    assert Pow2(8) == 256;
    Pow2Add(8, 8);
    RunsShift(half, 16, 0, run, high);
    RunsAppend(half, half, 16, 16, 0, run, high);
  }

  lemma Masks1()
    ensures InRuns(0xaaaaaaaa, 32, 0, 1, true) && InRuns(0x55555555, 32, 0, 1, false)
  {
    Mask1High();
    Mask1Low();
  }

  lemma Mask1High()
    ensures InRuns(0xaaaaaaaa, 32, 0, 1, true)
  {
    assert InRuns(0xa, 4, 12, 1, true);
    assert InRuns(0xaa, 8, 8, 1, true);
    assert InRuns(0xaaa, 12, 4, 1, true);
    Halves(0xaaaa, 1, true);
  }

  lemma Mask1Low()
    ensures InRuns(0x55555555, 32, 0, 1, false)
  {
    hide Pow2;
    assert InRuns(0x5, 4, 12, 1, false);
    assert InRuns(0x55, 8, 8, 1, false);
    assert InRuns(0x555, 12, 4, 1, false);
    Halves(0x5555, 1, false);
  }

  lemma Masks2()
    ensures InRuns(0xcccccccc, 32, 0, 2, true) && InRuns(0x33333333, 32, 0, 2, false)
  {
    assert InRuns(0xc, 4, 12, 2, true);
    assert InRuns(0xcc, 8, 8, 2, true);
    assert InRuns(0xccc, 12, 4, 2, true);
    Halves(0xcccc, 2, true);
    assert InRuns(0x3, 4, 12, 2, false);
    assert InRuns(0x33, 8, 8, 2, false);
    assert InRuns(0x333, 12, 4, 2, false);
    Halves(0x3333, 2, false);
  }

  lemma Masks4()
    ensures InRuns(0xf0f0f0f0, 32, 0, 4, true) && InRuns(0x0f0f0f0f, 32, 0, 4, false)
  {
    assert InRuns(0xf, 4, 12, 4, true);
    assert InRuns(0xf0, 8, 8, 4, true);
    assert InRuns(0xf0f, 12, 4, 4, true);
    Halves(0xf0f0, 4, true);
    assert InRuns(0x0, 4, 12, 4, false);
    assert InRuns(0xf, 8, 8, 4, false);
    assert InRuns(0xf0, 12, 4, 4, false);
    Halves(0x0f0f, 4, false);
  }

  lemma Masks8()
    ensures InRuns(0xff00ff00, 32, 0, 8, true) && InRuns(0x00ff00ff, 32, 0, 8, false)
  {
    assert InRuns(0xf, 4, 12, 8, true);
    assert InRuns(0xff, 8, 8, 8, true);
    assert InRuns(0xff0, 12, 4, 8, true);
    Halves(0xff00, 8, true);
    assert InRuns(0x0, 4, 12, 8, false);
    assert InRuns(0x0, 8, 8, 8, false);
    assert InRuns(0xf, 12, 4, 8, false);
    Halves(0x00ff, 8, false);
  }

  lemma PartnerFlips(hi: nat, bit: nat, lo: nat, run: nat)
    requires bit < 2 && lo < run
    ensures var i := (2 * hi + bit) * run + lo;
            Partner(i, run) == if bit == 0 then i + run else i - run
  {
    DivMod((2 * hi + bit) * run + lo, run, 2 * hi + bit, lo);
  }

  /** The five exchanges together complement the five bits of a position. */
  lemma PartnersOfBits(a: nat, b: nat, c: nat, d: nat, e: nat)
    requires a < 2 && b < 2 && c < 2 && d < 2 && e < 2
    ensures var i := 16 * a + 8 * b + 4 * c + 2 * d + e;
            && 0 <= Partner(i, 16) && 0 <= Partner(Partner(i, 16), 8)
            && 0 <= Partner(Partner(Partner(i, 16), 8), 4) && 0 <= Partner(Partner(Partner(Partner(i, 16), 8), 4), 2)
            && Partner(Partner(Partner(Partner(Partner(i, 16), 8), 4), 2), 1) == 31 - i
  {
    hide Partner;
    PartnerFlips(0, a, 8 * b + 4 * c + 2 * d + e, 16);
    PartnerFlips(1 - a, b, 4 * c + 2 * d + e, 8);
    PartnerFlips(3 - 2 * a - b, c, 2 * d + e, 4);
    PartnerFlips(7 - 4 * a - 2 * b - c, d, e, 2);
    PartnerFlips(15 - 8 * a - 4 * b - 2 * c - d, e, 0, 1);
  }

  lemma PartnersReverse(i: nat)
    requires i < 32
    ensures 0 <= Partner(i, 16) && 0 <= Partner(Partner(i, 16), 8)
    ensures 0 <= Partner(Partner(Partner(i, 16), 8), 4) && 0 <= Partner(Partner(Partner(Partner(i, 16), 8), 4), 2)
    ensures Partner(Partner(Partner(Partner(Partner(i, 16), 8), 4), 2), 1) == 31 - i
  {
    hide Partner;
    PartnersOfBits(i / 16, i / 8 % 2, i / 4 % 2, i / 2 % 2, i % 2);
  }

  /** The masked shifts reverse the 32 bits. */
  lemma ReverseBit(x: u32, i: nat)
    requires i < 32
    ensures Bit(Reverse(x), i) == Bit(x, 31 - i)
  {
    Masks1();
    Masks2();
    Masks4();
    Masks8();
    var x1 := Stage(x, 0xaaaaaaaa, 0x55555555, 1);
    var x2 := Stage(x1, 0xcccccccc, 0x33333333, 2);
    var x3 := Stage(x2, 0xf0f0f0f0, 0x0f0f0f0f, 4);
    var x4 := Stage(x3, 0xff00ff00, 0x00ff00ff, 8);
    LastStageBit(x4, i);
    StageBit(x3, 0xff00ff00, 0x00ff00ff, 8, Partner(i, 16));
    StageBit(x2, 0xf0f0f0f0, 0x0f0f0f0f, 4, Partner(Partner(i, 16), 8));
    StageBit(x1, 0xcccccccc, 0x33333333, 2, Partner(Partner(Partner(i, 16), 8), 4));
    StageBit(x, 0xaaaaaaaa, 0x55555555, 1, Partner(Partner(Partner(Partner(i, 16), 8), 4), 2));
    PartnersReverse(i);
  }

  // -------------------------------------------------- what the reversal computes

  /** The number whose bits are those of x in the opposite order. */
  function Mirror(x: u32): u32 { Number(Flip(Word(x))) }

  lemma MirrorWord(x: u32)
    ensures Word(Mirror(x)) == Flip(Word(x))
  {
    WordOfNumber(Flip(Word(x)));
  }

  lemma MirrorBit(x: u32, i: nat)
    requires i < 32
    ensures Bit(Mirror(x), i) == Bit(x, 31 - i)
  {
    MirrorWord(x);
  }

  /** The masked shifts compute the mirror image. */
  lemma ReverseIsMirror(x: u32)
    ensures Reverse(x) == Mirror(x)
  {
    forall i | 0 <= i < 32
      ensures Bit(Reverse(x), i) == Bit(Mirror(x), i)
    {
      ReverseBit(x, i);
      MirrorBit(x, i);
    }
    SameBits(Reverse(x), Mirror(x));
  }

  /** Mirroring undoes itself. */
  lemma MirrorTwice(x: u32)
    ensures Mirror(Mirror(x)) == x
  {
    forall i | 0 <= i < 32
      ensures Bit(Mirror(Mirror(x)), i) == Bit(x, i)
    {
      MirrorBit(Mirror(x), i);
      MirrorBit(x, 31 - i);
    }
    SameBits(Mirror(Mirror(x)), x);
  }

  lemma ReverseTwice(x: u32)
    ensures Reverse(Reverse(x)) == x
  {
    ReverseIsMirror(x);
    ReverseIsMirror(Reverse(x));
    MirrorTwice(x);
  }
}
