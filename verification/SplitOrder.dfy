/** The split-ordered keys of lock_free_hash_table.cpp: how a bucket's keys lie
    together in the list, each bucket behind its dummy. */
module SplitOrder {
  import opened Words

  const MSB: u32 := 0x8000_0000

  /** reverseRegularKey: the top bit is set before reversing. */
  function ReverseRegularKey(k: u32): u32 { Reverse(BitOr(k, Shl(1, 31))) }

  /** reverseDummyKey. */
  function ReverseDummyKey(b: u32): u32 { Reverse(b) }

  /** The list key of k: the mirror image of its 31 low bits under a set top bit. */
  function RegularKey(k: u32): u32 { Mirror(MSB + k % MSB) }

  /** The list key of bucket b's dummy node. */
  function DummyKey(b: u32): u32 { Mirror(b) }

  /** Position of the highest set bit. */
  function TopBit(x: nat): (i: nat)
    requires x > 0
    ensures Pow2(i) <= x < Pow2(i + 1)
  {
    if x == 1 then 0 else 1 + TopBit(x / 2)
  }

  /** What __builtin_clz returns; its argument must not be zero. */
  function Clz(x: u32): (n: int)
    requires x > 0
    ensures n <= 31
  {
    31 - TopBit(x)
  }

  function GetParent(b: u32): u32
    requires b > 0
  {
    BitXor(b, Shl(1, 8 * 4 - 1 - Clz(b)))
  }

  // ----------------------------------------------------------------- bits of keys

  lemma OneShifted(i: nat)
    requires i < 32
    ensures forall j :: 0 <= j < 32 ==> Bit(Shl(1, i), j) == (j == i)
  {
    forall j | 0 <= j < 32
      ensures Bit(Shl(1, i), j) == (j == i)
    {
      ShlBit(1, i, j);
      if i <= j {
        BitsOfOne(j - i);
      }
    }
  }

  lemma BitsOfOne(j: nat)
    requires j < 32
    ensures Bit(1, j) == (j == 0)
  {
    OneOfOne(32, j);
  }

  lemma OneOfOne(k: nat, j: nat)
    requires j < k
    ensures Bits(1, k)[j] == (j == 0)
  {
    if j > 0 {
      assert Bits(1, k)[j] == Bits(0, k - 1)[j - 1];
      ZerosOfZero(k - 1, j - 1);
    }
  }

  lemma {:induction false} ZerosOfZero(k: nat, j: nat)
    requires j < k
    ensures !Bits(0, k)[j]
  {
    if j > 0 {
      ZerosOfZero(k - 1, j - 1);
    }
  }

  /** Reading a word back as a number. */
  lemma NumberOfWord(x: u32)
    ensures |Word(x)| == 32 && Val(Word(x)) == x
  {
    Pow2At32();
    ValOfBits(x, 32);
  }

  lemma NoQuotient(n: nat, r: nat, p: nat, q: nat)
    requires n == r + p * q && n < p
    ensures q == 0 && r == n
  {
    assert q >= 1 ==> p * q >= p;
  }

  /** A number below 2^i has only zeros from position i on. */
  lemma SmallWord(b: u32, i: nat)
    requires i <= 32 && b < Pow2(i)
    ensures Val(Word(b)[..i]) == b && (forall j :: i <= j < 32 ==> !Bit(b, j))
  {
    var w := Word(b);
    NumberOfWord(b);
    Split(w, i);
    NoQuotient(b, Val(w[..i]), Pow2(i), Val(w[i..]));
    NonZero(w[i..]);
    forall j | i <= j < 32
      ensures !Bit(b, j)
    {
      assert w[i..][j - i] == w[j];
    }
  }

  lemma {:induction false} NonZero(w: seq<bool>)
    requires Val(w) == 0
    ensures forall i :: 0 <= i < |w| ==> !w[i]
  {
    if |w| > 0 {
      NonZero(w[1..]);
      assert forall i :: 1 <= i < |w| ==> w[i] == w[1..][i - 1];
    }
  }

  lemma TaggedWord(k: u32)
    ensures forall j :: 0 <= j < 32 ==> Bit(BitOr(k, Shl(1, 31)), j) == (j == 31 || Bit(k, j))
  {
    OneShifted(31);
    forall j | 0 <= j < 32
      ensures Bit(BitOr(k, Shl(1, 31)), j) == (j == 31 || Bit(k, j))
    {
      OrBit(k, Shl(1, 31), j);
    }
  }

  lemma LowBit(x: u32)
    ensures Bit(x, 0) == (x % 2 == 1)
  {
  }

  /** A word with bit 31 set is at least 2^31, and conversely. */
  lemma TopBitSet(m: u32)
    ensures Bit(m, 31) == (m >= MSB)
  {
    NumberOfWord(m);
    assert Pow2(31) == MSB by { Pow2At32(); }
    Split(Word(m), 31);
    assert Word(m)[31..] == [Bit(m, 31)];
  }

  lemma TaggedLow(k: u32)
    ensures BitOr(k, Shl(1, 31)) % Pow2(31) == k % Pow2(31)
  {
    hide Val, Pow2;
    var m := BitOr(k, Shl(1, 31));
    TaggedWord(k);
    NumberOfWord(k);
    NumberOfWord(m);
    SplitDivMod(Word(k), 31);
    SplitDivMod(Word(m), 31);
    forall j | 0 <= j < 31
      ensures Word(m)[j] == Word(k)[j]
    {
      assert Word(m)[j] == Bit(m, j) && Word(k)[j] == Bit(k, j);
    }
    assert Word(m)[..31] == Word(k)[..31];
  }

  lemma TopAndLow(m: u32, k: u32)
    requires m % Pow2(31) == k % Pow2(31) && Bit(m, 31)
    ensures m == MSB + k % MSB
  {
    assert Pow2(31) == MSB by { Pow2At32(); }
    TopBitSet(m);
  }

  lemma Tagged(k: u32)
    ensures BitOr(k, Shl(1, 31)) == MSB + k % MSB
  {
    TaggedLow(k);
    TaggedWord(k);
    TopAndLow(BitOr(k, Shl(1, 31)), k);
  }

  /** What the program computes as keys. */
  lemma ProgramKeys(k: u32)
    ensures ReverseRegularKey(k) == RegularKey(k) && ReverseDummyKey(k) == DummyKey(k)
  {
    Tagged(k);
    ReverseIsMirror(BitOr(k, Shl(1, 31)));
    ReverseIsMirror(k);
  }

  /** Regular keys are odd and dummy keys are even, so the two never collide. */
  lemma Parity(k: u32, b: u32)
    requires b < MSB
    ensures RegularKey(k) % 2 == 1 && DummyKey(b) % 2 == 0
  {
    TopBitSet(MSB + k % MSB);
    MirrorBit(MSB + k % MSB, 0);
    LowBit(RegularKey(k));
    TopBitSet(b);
    MirrorBit(b, 0);
    LowBit(DummyKey(b));
  }

  // -------------------------------------------------------------- buckets as ranges

  /** The i lowest bits of a word, reversed, are the high part of the reversed word. */
  lemma HighPart(x: u32, i: nat)
    requires i <= 32
    ensures Mirror(x) / Pow2(32 - i) == Val(Flip(Word(x)[..i]))
  {
    MirrorWord(x);
    NumberOfWord(Mirror(x));
    SplitDivMod(Word(Mirror(x)), 32 - i);
    assert Flip(Word(x))[32 - i..] == Flip(Word(x)[..i]);
  }

  lemma LowPartZero(b: u32, i: nat)
    requires i <= 32 && b < Pow2(i)
    ensures Mirror(b) % Pow2(32 - i) == 0
  {
    hide Val, Pow2;
    SmallWord(b, i);
    MirrorWord(b);
    NumberOfWord(Mirror(b));
    SplitDivMod(Word(Mirror(b)), 32 - i);
    var low := Flip(Word(b))[..32 - i];
    forall j | 0 <= j < |low|
      ensures !low[j]
    {
      assert low[j] == Bit(b, 31 - j);
    }
    ZeroBits(low);
  }

  /** Two words agree on their i lowest bits exactly when their reversals agree on
      their high parts. */
  lemma SameHighPart(x: u32, y: u32, i: nat)
    requires i <= 32
    ensures Mirror(x) / Pow2(32 - i) == Mirror(y) / Pow2(32 - i) <==> x % Pow2(i) == y % Pow2(i)
  {
    hide Val, Pow2;
    HighPart(x, i);
    HighPart(y, i);
    NumberOfWord(x);
    NumberOfWord(y);
    SplitDivMod(Word(x), i);
    SplitDivMod(Word(y), i);
    var a, b := Word(x)[..i], Word(y)[..i];
    if Val(Flip(a)) == Val(Flip(b)) {
      ValInjective(Flip(a), Flip(b));
      forall j | 0 <= j < i
        ensures a[j] == b[j]
      {
        assert Flip(a)[i - 1 - j] == Flip(b)[i - 1 - j];
      }
      assert a == b;
    }
    if Val(a) == Val(b) {
      ValInjective(a, b);
    }
  }

  lemma SameQuotient(r: nat, d: nat, p: nat)
    requires p > 0 && d % p == 0
    ensures r / p == d / p <==> d <= r < d + p
  {
    if d <= r < d + p {
      DivMod(r, p, d / p, r - d);
    } else {
      assert r == p * (r / p) + r % p && d == p * (d / p);
    }
  }

  lemma MsbLow(k: u32, i: nat)
    requires i <= 31
    ensures (MSB + k % MSB) % Pow2(i) == k % Pow2(i)
  {
    assert MSB == Pow2(i) * Pow2(31 - i) by {
      Pow2Add(i, 31 - i);
      Pow2At32();
    }
    SameRemainder(k, k % MSB, Pow2(i), Pow2(31 - i), k / MSB);
    SameRemainder(MSB + k % MSB, k % MSB, Pow2(i), Pow2(31 - i), 1);
  }

  lemma SameRemainder(n: nat, m: nat, p: nat, q: nat, c: nat)
    requires p > 0 && n == (p * q) * c + m
    ensures n % p == m % p
  {
    assert (p * q) * c == p * (q * c);
    assert n == m % p + p * (q * c + m / p);
    DivMod(n, p, q * c + m / p, m % p);
  }

  lemma BucketQuotient(k: u32, b: u32, i: nat)
    requires i <= 31 && b < Pow2(i)
    ensures RegularKey(k) / Pow2(32 - i) == DummyKey(b) / Pow2(32 - i) <==> k % Pow2(i) == b
  {
    SameHighPart(MSB + k % MSB, b, i);
    MsbLow(k, i);
    SmallModulus(b, Pow2(i));
  }

  lemma SmallModulus(b: nat, p: nat)
    requires b < p
    ensures b % p == b
  {
  }

  /** The split order: a key belongs to bucket b of a table of 2^i buckets exactly when
      its list key falls strictly inside the range that starts at b's dummy key. */
  lemma BucketRange(k: u32, b: u32, i: nat)
    requires i <= 31 && b < Pow2(i)
    ensures k % Pow2(i) == b <==> DummyKey(b) < RegularKey(k) < DummyKey(b) + Pow2(32 - i)
  {
    BucketQuotient(k, b, i);
    LowPartZero(b, i);
    SameQuotient(RegularKey(k), DummyKey(b), Pow2(32 - i));
    assert b < MSB by {
      Pow2At32();
      Pow2Monotone(i, 31);
    }
    Parity(k, b);
  }

  lemma {:induction false} Pow2Monotone(a: nat, b: nat)
    requires a <= b
    ensures Pow2(a) <= Pow2(b)
  {
    if a < b {
      Pow2Monotone(a, b - 1);
    }
  }

  /** Two keys share a list key exactly when they agree below their top bit. */
  lemma RegularInjective(k: u32, m: u32)
    ensures RegularKey(k) == RegularKey(m) <==> k % MSB == m % MSB
  {
    MirrorTwice(MSB + k % MSB);
    MirrorTwice(MSB + m % MSB);
  }

  // --------------------------------------------------------------------- parents

  lemma ClearTop(b: u32)
    requires b > 0
    ensures TopBit(b) < 32 && Clz(b) >= 0
    ensures Bit(b, TopBit(b)) && forall j :: TopBit(b) < j < 32 ==> !Bit(b, j)
  {
    hide Val, Pow2;
    var i := TopBit(b);
    Pow2At32();
    if i >= 32 {
      Pow2Monotone(32, i);
    }
    SmallWord(b, i + 1);
    NumberOfWord(b);
    SplitDivMod(Word(b), i);
    if !Bit(b, i) {
      forall j | 0 <= j < 32 - i
        ensures !Word(b)[i..][j]
      {
        assert Word(b)[i..][j] == Bit(b, i + j);
      }
      ZeroBits(Word(b)[i..]);
    }
  }

  /** The parent index drops the highest set bit. */
  lemma ParentBits(b: u32)
    requires b > 0
    ensures forall j :: 0 <= j < 32 ==> Bit(GetParent(b), j) == (j != TopBit(b) && Bit(b, j))
  {
    ClearTop(b);
    var i := TopBit(b);
    OneShifted(i);
    forall j | 0 <= j < 32
      ensures Bit(GetParent(b), j) == (j != i && Bit(b, j))
    {
      XorBit(b, Shl(1, i), j);
    }
  }

  /** Clearing a set bit at position i takes away 2^i. */
  lemma {:induction false} ClearedBit(v: seq<bool>, w: seq<bool>, i: nat)
    requires i < |v| == |w| && v[i] && !w[i] && forall j :: 0 <= j < |v| && j != i ==> w[j] == v[j]
    ensures Val(v) == Val(w) + Pow2(i)
  {
    if i == 0 {
      assert v[1..] == w[1..];
    } else {
      ClearedBit(v[1..], w[1..], i - 1);
    }
  }

  lemma ParentWord(b: u32)
    requires b > 0
    ensures TopBit(b) < 32 && Word(b)[TopBit(b)] && !Word(GetParent(b))[TopBit(b)]
    ensures forall j :: 0 <= j < 32 && j != TopBit(b) ==> Word(GetParent(b))[j] == Word(b)[j]
  {
    ClearTop(b);
    ParentBits(b);
    forall j | 0 <= j < 32
      ensures Word(GetParent(b))[j] == (j != TopBit(b) && Word(b)[j])
    {
      assert Word(GetParent(b))[j] == Bit(GetParent(b), j) && Word(b)[j] == Bit(b, j);
    }
  }

  /** The parent of a bucket is the bucket without its highest set bit, */
  lemma ParentIndex(b: u32)
    requires b > 0
    ensures TopBit(b) < 32 && GetParent(b) == b - Pow2(TopBit(b)) < b
  {
    ParentWord(b);
    NumberOfWord(b);
    NumberOfWord(GetParent(b));
    ClearedBit(Word(b), Word(GetParent(b)), TopBit(b));
  }

  lemma FlippedClear(b: u32)
    requires b > 0
    ensures TopBit(b) < 32
    ensures Val(Flip(Word(b))) == Val(Flip(Word(GetParent(b)))) + Pow2(31 - TopBit(b))
  {
    ParentWord(b);
    ClearedBit(Flip(Word(b)), Flip(Word(GetParent(b))), 31 - TopBit(b));
  }

  /** ... and its dummy key is the smaller one. */
  lemma ParentDummy(b: u32)
    requires b > 0
    ensures TopBit(b) < 32 && DummyKey(GetParent(b)) == DummyKey(b) - Pow2(31 - TopBit(b))
  {
    FlippedClear(b);
  }
}
