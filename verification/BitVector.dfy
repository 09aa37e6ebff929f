/** The succinct bit vector with a rank index (`BitVector`). */
module BitVector {
  import opened Bits

  // ---- words as bit strings ----

  predicate Bit(u: nat, k: nat) {
    if k == 0 then u % 2 == 1 else Bit(u / 2, k - 1)
  }

  function And(a: nat, b: nat): nat
    decreases a + b
  {
    if a == 0 && b == 0 then 0
    else 2 * And(a / 2, b / 2) + (if a % 2 == 1 && b % 2 == 1 then 1 else 0)
  }

  function Ones(u: nat): nat {
    if u == 0 then 0 else u % 2 + Ones(u / 2)
  }

  lemma AndStep(a: nat, b: nat)
    ensures And(a, b) / 2 == And(a / 2, b / 2)
    ensures And(a, b) % 2 == (if a % 2 == 1 && b % 2 == 1 then 1 else 0)
  {
  }

  lemma OnesStep(u: nat)
    ensures Ones(u) == u % 2 + Ones(u / 2)
  {
  }

  lemma {:induction false} BitOr(u: nat, k: nat, j: nat)
    ensures Bit(Or(u, Shl(1, k)), j) <==> j == k || Bit(u, j)
    decreases j
  {
    OrSplit2(u, Shl(1, k));
    if k == 0 {
      assert Shl(1, 0) / 2 == 0;
      OrZero(u / 2);
    } else if j > 0 {
      assert Shl(1, k) / 2 == Shl(1, k - 1);
      BitOr(u / 2, k - 1, j - 1);
    }
  }

  // The complement of one bit of an n-bit word.
  function Hole(n: nat, k: nat): nat
    requires k < n
  {
    if k == 0 then 2 * Low(n - 1) else 1 + 2 * Hole(n - 1, k - 1)
  }

  // The word with the n lowest bits set.
  function Low(n: nat): nat {
    if n == 0 then 0 else 1 + 2 * Low(n - 1)
  }

  lemma {:induction false} BitLow(u: nat, n: nat, j: nat)
    requires j < n
    ensures Bit(And(u, Low(n)), j) <==> Bit(u, j)
    decreases n
  {
    hide And;
    AndStep(u, Low(n));
    assert Low(n) == 1 + 2 * Low(n - 1);
    if j > 0 { BitLow(u / 2, n - 1, j - 1); }
  }

  lemma {:induction false} BitClear(u: nat, n: nat, k: nat, j: nat)
    requires k < n && j < n
    ensures Bit(And(u, Hole(n, k)), j) <==> j != k && Bit(u, j)
    decreases n
  {
    hide And;
    AndStep(u, Hole(n, k));
    if j > 0 {
      if k == 0 { BitLow(u / 2, n - 1, j - 1); } else { BitClear(u / 2, n - 1, k - 1, j - 1); }
    }
  }

  // The number of set bits among the n lowest.
  function CountLow(u: nat, n: nat): nat {
    if n == 0 then 0 else u % 2 + CountLow(u / 2, n - 1)
  }

  lemma {:induction false} CountMasked(u: nat, n: nat)
    ensures Ones(And(u, Low(n))) == CountLow(u, n)
    decreases n
  {
    if n == 0 {
      AndZero(u);
    } else {
      AndStep(u, Low(n));
      OnesStep(And(u, Low(n)));
      CountMasked(u / 2, n - 1);
    }
  }

  lemma {:induction false} AndZero(u: nat)
    ensures And(u, 0) == 0
  {
    if u != 0 { AndZero(u / 2); }
  }

  lemma {:induction false} CountLast(u: nat, n: nat)
    ensures CountLow(u, n + 1) == CountLow(u, n) + (if Bit(u, n) then 1 else 0)
    decreases n
  {
    if n > 0 { CountLast(u / 2, n - 1); }
  }

  lemma {:induction false} CountAll(u: nat, n: nat)
    requires u < Shl(1, n)
    ensures CountLow(u, n) == Ones(u)
    decreases n
  {
    OnesStep(u);
    if n > 0 { CountAll(u / 2, n - 1); }
  }

  // ---- pop_count: adjacent bits, then pairs, then nibbles, then bytes are added ----

  function AddPairs(u: nat): nat {
    And(u, 0xAAAAAAAA) / 2 + And(u, 0x55555555)
  }

  function AddNibbles(u: nat): nat {
    And(u, 0xCCCCCCCC) / 4 + And(u, 0x33333333)
  }

  function AddOctets(u: nat): nat {
    And(u / 16 + u, 0x0F0F0F0F)
  }

  function FoldByte(u: nat): nat {
    (u + u / 256) % 0x1_0000_0000
  }

  function FoldHalf(u: nat): nat {
    (u + u / 0x1_0000) % 0x1_0000_0000
  }

  function AddAll(u: nat): nat {
    FoldHalf(FoldByte(u)) % 256
  }

  function PopCount(u: Word): nat {
    AddAll(AddOctets(AddNibbles(AddPairs(u))))
  }

  // Words whose base-4 (16, 256) digits are the numbers of ones of those digits of u.
  function Pairs(u: nat, k: nat): nat {
    if k == 0 then 0 else Ones(u % 4) + 4 * Pairs(u / 4, k - 1)
  }

  function Nibbles(u: nat, k: nat): nat {
    if k == 0 then 0 else Ones(u % 16) + 16 * Nibbles(u / 16, k - 1)
  }

  function Octets(u: nat, k: nat): nat {
    if k == 0 then 0 else Ones(u % 256) + 256 * Octets(u / 256, k - 1)
  }

  // A digit repeated k times in base 4 (16, 256).
  function Rep4(d: nat, k: nat): nat {
    if k == 0 then 0 else d + 4 * Rep4(d, k - 1)
  }

  function Rep16(d: nat, k: nat): nat {
    if k == 0 then 0 else d + 16 * Rep16(d, k - 1)
  }

  function Rep256(d: nat, k: nat): nat {
    if k == 0 then 0 else d + 256 * Rep256(d, k - 1)
  }

  lemma AndJoin4(h: nat, l: nat, h': nat, l': nat)
    requires l < 4 && l' < 4
    ensures And(4 * h + l, 4 * h' + l') == 4 * And(h, h') + And(l, l')
    ensures And(l, l') < 4
  {
    var a, b := 4 * h + l, 4 * h' + l';
    AndStep(a, b);
    AndStep(a / 2, b / 2);
    AndStep(l, l');
    AndStep(l / 2, l' / 2);
    assert a / 2 == 2 * h + l / 2 && b / 2 == 2 * h' + l' / 2;
    assert (a / 2) / 2 == h && (b / 2) / 2 == h';
    assert And((l / 2) / 2, (l' / 2) / 2) == 0;
  }

  lemma OnesJoin4(h: nat, l: nat)
    requires l < 4
    ensures Ones(4 * h + l) == Ones(h) + Ones(l)
    ensures Ones(l) <= 2
  {
    var a := 4 * h + l;
    OnesStep(a);
    OnesStep(a / 2);
    OnesStep(l);
    OnesStep(l / 2);
    assert a / 2 == 2 * h + l / 2 && (a / 2) / 2 == h;
  }

  lemma Digit4(l: nat)
    requires l < 4
    ensures And(l, 2) / 2 + And(l, 1) == Ones(l)
    ensures And(l, 2) % 2 == 0
  {
    AndStep(l, 2);
    AndStep(l / 2, 1);
    AndStep(l, 1);
    AndStep(l / 2, 0);
    OnesStep(l);
    OnesStep(l / 2);
    assert And((l / 2) / 2, 0) == 0;
  }

  lemma {:induction false} PairStage(u: nat, k: nat)
    ensures And(u, Rep4(2, k)) % 2 == 0
    ensures And(u, Rep4(2, k)) / 2 + And(u, Rep4(1, k)) == Pairs(u, k)
    decreases k
  {
    hide And, Ones;
    if k == 0 {
      AndZero(u);
    } else {
      var h, l := u / 4, u % 4;
      PairStage(h, k - 1);
      AndJoin4(h, l, Rep4(2, k - 1), 2);
      AndJoin4(h, l, Rep4(1, k - 1), 1);
      Digit4(l);
      assert u == 4 * h + l;
    }
  }

  lemma AndJoin16(h: nat, l: nat, h': nat, l': nat)
    requires l < 16 && l' < 16
    ensures And(16 * h + l, 16 * h' + l') == 16 * And(h, h') + And(l, l')
    ensures And(l, l') < 16
  {
    hide And;
    AndJoin4(4 * h + l / 4, l % 4, 4 * h' + l' / 4, l' % 4);
    AndJoin4(h, l / 4, h', l' / 4);
    AndJoin4(l / 4, l % 4, l' / 4, l' % 4);
    AndJoin4(0, l / 4, 0, l' / 4);
  }

  lemma And3(x: nat)
    requires x < 4
    ensures And(x, 3) == x && And(x, 0) == 0
  {
    AndZero(x);
    AndStep(x, 3);
    AndStep(x / 2, 1);
    AndZero((x / 2) / 2);
  }

  lemma OnesJoin16(h: nat, l: nat)
    requires l < 16
    ensures Ones(16 * h + l) == Ones(h) + Ones(l)
    ensures Ones(l) == Ones(l % 4) + Ones(l / 4) && Ones(l) <= 4
  {
    hide Ones;
    OnesJoin4(4 * h + l / 4, l % 4);
    OnesJoin4(h, l / 4);
    OnesJoin4(l / 4, l % 4);
  }

  lemma OnesJoin256(h: nat, l: nat)
    requires l < 256
    ensures Ones(256 * h + l) == Ones(h) + Ones(l)
    ensures Ones(l) == Ones(l % 16) + Ones(l / 16) && Ones(l) <= 8
  {
    hide Ones;
    OnesJoin16(16 * h + l / 16, l % 16);
    OnesJoin16(h, l / 16);
    OnesJoin16(l / 16, l % 16);
  }

  // One nibble of two pair sums.
  lemma Nibble(lo: nat, hi: nat)
    requires lo < 4 && hi < 4
    ensures And(4 * hi + lo, 12) == 4 * hi && And(4 * hi + lo, 3) == lo
  {
    hide And;
    AndJoin4(hi, lo, 3, 0);
    AndJoin4(hi, lo, 0, 3);
    And3(hi);
    And3(lo);
  }

  lemma {:induction false} NibbleStage(u: nat, k: nat)
    ensures And(Pairs(u, 2 * k), Rep16(12, k)) % 4 == 0
    ensures And(Pairs(u, 2 * k), Rep16(12, k)) / 4 + And(Pairs(u, 2 * k), Rep16(3, k)) == Nibbles(u, k)
    decreases k
  {
    hide And, Ones;
    if k == 0 {
      AndZero(0);
    } else {
      NibbleStage(u / 16, k - 1);
      var lo, hi, R := Ones(u % 4), Ones((u / 4) % 4), Pairs(u / 16, 2 * (k - 1));
      PairsTwo(u, k);
      OnesPair(u % 4);
      OnesPair((u / 4) % 4);
      OnesDigits(u);
      AndJoin16(R, 4 * hi + lo, Rep16(12, k - 1), 12);
      AndJoin16(R, 4 * hi + lo, Rep16(3, k - 1), 3);
      Nibble(lo, hi);
    }
  }

  lemma OnesPair(l: nat)
    requires l < 4
    ensures Ones(l) <= 2
  {
    hide Ones;
    OnesJoin4(0, l);
  }

  lemma PairsTwo(u: nat, k: nat)
    requires k > 0
    ensures Pairs(u, 2 * k) == Ones(u % 4) + 4 * Ones((u / 4) % 4) + 16 * Pairs(u / 16, 2 * (k - 1))
  {
    hide Ones;
    assert (u / 4) / 4 == u / 16;
    assert Pairs(u, 2 * k) == Ones(u % 4) + 4 * Pairs(u / 4, 2 * k - 1);
    assert Pairs(u / 4, 2 * k - 1) == Ones((u / 4) % 4) + 4 * Pairs((u / 4) / 4, 2 * k - 2);
  }

  lemma Digits16(u: nat)
    ensures (u % 16) % 4 == u % 4 && (u % 16) / 4 == (u / 4) % 4
  {
  }

  lemma Digits256(u: nat)
    ensures (u % 256) % 16 == u % 16 && (u % 256) / 16 == (u / 16) % 16
  {
  }

  lemma OnesNibble(l: nat)
    requires l < 16
    ensures Ones(l) == Ones(l % 4) + Ones(l / 4) && Ones(l) <= 4
  {
    hide Ones;
    OnesJoin16(0, l);
  }

  lemma OnesOctet(l: nat)
    requires l < 256
    ensures Ones(l) == Ones(l % 16) + Ones(l / 16) && Ones(l) <= 8
  {
    hide Ones;
    OnesJoin256(0, l);
  }

  lemma OnesDigits(u: nat)
    ensures Ones(u % 16) == Ones(u % 4) + Ones((u / 4) % 4)
  {
    hide Ones;
    OnesNibble(u % 16);
    Digits16(u);
  }

  lemma OnesTwoNibbles(u: nat)
    ensures Ones(u % 16) <= 4 && Ones((u / 16) % 16) <= 4
    ensures Ones(u % 256) == Ones(u % 16) + Ones((u / 16) % 16)
  {
    hide Ones;
    OnesNibble(u % 16);
    OnesNibble((u / 16) % 16);
    OnesOctet(u % 256);
    Digits256(u);
  }

  lemma NibblesTwo(u: nat, k: nat)
    requires k > 0
    ensures Nibbles(u, 2 * k) == Ones(u % 16) + 16 * Ones((u / 16) % 16) + 256 * Nibbles(u / 256, 2 * (k - 1))
  {
    hide Ones;
    assert (u / 16) / 16 == u / 256;
    assert Nibbles(u, 2 * k) == Ones(u % 16) + 16 * Nibbles(u / 16, 2 * k - 1);
    assert Nibbles(u / 16, 2 * k - 1) == Ones((u / 16) % 16) + 16 * Nibbles((u / 16) / 16, 2 * k - 2);
  }

  lemma NibbleLow(u: nat, k: nat)
    ensures Nibbles(u, k) % 16 <= 4
  {
    hide Ones;
    OnesNibble(u % 16);
    if k > 0 { assert Nibbles(u, k) == Ones(u % 16) + 16 * Nibbles(u / 16, k - 1); }
  }

  lemma Octet(low: nat, high: nat)
    requires low < 16 && high < 16
    ensures And(16 * high + low, 15) == low
  {
    hide And;
    AndJoin16(high, low, 0, 15);
    AndZero(high);
    AndJoin4(low / 4, low % 4, 3, 3);
    And3(low / 4);
    And3(low % 4);
  }

  lemma AndJoin256(h: nat, l: nat, h': nat, l': nat)
    requires l < 256 && l' < 256
    ensures And(256 * h + l, 256 * h' + l') == 256 * And(h, h') + And(l, l')
  {
    hide And;
    AndJoin16(16 * h + l / 16, l % 16, 16 * h' + l' / 16, l' % 16);
    AndJoin16(h, l / 16, h', l' / 16);
    AndJoin16(l / 16, l % 16, l' / 16, l' % 16);
  }

  // How adding a word of nibbles to itself shifted by one nibble splits into octets.
  lemma OctetSum(lo: nat, hi: nat, R: nat)
    requires lo <= 4 && hi <= 4 && R % 16 <= 4
    ensures var v := lo + 16 * hi + 256 * R;
            v / 16 + v == 256 * (R / 16 + R) + (16 * (R % 16 + hi) + (lo + hi))
  {
    var v := lo + 16 * hi + 256 * R;
    assert v / 16 == hi + 16 * R;
    assert R == 16 * (R / 16) + R % 16;
  }

  lemma {:induction false} OctetStage(u: nat, k: nat)
    ensures var v := Nibbles(u, 2 * k); And(v / 16 + v, Rep256(15, k)) == Octets(u, k)
    decreases k
  {
    hide And, Ones, Nibbles;
    if k == 0 {
      AndZero(Nibbles(u, 0) / 16 + Nibbles(u, 0));
    } else {
      OctetStage(u / 256, k - 1);
      var lo, hi, R := Ones(u % 16), Ones((u / 16) % 16), Nibbles(u / 256, 2 * (k - 1));
      NibblesTwo(u, k);
      OnesTwoNibbles(u);
      NibbleLow(u / 256, 2 * (k - 1));
      OctetSum(lo, hi, R);
      var Z := 16 * (R % 16 + hi) + (lo + hi);
      AndJoin256(R / 16 + R, Z, Rep256(15, k - 1), 15);
      Octet(lo + hi, R % 16 + hi);
    }
  }

  // The bytes of the last word are added up.
  lemma AddBytes(b0: nat, b1: nat, b2: nat, b3: nat)
    requires b0 <= 8 && b1 <= 8 && b2 <= 8 && b3 <= 8
    ensures var u3 := b0 + 256 * b1 + 0x1_0000 * b2 + 0x100_0000 * b3;
            AddAll(u3) == b0 + b1 + b2 + b3
  {
    hide FoldByte, FoldHalf;
    FoldByteIs(b0, b1 + 256 * b2 + 0x1_0000 * b3);
    FoldHalfIs((b0 + b1) + 256 * (b1 + b2), (b2 + b3) + 256 * b3);
    DivByte(b0 + b1 + b2 + b3, (b1 + b2) + b3 + 256 * (b2 + b3) + 0x1_0000 * b3);
  }

  lemma FoldByteIs(l: nat, h: nat)
    requires l < 256 && h < 0xF0_0000
    ensures FoldByte(l + 256 * h) == l + 257 * h
  {
    DivByte(l, h);
  }

  lemma FoldHalfIs(l: nat, h: nat)
    requires l < 0x1_0000 && h < 0xF000
    ensures FoldHalf(l + 0x1_0000 * h) == l + 0x1_0001 * h
  {
    DivHalf(l, h);
  }

  lemma DivByte(l: nat, h: nat)
    requires l < 256
    ensures (l + 256 * h) / 256 == h && (l + 256 * h) % 256 == l
  {
  }

  lemma DivHalf(l: nat, h: nat)
    requires l < 0x1_0000
    ensures (l + 0x1_0000 * h) / 0x1_0000 == h
  {
  }

  lemma Octets4(u: Word) returns (b0: nat, b1: nat, b2: nat, b3: nat)
    ensures b0 <= 8 && b1 <= 8 && b2 <= 8 && b3 <= 8
    ensures Octets(u, 4) == b0 + 256 * b1 + 0x1_0000 * b2 + 0x100_0000 * b3
    ensures Ones(u) == b0 + b1 + b2 + b3
  {
    hide Ones, Octets;
    var u1, u2, u3 := u / 256, u / 0x1_0000, u / 0x100_0000;
    assert u1 / 256 == u2 && u2 / 256 == u3 && u3 / 256 == 0 && u3 % 256 == u3;
    b0, b1, b2, b3 := Ones(u % 256), Ones(u1 % 256), Ones(u2 % 256), Ones(u3);
    OctetsStep(u3, 1);
    OctetsStep(u2, 2);
    OctetsStep(u1, 3);
    OctetsStep(u, 4);
    OctetsNone(u3 / 256);
    OnesBytes(u, u1, u2, u3);
  }

  lemma OctetsStep(u: nat, k: nat)
    requires k > 0
    ensures Octets(u, k) == Ones(u % 256) + 256 * Octets(u / 256, k - 1)
  {
  }

  lemma OctetsNone(u: nat)
    ensures Octets(u, 0) == 0
  {
  }

  lemma OnesBytes(u: nat, u1: nat, u2: nat, u3: nat)
    requires u1 == u / 256 && u2 == u1 / 256 && u3 == u2 / 256 && u3 < 256
    ensures Ones(u) == Ones(u % 256) + Ones(u1 % 256) + Ones(u2 % 256) + Ones(u3)
    ensures Ones(u % 256) <= 8 && Ones(u1 % 256) <= 8 && Ones(u2 % 256) <= 8 && Ones(u3) <= 8
  {
    hide Ones;
    OnesSplit(u);
    OnesSplit(u1);
    OnesSplit(u2);
    OnesSplit(u3);
    assert u3 % 256 == u3;
  }

  lemma OnesSplit(u: nat)
    ensures Ones(u) == Ones(u / 256) + Ones(u % 256)
    ensures Ones(u % 256) <= 8
  {
    hide Ones;
    OnesJoin256(u / 256, u % 256);
  }

  lemma Masks4(d: nat)
    requires d == 1 || d == 2
    ensures Rep4(d, 16) == d * 0x55555555
  {
    assert Rep4(d, 1) == d * 0x1;
    assert Rep4(d, 2) == d * 0x5;
    assert Rep4(d, 3) == d * 0x15;
    assert Rep4(d, 4) == d * 0x55;
    assert Rep4(d, 5) == d * 0x155;
    assert Rep4(d, 6) == d * 0x555;
    assert Rep4(d, 7) == d * 0x1555;
    assert Rep4(d, 8) == d * 0x5555;
    assert Rep4(d, 9) == d * 0x15555;
    assert Rep4(d, 10) == d * 0x55555;
    assert Rep4(d, 11) == d * 0x155555;
    assert Rep4(d, 12) == d * 0x555555;
    assert Rep4(d, 13) == d * 0x1555555;
    assert Rep4(d, 14) == d * 0x5555555;
    assert Rep4(d, 15) == d * 0x15555555;
  }

  lemma Masks16(d: nat)
    requires d == 3 || d == 12
    ensures Rep16(d, 8) == d * 0x11111111
  {
    assert Rep16(d, 1) == d * 0x1;
    assert Rep16(d, 2) == d * 0x11;
    assert Rep16(d, 3) == d * 0x111;
    assert Rep16(d, 4) == d * 0x1111;
    assert Rep16(d, 5) == d * 0x11111;
    assert Rep16(d, 6) == d * 0x111111;
    assert Rep16(d, 7) == d * 0x1111111;
  }

  lemma Masks256()
    ensures Rep256(15, 4) == 0x0F0F0F0F
  {
    assert Rep256(15, 1) == 15;
    assert Rep256(15, 2) == 0x0F0F;
    assert Rep256(15, 3) == 0x0F0F0F;
  }

  /** The shift-and-mask population count counts the set bits. */
  lemma PopCountOnes(u: Word)
    ensures PopCount(u) == Ones(u)
  {
    hide And, Ones, Rep4, Rep16, Rep256, Pairs, Nibbles, Octets, AddAll;
    assert AddPairs(u) == Pairs(u, 16) by {
      Masks4(1);
      Masks4(2);
      PairStage(u, 16);
    }
    assert AddNibbles(Pairs(u, 16)) == Nibbles(u, 8) by {
      Masks16(3);
      Masks16(12);
      NibbleStage(u, 8);
    }
    assert AddOctets(Nibbles(u, 8)) == Octets(u, 4) by {
      Masks256();
      OctetStage(u, 4);
    }
    var b0, b1, b2, b3 := Octets4(u);
    AddBytes(b0, b1, b2, b3);
  }

  // ---- counting in sequences ----

  function CountTrue(s: seq<bool>): nat {
    if s == [] then 0 else CountTrue(s[..|s| - 1]) + (if s[|s| - 1] then 1 else 0)
  }

  lemma CountStep(s: seq<bool>, i: nat)
    requires i < |s|
    ensures CountTrue(s[..i + 1]) == CountTrue(s[..i]) + (if s[i] then 1 else 0)
  {
    assert s[..i + 1][..i] == s[..i];
  }

  lemma {:induction false} CountMonotone(s: seq<bool>, i: nat, j: nat)
    requires i <= j <= |s|
    ensures CountTrue(s[..i]) <= CountTrue(s[..j])
    decreases j
  {
    if i < j {
      CountStep(s, j - 1);
      CountMonotone(s, i, j - 1);
    }
  }

  /** rank - 1 numbers the set positions one to one, by increasing position ... */
  lemma RankInjective(s: seq<bool>, i: nat, j: nat)
    requires i < j < |s| && s[i] && s[j]
    ensures 1 <= CountTrue(s[..i + 1]) < CountTrue(s[..j + 1]) <= CountTrue(s)
  {
    hide CountTrue;
    CountStep(s, i);
    CountStep(s, j);
    CountMonotone(s, i + 1, j);
    CountMonotone(s, j + 1, |s|);
    assert s[..|s|] == s;
  }

  lemma RankInRange(s: seq<bool>, i: nat)
    requires i < |s| && s[i]
    ensures 1 <= CountTrue(s[..i + 1]) <= CountTrue(s)
  {
    CountStep(s, i);
    CountMonotone(s, i + 1, |s|);
    assert s[..|s|] == s;
  }

  /** ... and reaches every number below the total. */
  lemma {:induction false} RankOnto(s: seq<bool>, r: nat) returns (i: nat)
    requires r < CountTrue(s)
    ensures i < |s| && s[i] && CountTrue(s[..i + 1]) == r + 1
    decreases |s|
  {
    var n := |s| - 1;
    assert s[..n + 1] == s;
    CountStep(s, n);
    if s[n] && CountTrue(s[..n]) == r {
      i := n;
    } else {
      i := RankOnto(s[..n], r);
      assert s[..n][..i + 1] == s[..i + 1];
    }
  }

  function SumOnes(units: seq<Word>): nat {
    if units == [] then 0 else SumOnes(units[..|units| - 1]) + Ones(units[|units| - 1])
  }

  // The bits of a list of words.
  ghost predicate BitsOf(units: seq<Word>, s: seq<bool>) {
    && |s| <= 32 * |units|
    && forall i :: 0 <= i < |s| ==> (s[i] <==> Bit(units[i / 32], i % 32))
  }

  lemma {:induction false} CountWords(units: seq<Word>, s: seq<bool>, i: nat, k: nat)
    requires BitsOf(units, s) && 32 * i + k <= |s| && k <= 32 && i < |units|
    ensures CountTrue(s[..32 * i + k]) == SumOnes(units[..i]) + CountLow(units[i], k)
    decreases i, k
  {
    hide Bit, Ones, CountLow;
    if k > 0 {
      var p := 32 * i + (k - 1);
      CountWords(units, s, i, k - 1);
      CountStep(s, p);
      CountLast(units[i], k - 1);
      assert p / 32 == i && p % 32 == k - 1;
    } else if i > 0 {
      CountWords(units, s, i - 1, 32);
      WordOnes(units[i - 1]);
      assert units[..i][..i - 1] == units[..i - 1];
      CountNone(units[i]);
    } else {
      CountNone(units[i]);
    }
  }

  lemma CountNone(u: nat)
    ensures CountLow(u, 0) == 0
  {
  }

  lemma WordOnes(u: Word)
    ensures CountLow(u, 32) == Ones(u)
  {
    Shl32();
    CountAll(u, 32);
  }

  lemma Shl32()
    ensures Shl(1, 32) == 0x1_0000_0000
  {
    ShlAdd(1, 8, 8);
    ShlAdd(1, 16, 8);
    ShlAdd(1, 24, 8);
    Shl8(1);
    Shl8(0x100);
    Shl8(0x1_0000);
    Shl8(0x100_0000);
  }

  lemma {:induction false} ShlAdd(h: nat, a: nat, b: nat)
    ensures Shl(h, a + b) == Shl(Shl(h, a), b)
    decreases b
  {
    if b > 0 { ShlAdd(h, a, b - 1); }
  }

  lemma OrWord(a: Word, b: Word)
    ensures Or(a, b) < 0x1_0000_0000
  {
    hide Or;
    Shl32();
    OrJoin(32, 0, a, 0, b);
  }

  lemma {:induction false} AndLess(a: nat, b: nat)
    ensures And(a, b) <= a
    decreases a + b
  {
    if a != 0 || b != 0 { AndLess(a / 2, b / 2); }
  }

  lemma {:induction false} ShlWord(k: nat)
    requires k < 32
    ensures Shl(1, k) < 0x1_0000_0000
  {
    Shl32();
    ShlLess(k, 32);
  }

  lemma {:induction false} ShlLess(a: nat, b: nat)
    requires a < b
    ensures Shl(1, a) < Shl(1, b)
    decreases b
  {
    ShlPositive(b - 1);
    if a < b - 1 { ShlLess(a, b - 1); }
  }

  lemma {:induction false} ShlPositive(a: nat)
    ensures Shl(1, a) >= 1
  {
    if a > 0 { ShlPositive(a - 1); }
  }

  // ---- the class ----

  class BitVector {
    var units: seq<Word>
    var ranks: seq<nat>
    var numOnes: nat
    ghost var bits: seq<bool>
    var size: nat

    ghost predicate Valid()
      reads this
    {
      && size == |bits| && |units| == (size + 31) / 32
      && BitsOf(units, bits)
      && (forall i :: size <= i < 32 * |units| ==> !Bit(units[i / 32], i % 32))
    }

    // The rank index is up to date.
    ghost predicate Built()
      reads this
    {
      && |ranks| == |units|
      && (forall i :: 0 <= i < |units| ==> ranks[i] == SumOnes(units[..i]))
      && numOnes == CountTrue(bits)
    }

    constructor ()
      ensures Valid() && bits == []
    {
      units, ranks, numOnes, bits, size := [], [], 0, [], 0;
    }

    method Get(id: nat) returns (b: bool)
      requires Valid() && id < size
      ensures b == bits[id]
    {
      b := Bit(units[id / 32], id % 32);
    }

    method Append()
      requires Valid()
      modifies this
      ensures Valid() && bits == old(bits) + [false]
    {
      hide Bit;
      if size % 32 == 0 {
        ZeroBits();
        units := units + [0];
      }
      size := size + 1;
      bits := bits + [false];
    }

    method Set(id: nat, bit: bool)
      requires Valid() && id < size
      modifies this
      ensures Valid() && bits == old(bits)[id := bit]
    {
      hide Bit, Or, And, Hole, Shl;
      var w, k := id / 32, id % 32;
      var u := units[w];
      if bit {
        ShlWord(k);
        OrWord(u, Shl(1, k));
        forall j ensures Bit(Or(u, Shl(1, k)), j) <==> j == k || Bit(u, j) { BitOr(u, k, j); }
        units := units[w := Or(u, Shl(1, k))];
      } else {
        AndLess(u, Hole(32, k));
        forall j: nat | j < 32 ensures Bit(And(u, Hole(32, k)), j) <==> j != k && Bit(u, j) { BitClear(u, 32, k, j); }
        units := units[w := And(u, Hole(32, k))];
      }
      bits := bits[id := bit];
      SamePlace(id);
    }

    lemma SamePlace(id: nat)
      ensures forall i: nat :: i / 32 == id / 32 && i % 32 == id % 32 ==> i == id
    {
    }

    lemma ZeroBits()
      ensures forall k: nat :: !Bit(0, k)
    {
      forall k: nat ensures !Bit(0, k) { ZeroBit(k); }
    }

    /** Fills the rank index: the number of ones before each word. */
    method Build()
      requires Valid()
      modifies this`ranks, this`numOnes
      ensures Valid() && Built()
    {
      hide Bit, PopCount, Ones;
      var r := [];
      numOnes := 0;
      var i := 0;
      while i < |units|
        invariant 0 <= i <= |units| && |r| == i
        invariant numOnes == SumOnes(units[..i])
        invariant forall j :: 0 <= j < i ==> r[j] == SumOnes(units[..j])
      {
        PopCountOnes(units[i]);
        assert units[..i + 1][..i] == units[..i];
        r := r + [numOnes];
        numOnes := numOnes + PopCount(units[i]);
        i := i + 1;
      }
      ranks := r;
      assert units[..|units|] == units;
      Total(units, bits);
    }

    /** rank(id) is the number of set bits in positions 0 to id. */
    method Rank(id: nat) returns (r: nat)
      requires Valid() && Built() && id < size
      ensures r == CountTrue(bits[..id + 1])
    {
      hide Bit, PopCount, Ones, And, Low;
      var w, k := id / 32, id % 32;
      AndLess(units[w], Low(k + 1));
      var masked := And(units[w], Low(k + 1));
      r := ranks[w] + PopCount(masked);
      PopCountOnes(masked);
      CountMasked(units[w], k + 1);
      CountWords(units, bits, w, k + 1);
    }
  }

  lemma {:induction false} ZeroBit(k: nat)
    ensures !Bit(0, k)
  {
    if k > 0 { ZeroBit(k - 1); }
  }

  lemma Total(units: seq<Word>, bits: seq<bool>)
    requires BitsOf(units, bits) && |units| == (|bits| + 31) / 32
    requires forall i :: |bits| <= i < 32 * |units| ==> !Bit(units[i / 32], i % 32)
    ensures SumOnes(units) == CountTrue(bits)
  {
    hide Bit, Ones, CountLow, CountTrue;
    if units != [] {
      var w := |units| - 1;
      var k := |bits| - 32 * w;
      CountWords(units, bits, w, k);
      assert bits[..|bits|] == bits && units[..w] == units[..|units| - 1];
      forall j | k <= j < 32 ensures !Bit(units[w], j) {
        var i := 32 * w + j;
        assert i / 32 == w && i % 32 == j;
      }
      CountRest(units[w], k, 32);
      WordOnes(units[w]);
    } else {
      assert bits == [];
      NoBits();
    }
  }

  lemma NoBits()
    ensures CountTrue([]) == 0
  {
  }

  lemma {:induction false} CountRest(u: nat, k: nat, n: nat)
    requires k <= n && forall j :: k <= j < n ==> !Bit(u, j)
    ensures CountLow(u, n) == CountLow(u, k)
    decreases n
  {
    if k < n {
      CountLast(u, n - 1);
      CountRest(u, k, n - 1);
    }
  }
}
