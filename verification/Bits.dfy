/** Bit-level arithmetic on natural numbers, as the C++ code performs it on
    32-bit identifiers.  `Xor` and `Or` are defined bit by bit; the lemmas give
    the group laws of `Xor` and its locality within a block of 256 ids. */
module Bits {

  type Byte = x: nat | x < 256

  type Word = x: nat | x < 0x1_0000_0000

  function Xor(a: nat, b: nat): nat
    decreases a + b
  {
    if a == 0 && b == 0 then 0
    else 2 * Xor(a / 2, b / 2) + (if a % 2 == b % 2 then 0 else 1)
  }

  function Or(a: nat, b: nat): nat
    decreases a + b
  {
    if a == 0 && b == 0 then 0
    else 2 * Or(a / 2, b / 2) + (if a % 2 == 0 && b % 2 == 0 then 0 else 1)
  }

  lemma {:induction false} XorZero(a: nat)
    ensures Xor(a, 0) == a
    ensures Xor(0, a) == a
  {
    if a != 0 { XorZero(a / 2); }
  }

  lemma {:induction false} XorSelf(a: nat)
    ensures Xor(a, a) == 0
  {
    if a != 0 { XorSelf(a / 2); }
  }

  lemma {:induction false} XorComm(a: nat, b: nat)
    ensures Xor(a, b) == Xor(b, a)
    decreases a + b
  {
    if a != 0 || b != 0 { XorComm(a / 2, b / 2); }
  }

  // One unfolding of Xor, valid also when both arguments are zero.
  lemma XorStep(a: nat, b: nat)
    ensures Xor(a, b) / 2 == Xor(a / 2, b / 2)
    ensures Xor(a, b) % 2 == (if a % 2 == b % 2 then 0 else 1)
  {
  }

  lemma {:induction false} XorAssoc(a: nat, b: nat, c: nat)
    ensures Xor(Xor(a, b), c) == Xor(a, Xor(b, c))
    decreases a + b + c
  {
    if a == 0 && b == 0 {
      XorZero(c);
    } else if b == 0 && c == 0 {
      XorZero(a);
    } else {
      XorAssoc(a / 2, b / 2, c / 2);
      XorStep(a, b);
      XorStep(b, c);
      var l, r := Xor(Xor(a, b), c), Xor(a, Xor(b, c));
      assert l / 2 == r / 2 && l % 2 == r % 2 by {
        XorStep(Xor(a, b), c);
        XorStep(a, Xor(b, c));
      }
    }
  }

  lemma {:induction false} XorDouble(x: nat, l: nat, y: nat, l': nat, z: nat)
    requires Xor(x + l / 2, y + l' / 2) == z + Xor(l / 2, l' / 2)
    ensures Xor(2 * x + l, 2 * y + l') == 2 * z + Xor(l, l')
  {
    XorStep(2 * x + l, 2 * y + l');
    XorStep(l, l');
    assert (2 * x + l) / 2 == x + l / 2 && (2 * y + l') / 2 == y + l' / 2;
  }

  function Shl(h: nat, k: nat): nat {
    if k == 0 then h else 2 * Shl(h, k - 1)
  }

  lemma Shl8(h: nat)
    ensures Shl(h, 8) == 256 * h
  {
    assert Shl(h, 1) == 2 * h;
    assert Shl(h, 2) == 4 * h;
    assert Shl(h, 3) == 8 * h;
    assert Shl(h, 4) == 16 * h;
    assert Shl(h, 5) == 32 * h;
    assert Shl(h, 6) == 64 * h;
    assert Shl(h, 7) == 128 * h;
  }

  // Xor acts on the high part and on the low k bits independently.
  lemma {:induction false} XorJoin(k: nat, h: nat, l: nat, h': nat, l': nat)
    requires l < Shl(1, k) && l' < Shl(1, k)
    ensures Xor(l, l') < Shl(1, k)
    ensures Xor(Shl(h, k) + l, Shl(h', k) + l') == Shl(Xor(h, h'), k) + Xor(l, l')
    decreases k
  {
    if k == 0 {
      XorZero(0);
    } else {
      XorJoin(k - 1, h, l / 2, h', l' / 2);
      XorDouble(Shl(h, k - 1), l, Shl(h', k - 1), l', Shl(Xor(h, h'), k - 1));
      XorStep(l, l');
    }
  }

  lemma XorJoin256(h: nat, l: nat, h': nat, l': nat)
    requires l < 256 && l' < 256
    ensures Xor(l, l') < 256
    ensures Xor(256 * h + l, 256 * h' + l') == 256 * Xor(h, h') + Xor(l, l')
  {
    Shl8(h);
    Shl8(h');
    Shl8(1);
    Shl8(Xor(h, h'));
    XorJoin(8, h, l, h', l');
  }

  lemma XorSplit256(a: nat, b: nat)
    ensures Xor(a, b) / 256 == Xor(a / 256, b / 256)
    ensures Xor(a, b) % 256 == Xor(a % 256, b % 256)
  {
    XorJoin256(a / 256, a % 256, b / 256, b % 256);
  }

  // Ids below 2^29 differ by less than 2^29.
  lemma XorLimit(a: nat, b: nat)
    requires a < 0x2000_0000 && b < 0x2000_0000
    ensures Xor(a, b) < 0x2000_0000
  {
    Shl29();
    XorJoin(29, 0, a, 0, b);
    ShlZero(29);
    XorZero(0);
  }

  lemma Shl29()
    ensures Shl(1, 29) == 0x2000_0000
  {
    assert Shl(1, 5) == 32;
    assert Shl(1, 10) == 1024;
    assert Shl(1, 15) == 32768;
    assert Shl(1, 20) == 1048576;
    assert Shl(1, 25) == 33554432;
  }

  lemma {:induction false} ShlZero(k: nat)
    ensures Shl(0, k) == 0
  {
    if k > 0 { ShlZero(k - 1); }
  }

  // Crossing a base with a byte stays in the block of the base.
  lemma XorBlock(w: nat, c: Byte)
    ensures Xor(w, c) / 256 == w / 256
    ensures Xor(w, c) % 256 == Xor(w % 256, c)
  {
    XorSplit256(w, c);
    XorZero(w / 256);
  }

  // Two ids of one block differ by a byte.
  lemma XorSameBlock(w: nat, id: nat)
    requires w / 256 == id / 256
    ensures Xor(w, id) < 256
    ensures Xor(w, id) == Xor(w % 256, id % 256)
  {
    XorSplit256(w, id);
    XorSelf(w / 256);
  }

  lemma XorCancel(a: nat, b: nat)
    ensures Xor(a, Xor(a, b)) == b
    ensures Xor(Xor(a, b), b) == a
  {
    XorAssoc(a, a, b);
    XorSelf(a);
    XorZero(b);
    XorAssoc(a, b, b);
    XorSelf(b);
    XorZero(a);
  }

  lemma XorInjective(a: nat, b: nat, c: nat)
    requires Xor(a, b) == Xor(a, c)
    ensures b == c
  {
    XorCancel(a, b);
    XorCancel(a, c);
  }

  // What the searches compute: node ^ (offset ^ c) with offset = node ^ base.
  lemma XorTransition(node: nat, offset: nat, c: nat)
    ensures Xor(node, Xor(offset, c)) == Xor(Xor(node, offset), c)
  {
    XorAssoc(node, offset, c);
  }

  // Or is addition when the operands have no bit in common.
  lemma {:induction false} OrSplit2(a: nat, b: nat)
    ensures Or(a, b) / 2 == Or(a / 2, b / 2)
    ensures Or(a, b) % 2 == (if a % 2 == 0 && b % 2 == 0 then 0 else 1)
  {
  }

  lemma {:induction false} OrZero(a: nat)
    ensures Or(a, 0) == a && Or(0, a) == a
  {
    if a != 0 { OrZero(a / 2); }
  }

  lemma {:induction false} OrDouble(x: nat, l: nat, y: nat, l': nat, z: nat)
    requires Or(x + l / 2, y + l' / 2) == z + Or(l / 2, l' / 2)
    ensures Or(2 * x + l, 2 * y + l') == 2 * z + Or(l, l')
  {
    OrSplit2(2 * x + l, 2 * y + l');
    OrSplit2(l, l');
    assert (2 * x + l) / 2 == x + l / 2 && (2 * y + l') / 2 == y + l' / 2;
  }

  // Or acts on the high part and on the low k bits independently.
  lemma {:induction false} OrJoin(k: nat, h: nat, l: nat, h': nat, l': nat)
    requires l < Shl(1, k) && l' < Shl(1, k)
    ensures Or(l, l') < Shl(1, k)
    ensures Or(Shl(h, k) + l, Shl(h', k) + l') == Shl(Or(h, h'), k) + Or(l, l')
    decreases k
  {
    if k == 0 {
      OrZero(0);
    } else {
      OrJoin(k - 1, h, l / 2, h', l' / 2);
      OrDouble(Shl(h, k - 1), l, Shl(h', k - 1), l', Shl(Or(h, h'), k - 1));
      OrSplit2(l, l');
    }
  }

  lemma OrJoin256(h: nat, l: nat, h': nat, l': nat)
    requires l < 256 && l' < 256
    ensures Or(l, l') < 256
    ensures Or(256 * h + l, 256 * h' + l') == 256 * Or(h, h') + Or(l, l')
  {
    Shl8(h);
    Shl8(h');
    Shl8(1);
    Shl8(Or(h, h'));
    OrJoin(8, h, l, h', l');
  }
}
