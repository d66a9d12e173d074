/** Machine words of the 64-bit kernel, and the exclusive-or that `addr_swap`
    in src/helper.h is built from. */
module Words {

  const WORD_LIMIT: int := 0x1_0000_0000_0000_0000

  /** An `unsigned long`. */
  type Word = x: int | 0 <= x < WORD_LIMIT

  /** A byte of kernel text. */
  type Byte = x: int | 0 <= x < 0x100

  /** Unsigned addition, which wraps at 64 bits. */
  function AddWords(a: Word, b: Word): Word {
    (a + b) % WORD_LIMIT
  }

  // `^` on unsigned integers, one binary digit at a time.
  function Xor(a: nat, b: nat): nat
    decreases a + b
  {
    if a == 0 && b == 0 then 0
    else (if a % 2 == b % 2 then 0 else 1) + 2 * Xor(a / 2, b / 2)
  }

  function Pow2(k: nat): nat {
    if k == 0 then 1 else 2 * Pow2(k - 1)
  }

  lemma {:induction false} XorBound(a: nat, b: nat, k: nat)
    requires a < Pow2(k) && b < Pow2(k)
    ensures Xor(a, b) < Pow2(k)
  {
    if k > 0 && (a > 0 || b > 0) {
      XorBound(a / 2, b / 2, k - 1);
    }
  }

  lemma {:induction false} Pow2Add(j: nat, k: nat)
    ensures Pow2(j + k) == Pow2(j) * Pow2(k)
  {
    if j > 0 {
      Pow2Add(j - 1, k);
    }
  }

  lemma WordBits()
    ensures Pow2(64) == WORD_LIMIT
  {
    assert Pow2(1) == 2 && Pow2(2) == 4;
    Pow2Add(2, 2);
    Pow2Add(4, 4);
    Pow2Add(8, 8);
    Pow2Add(16, 16);
    Pow2Add(32, 32);
  }

  function XorWords(a: Word, b: Word): Word {
    WordBits();
    XorBound(a, b, 64);
    Xor(a, b)
  }

  lemma {:induction false} XorZero(a: nat, b: nat)
    ensures Xor(a, b) == 0 <==> a == b
    decreases a + b
  {
    if a > 0 || b > 0 {
      XorZero(a / 2, b / 2);
    }
  }

  lemma {:induction false} XorCommutes(a: nat, b: nat)
    ensures Xor(a, b) == Xor(b, a)
    decreases a + b
  {
    if a > 0 || b > 0 {
      XorCommutes(a / 2, b / 2);
    }
  }

  // The lowest digit of an exclusive-or, and the remaining digits.
  lemma XorDigits(a: nat, b: nat)
    ensures Xor(a, b) % 2 == if a % 2 == b % 2 then 0 else 1
    ensures Xor(a, b) / 2 == Xor(a / 2, b / 2)
  {
  }

  lemma {:induction false} XorUndo(a: nat, b: nat)
    ensures Xor(b, Xor(a, b)) == a
    decreases a + b
  {
    if a > 0 || b > 0 {
      var x := Xor(a, b);
      XorUndo(a / 2, b / 2);
      XorDigits(a, b);
      XorDigits(b, x);
      var u := Xor(b, x);
      assert u / 2 == a / 2 && u % 2 == a % 2;
    }
  }

  // Combining either operand with the exclusive-or gives the other operand.
  lemma XorCancel(a: nat, b: nat)
    ensures Xor(b, Xor(a, b)) == a
    ensures Xor(Xor(a, b), a) == b
  {
    XorUndo(a, b);
    XorUndo(b, a);
    XorCommutes(a, b);
    XorCommutes(a, Xor(a, b));
  }
}
