/** Bitwise operations on natural numbers, and what they do to each bit. */
module Bits {

  predicate Bit(w: nat, k: nat) {
    if k == 0 then w % 2 == 1 else Bit(w / 2, k - 1)
  }

  function Cons(low: bool, high: nat): nat {
    2 * high + if low then 1 else 0
  }

  function Or(a: nat, b: nat): nat {
    if a == 0 then b else if b == 0 then a else Cons(a % 2 == 1 || b % 2 == 1, Or(a / 2, b / 2))
  }

  function And(a: nat, b: nat): nat {
    if a == 0 || b == 0 then 0 else Cons(a % 2 == 1 && b % 2 == 1, And(a / 2, b / 2))
  }

  /** `w >> s`. */
  function Shr(w: nat, s: nat): nat {
    if s == 0 then w else Shr(w / 2, s - 1)
  }

  /** `w << s`. */
  function Shl(w: nat, s: nat): nat {
    if s == 0 then w else 2 * Shl(w, s - 1)
  }

  /** The low `b` bits in two's complement: `w & ((1 << b) - 1)`. */
  function Low(w: int, b: nat): nat
    decreases b
  {
    if b == 0 then 0 else Cons(w % 2 == 1, Low(w / 2, b - 1))
  }

  // ----- bit by bit

  lemma {:induction false} BitOfZero(k: nat)
    ensures !Bit(0, k)
  {
    if k > 0 { BitOfZero(k - 1); }
  }

  lemma {:induction false} BitOfOr(a: nat, b: nat, k: nat)
    ensures Bit(Or(a, b), k) <==> Bit(a, k) || Bit(b, k)
    decreases k
  {
    if a == 0 || b == 0 {
      BitOfZero(k);
    } else if k > 0 {
      BitOfOr(a / 2, b / 2, k - 1);
    }
  }

  lemma {:induction false} BitOfAnd(a: nat, b: nat, k: nat)
    ensures Bit(And(a, b), k) <==> Bit(a, k) && Bit(b, k)
    decreases k
  {
    if a == 0 || b == 0 {
      BitOfZero(k);
    } else if k > 0 {
      BitOfAnd(a / 2, b / 2, k - 1);
    }
  }

  lemma {:induction false} BitOfShr(w: nat, s: nat, k: nat)
    ensures Bit(Shr(w, s), k) <==> Bit(w, k + s)
    decreases s
  {
    if s > 0 { BitOfShr(w / 2, s - 1, k); }
  }

  lemma {:induction false} BitOfShl(w: nat, s: nat, k: nat)
    ensures Bit(Shl(w, s), k) <==> s <= k && Bit(w, k - s)
    decreases s
  {
    if s > 0 && k > 0 {
      BitOfShl(w, s - 1, k - 1);
      assert Shl(w, s) / 2 == Shl(w, s - 1);
    }
  }

  lemma {:induction false} BitOfLow(w: nat, b: nat, k: nat)
    ensures Bit(Low(w, b), k) <==> k < b && Bit(w, k)
    decreases b
  {
    if b == 0 {
      BitOfZero(k);
    } else if k > 0 {
      BitOfLow(w / 2, b - 1, k - 1);
    }
  }

  /** Numbers with the same bits are equal. */
  lemma {:induction false} SameBits(a: nat, b: nat)
    requires forall k: nat :: Bit(a, k) <==> Bit(b, k)
    ensures a == b
    decreases a + b
  {
    if a != 0 || b != 0 {
      assert Bit(a, 0) <==> Bit(b, 0);
      forall k: nat ensures Bit(a / 2, k) <==> Bit(b / 2, k) {
        assert Bit(a, k + 1) <==> Bit(b, k + 1);
      }
      SameBits(a / 2, b / 2);
    }
  }

  // ----- fields

  /** The `b` bits from bit `s` on. */
  function Extract(w: nat, s: nat, b: nat): nat {
    Low(Shr(w, s), b)
  }

  lemma BitOfExtract(w: nat, s: nat, b: nat, k: nat)
    ensures Bit(Extract(w, s, b), k) <==> k < b && Bit(w, k + s)
  {
    BitOfLow(Shr(w, s), b, k);
    BitOfShr(w, s, k);
  }

  /** A field that was clear reads back what is or-ed into it ... */
  lemma ExtractInserted(w: nat, f: nat, s: nat, b: nat)
    requires Extract(w, s, b) == 0 && f == Low(f, b)
    ensures Extract(Or(w, Shl(f, s)), s, b) == f
  {
    forall k: nat ensures Bit(Extract(Or(w, Shl(f, s)), s, b), k) <==> Bit(f, k) {
      BitOfExtract(Or(w, Shl(f, s)), s, b, k);
      BitOfOr(w, Shl(f, s), k + s);
      BitOfShl(f, s, k + s);
      BitOfExtract(w, s, b, k);
      BitOfZero(k);
      BitOfLow(f, b, k);
    }
    SameBits(Extract(Or(w, Shl(f, s)), s, b), f);
  }

  predicate Apart(s: nat, b: nat, s': nat, b': nat) {
    s + b <= s' || s' + b' <= s
  }

  /** ... and no other field notices. */
  lemma ExtractElsewhere(w: nat, f: nat, s: nat, b: nat, s': nat, b': nat)
    requires f == Low(f, b) && Apart(s, b, s', b')
    ensures Extract(Or(w, Shl(f, s)), s', b') == Extract(w, s', b')
  {
    forall k: nat ensures Bit(Extract(Or(w, Shl(f, s)), s', b'), k) <==> Bit(Extract(w, s', b'), k) {
      BitOfExtract(Or(w, Shl(f, s)), s', b', k);
      BitOfExtract(w, s', b', k);
      BitOfOr(w, Shl(f, s), k + s');
      BitOfShl(f, s, k + s');
      if s <= k + s' { BitOfLow(f, b, k + s' - s); }
    }
    SameBits(Extract(Or(w, Shl(f, s)), s', b'), Extract(w, s', b'));
  }

  /** A mask that is clear in a field does not see what is or-ed into it. */
  lemma MaskedInserted(w: nat, f: nat, s: nat, b: nat, mask: nat)
    requires f == Low(f, b) && Extract(mask, s, b) == 0
    ensures And(Or(w, Shl(f, s)), mask) == And(w, mask)
  {
    forall k: nat ensures Bit(And(Or(w, Shl(f, s)), mask), k) <==> Bit(And(w, mask), k) {
      BitOfAnd(Or(w, Shl(f, s)), mask, k);
      BitOfAnd(w, mask, k);
      BitOfOr(w, Shl(f, s), k);
      BitOfShl(f, s, k);
      if s <= k {
        BitOfLow(f, b, k - s);
        BitOfExtract(mask, s, b, k - s);
        BitOfZero(k - s);
      }
    }
    SameBits(And(Or(w, Shl(f, s)), mask), And(w, mask));
  }

  lemma ConsParts(low: bool, high: nat)
    ensures Cons(low, high) / 2 == high && (Cons(low, high) % 2 == 1 <==> low)
  {
  }

  lemma {:induction false} LowOfLow(w: int, b: nat)
    ensures Low(Low(w, b), b) == Low(w, b)
    decreases b
  {
    if b > 0 {
      LowOfLow(w / 2, b - 1);
      ConsParts(w % 2 == 1, Low(w / 2, b - 1));
    }
  }

  // ----- order

  lemma {:induction false} ShrOfAnd(a: nat, b: nat, s: nat)
    ensures Shr(And(a, b), s) == And(Shr(a, s), Shr(b, s))
    decreases s
  {
    if s > 0 {
      ShrOfAnd(a / 2, b / 2, s - 1);
      assert And(a, b) / 2 == And(a / 2, b / 2);
    }
  }

  lemma {:induction false} ShrMonotone(a: nat, b: nat, s: nat)
    requires Shr(a, s) < Shr(b, s)
    ensures a < b
    decreases s
  {
    if s > 0 { ShrMonotone(a / 2, b / 2, s - 1); }
  }
}
