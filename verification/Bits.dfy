/** Masks of 32 bits. The laws are proved here, where nothing else is in sight, and used by name. */
module Bits {

  function Bit(c: nat): bv32
    requires c < 32
  {
    (1 as bv32) << c
  }

  function Or(a: bv32, b: bv32): bv32 {
    a | b
  }

  function And(a: bv32, b: bv32): bv32 {
    a & b
  }

  function Minus(a: bv32, b: bv32): bv32 {
    a & !b
  }

  lemma OrLaws(a: bv32, b: bv32, c: bv32)
    ensures Or(Or(a, b), c) == Or(a, Or(b, c))
    ensures Or(a, b) == Or(b, a)
    ensures Or(a, 0) == a == Or(0, a) == Or(a, a)
  {
  }

  lemma BitsApart(i: nat, j: nat)
    requires i < j < 32
    ensures Bit(i) & Bit(j) == 0
  {
  }

  /** What one option does to the flags; an option that switches itself off toggles. */
  function Switch(on: bv32, off: bv32, flags: bv32): bv32 {
    var trigger := on & off;
    ((flags & !(off ^ trigger)) | (on ^ trigger)) ^ trigger
  }

  lemma SwitchOthers(on: bv32, off: bv32, set_: bv32, flags: bv32)
    requires And(on, set_) == 0 && And(off, set_) == 0
    ensures And(Switch(on, off, flags), set_) == And(flags, set_)
  {
  }

  lemma SwitchOwn(on: bv32, off: bv32, set_: bv32, flags: bv32)
    ensures And(off, set_) == Minus(set_, And(on, set_)) ==> And(Switch(on, off, flags), set_) == And(on, set_)
  {
  }

  /** Bits that an option does not clear are set afterwards if they were before or the option sets them. */
  lemma SwitchKept(on: bv32, off: bv32, mask: bv32, flags: bv32)
    ensures And(off, mask) == 0 ==> And(Switch(on, off, flags), mask) == Or(And(flags, mask), And(on, mask))
  {
  }

  lemma AndOr(a: bv32, b: bv32, mask: bv32)
    ensures And(Or(a, b), mask) == Or(And(a, mask), And(b, mask))
  {
  }

  lemma OrIsZero(a: bv32, b: bv32)
    ensures Or(a, b) == 0 <==> a == 0 && b == 0
  {
  }

  function Xor(a: bv32, b: bv32): bv32 {
    a ^ b
  }

  lemma SwitchIs(on: bv32, off: bv32, flags: bv32)
    ensures var t := And(on, off); Switch(on, off, flags) == Xor(Or(Minus(flags, Xor(off, t)), Xor(on, t)), t)
  {
  }

  lemma AndXor(a: bv32, b: bv32, mask: bv32)
    ensures And(Xor(a, b), mask) == Xor(And(a, mask), And(b, mask))
  {
  }

  lemma AndAnd(a: bv32, b: bv32, mask: bv32)
    ensures And(And(a, b), mask) == And(And(a, mask), And(b, mask))
  {
  }

  lemma AndMinus(a: bv32, b: bv32, mask: bv32)
    ensures And(Minus(a, b), mask) == Minus(And(a, mask), And(b, mask))
  {
  }

  lemma XorLaws(a: bv32)
    ensures Xor(a, a) == 0 && Xor(0, a) == a == Xor(a, 0) && And(a, a) == a && Minus(a, 0) == a
  {
  }

  /** Bits that an option both sets and clears flip. */
  lemma SwitchFlips(on: bv32, off: bv32, bits: bv32, flags: bv32)
    requires And(on, bits) == bits && And(off, bits) == bits
    ensures And(flags, bits) == 0 ==> And(Switch(on, off, flags), bits) == bits
    ensures And(flags, bits) == bits ==> And(Switch(on, off, flags), bits) == 0
  {
    hide And, Or, Xor, Minus, Switch;
    var t := And(on, off);
    SwitchIs(on, off, flags);
    XorLaws(bits);
    XorLaws(And(flags, bits));
    AndAnd(on, off, bits);
    AndXor(off, t, bits);
    AndXor(on, t, bits);
    AndMinus(flags, Xor(off, t), bits);
    AndOr(Minus(flags, Xor(off, t)), Xor(on, t), bits);
    OrLaws(And(flags, bits), 0, 0);
    AndXor(Or(Minus(flags, Xor(off, t)), Xor(on, t)), t, bits);
  }

  lemma NothingInZero(set_: bv32)
    ensures And(0, set_) == 0
  {
  }

  /** Nothing new for those who already have the bits of base. */
  predicate SameOver(base: bv32, a: bv32, b: bv32) {
    Or(base, a) == Or(base, b)
  }

  lemma SameOverOr(base: bv32, a: bv32, b: bv32, c: bv32, d: bv32)
    requires SameOver(base, a, b) && SameOver(base, c, d)
    ensures SameOver(base, Or(a, c), Or(b, d))
  {
    hide Or;
    calc {
      Or(base, Or(a, c));
      { OrLaws(base, a, c); }
      Or(Or(base, a), c);
      { OrLaws(base, b, c); OrLaws(b, c, base); OrLaws(b, base, c); }
      Or(b, Or(base, c));
      { OrLaws(b, base, d); OrLaws(base, b, d); }
      Or(base, Or(b, d));
    }
  }

  lemma SameOverOwn(row: bv32, mask: bv32)
    ensures SameOver(Or(row, mask), Or(row, mask), row)
  {
  }

  lemma SameOverRefl(base: bv32, a: bv32)
    ensures SameOver(base, a, a)
  {
  }

  lemma OwnOf(x: bv32, rest: bv32)
    ensures And(x, Or(x, rest)) == x
  {
  }

  lemma AndTurns(x: bv32, y: bv32)
    ensures And(x, y) == And(y, x)
  {
  }

  lemma MinusOwn(x: bv32, rest: bv32)
    ensures And(x, rest) == 0 ==> Minus(Or(x, rest), x) == rest
  {
  }

  lemma Apart(x: bv32, y: bv32, z: bv32)
    ensures And(x, y) == 0 && And(x, z) == 0 ==> And(x, Or(y, z)) == 0
  {
  }

  lemma FourthBit(x: bv32, y: bv32, z: bv32, w: bv32)
    ensures And(w, x) == 0 && And(w, y) == 0 && And(w, z) == 0 ==> And(w, Or(x, Or(y, z))) == 0
  {
  }

  /** Own bits of a set of options: an option of the set clears the others' bits and not its own; no other option touches them. */
  predicate OneOfBits(on: bv32, off: bv32, set_: bv32) {
    var own := And(on, set_);
    if own == 0 then And(off, set_) == 0 else And(off, set_) == Minus(set_, own)
  }

  /** One of three options that clear each other. */
  lemma OneOfThree(x: bv32, y: bv32, z: bv32)
    requires And(x, y) == 0 && And(x, z) == 0 && x != 0
    ensures OneOfBits(x, Or(y, z), Or(x, Or(y, z)))
  {
    hide And, Or, Minus;
    var rest := Or(y, z);
    Apart(x, y, z);
    MinusOwn(x, rest);
    OwnOf(x, rest);
    OwnOf(rest, x);
    OrLaws(x, rest, 0);
  }

  lemma FourthOneOf(x: bv32, y: bv32, z: bv32, w: bv32)
    requires And(w, x) == 0 && And(w, y) == 0 && And(w, z) == 0
    ensures OneOfBits(w, 0, Or(x, Or(y, z)))
  {
    hide And, Or, Minus;
    FourthBit(x, y, z, w);
    NothingInZero(Or(x, Or(y, z)));
  }

  lemma BitsAnd(i: nat, j: nat)
    requires i < 32 && j < 32 && i != j
    ensures And(Bit(i), Bit(j)) == 0 && Bit(i) != 0
  {
    BitWhole(i, 0);
    hide Bit;
    if i < j { BitsApart(i, j); } else { BitsApart(j, i); }
  }

  lemma InMask(flags: bv32, part: bv32, mask: bv32)
    ensures And(part, mask) == part && And(flags, mask) == 0 ==> And(flags, part) == 0
  {
  }

  lemma Absorb(a: bv32, b: bv32)
    ensures Or(a, And(b, a)) == a
  {
  }

  lemma OrHas(part: bv32, a: bv32, b: bv32)
    ensures And(part, a) == part ==> And(part, Or(a, b)) == part
  {
    hide *;
    AndOr(a, b, part);
    AndTurns(part, a);
    AndTurns(part, Or(a, b));
    Absorb(part, b);
  }

  lemma PartOfOr(part: bv32, a: bv32, b: bv32)
    ensures And(part, a) == part || And(part, b) == part ==> And(part, Or(a, b)) == part
  {
    hide *;
    OrHas(part, a, b);
    OrHas(part, b, a);
    OrLaws(a, b, 0);
  }

  /** A bit is in a mask as a whole or not at all. */
  lemma BitWhole(i: nat, mask: bv32)
    requires i < 32
    ensures And(Bit(i), mask) == 0 || And(Bit(i), mask) == Bit(i)
    ensures Bit(i) != 0
  {
  }

  /** The three bits of 0x51. */
  lemma DfBit(i: nat)
    requires i < 7
    ensures And(Bit(i), 0x51) == (if i == 0 then 0x01 else if i == 4 then 0x10 else if i == 6 then 0x40 else 0)
    ensures Or(Bit(0), Or(Bit(6), Bit(4))) == 0x51
  {
    if i == 0 {
    } else if i == 1 {
    } else if i == 2 {
    } else if i == 3 {
    } else if i == 4 {
    } else if i == 5 {
    } else {
      assert i == 6;
    }
  }
}
