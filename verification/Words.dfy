/**
 32-bit words and bytes. The few facts that need the bits are proved here; everything else
 reasons with these laws.
 */
module Words {

  type Byte = bv8
  type Word = bv32

  const ZERO: Word := 0

  function Xor(a: Word, b: Word): Word {
    a ^ b
  }

  function Not(a: Word): Word {
    !a
  }

  /** A byte as the low end of a word. */
  function Extend(d: Byte): Word {
    d as bv32
  }

  predicate LowBit(a: Word) {
    a & 1 != 0
  }

  predicate TopBit(a: Word) {
    a & 0x8000_0000 != 0
  }

  /** Every bit one place down. */
  function Down(a: Word): Word {
    a >> 1
  }

  function LowByte(a: Word): Byte {
    (a & 0xFF) as Byte
  }

  /** Everything above the low byte, one byte down. */
  function HighBytes(a: Word): Word {
    a >> 8
  }

  lemma XorCommutes(a: Word, b: Word)
    ensures Xor(a, b) == Xor(b, a)
  {
  }

  lemma XorAssociates(a: Word, b: Word, c: Word)
    ensures Xor(Xor(a, b), c) == Xor(a, Xor(b, c))
  {
  }

  lemma XorCancels(a: Word, b: Word)
    ensures Xor(Xor(a, b), b) == a
  {
  }

  lemma XorZero(a: Word)
    ensures Xor(a, ZERO) == a
    ensures Xor(a, a) == ZERO
  {
  }

  lemma LowBitXor(a: Word, b: Word)
    ensures LowBit(Xor(a, b)) == (LowBit(a) != LowBit(b))
  {
  }

  lemma DownXor(a: Word, b: Word)
    ensures Down(Xor(a, b)) == Xor(Down(a), Down(b))
  {
  }

  lemma Down4(a: Word)
    ensures Down(Down(Down(Down(a)))) == a >> 4
  {
  }

  lemma NotXor(a: Word, b: Word)
    ensures Not(Xor(a, b)) == Xor(a, Not(b))
  {
  }

  lemma NotsCancel(a: Word, b: Word)
    ensures Xor(Not(a), Not(b)) == Xor(a, b)
  {
  }

  lemma NotNot(a: Word)
    ensures Not(Not(a)) == a
  {
  }

  lemma ExtendXor(x: Byte, y: Byte)
    ensures Extend(x ^ y) == Xor(Extend(x), Extend(y))
  {
  }

  lemma ExtendInjective(x: Byte, y: Byte)
    requires Extend(x) == Extend(y)
    ensures x == y
  {
  }

  // Masks of low bits.

  /** One more low bit. */
  function WidenMask(m: Word): Word {
    (m << 1) | 1
  }

  lemma WidenMask4(m: Word)
    ensures WidenMask(WidenMask(WidenMask(WidenMask(m)))) == (m << 4) | 0xF
  {
  }

  /** All the set bits of `m` are set in `k`. */
  predicate Within(m: Word, k: Word) {
    m & !k == 0
  }

  lemma WithinZero(m: Word, k: Word)
    ensures Within(ZERO, k)
    ensures Within(m, ZERO) ==> m == ZERO
  {
  }

  lemma WidenWithin(m: Word, k: Word)
    requires Within(m, k)
    ensures Within(WidenMask(m), WidenMask(k))
  {
  }

  lemma TopBitWithin(m: Word, k: Word)
    requires Within(m, k) && !TopBit(k)
    ensures !TopBit(m)
  {
  }

  lemma TopBitXor(a: Word, b: Word)
    requires !TopBit(Xor(a, b))
    ensures TopBit(a) == TopBit(b)
  {
  }

  /** What fits a mask after moving down fits the next mask before. */
  lemma WithinDown(a: Word, m: Word)
    requires Within(Down(a), m)
    ensures Within(a, WidenMask(m))
  {
  }
}
