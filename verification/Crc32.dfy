/**
 The CRC-32 of src/shared/hash.c: the reflected polynomial 0xEDB88320 of section 8 of
 RFC 1952, computed a byte at a time from a 256-entry table.

 The reference is bit-serial: one shift-register step per message bit. The table code is
 proved equal to it. The detection guarantee, that no change confined to 32 consecutive
 bits keeps the CRC, is proved on the reference and carried over to bytes.
 */
module Crc32 {
  import opened Folds
  import opened Words

  const POLY: Word := 0xEDB8_8320

  // ---------------------------------------------------------------------------
  // Bit-serial reference
  // ---------------------------------------------------------------------------

  /** One step of the shift register on one message bit. */
  function SerialStep(c: Word, b: bool): Word {
    if LowBit(c) != b then Xor(Down(c), POLY) else Down(c)
  }

  /** The bits of a byte, least significant first. */
  function ByteBits(d: Byte): seq<bool> {
    ReadOff(LowBit, Down, Extend(d), 8)
  }

  /** The bits of a message, byte by byte. */
  function MessageBits(s: seq<Byte>): seq<bool> {
    FlatMap(ByteBits, s)
  }

  /** The reference CRC of a message given as bits. */
  function SerialCrc(bits: seq<bool>, initial: Word): Word {
    Not(Fold(SerialStep, Not(initial), bits))
  }

  // ---------------------------------------------------------------------------
  // The table-driven form
  // ---------------------------------------------------------------------------

  /** One step without input: the inner loop body of `init_crc`. */
  function BitStep(c: Word): Word {
    if LowBit(c) then Xor(Down(c), POLY) else Down(c)
  }

  function TableEntry(i: Byte): Word {
    Iterate(BitStep, Extend(i), 8)
  }

  function TableStep(c: Word, d: Byte): Word {
    Xor(TableEntry(LowByte(Xor(c, Extend(d)))), HighBytes(c))
  }

  /** What `ps14_hash_crc32` computes. */
  function Crc(s: seq<Byte>, initial: Word): Word {
    Not(Fold(TableStep, Not(initial), s))
  }

  // ---------------------------------------------------------------------------
  // One step
  // ---------------------------------------------------------------------------

  /** The register is linear: running it commutes with exclusive-or. */
  lemma BitStepXor(a: Word, b: Word)
    ensures BitStep(Xor(a, b)) == Xor(BitStep(a), BitStep(b))
  {
    hide Xor, Down, LowBit;
    var u, v := Down(a), Down(b);
    LowBitXor(a, b);
    DownXor(a, b);
    XorAssociates(u, v, POLY);
    XorLastTwo(u, v, POLY);
    XorAssociates(Xor(u, POLY), v, POLY);
    XorCancels(Xor(u, v), POLY);
  }

  lemma XorLastTwo(u: Word, v: Word, p: Word)
    ensures Xor(Xor(u, v), p) == Xor(Xor(u, p), v)
  {
    XorAssociates(u, v, p);
    XorCommutes(v, p);
    XorAssociates(u, p, v);
  }

  lemma BitStepLinear()
    ensures forall a, b :: BitStep(Xor(a, b)) == Xor(BitStep(a), BitStep(b))
  {
    forall a, b ensures BitStep(Xor(a, b)) == Xor(BitStep(a), BitStep(b)) {
      BitStepXor(a, b);
    }
  }

  /** A message word can be added to the register before steps without input. */
  lemma Preload(c: Word, d: Word)
    ensures BitStep(Xor(c, d)) == Xor(SerialStep(c, LowBit(d)), Down(d))
  {
    LowBitXor(c, d);
    DownXor(c, d);
    XorLastTwo(Down(c), Down(d), POLY);
  }

  /** The polynomial has its top bit set, so the new top bit tells whether it was added. */
  lemma SerialStepTop(a: Word, x: bool)
    ensures TopBit(SerialStep(a, x)) == (LowBit(a) != x)
  {
    assert !TopBit(Down(a)) && TopBit(Xor(Down(a), POLY));
  }

  /** The register step loses nothing. */
  lemma SerialStepInjective(a: Word, b: Word, x: bool)
    requires SerialStep(a, x) == SerialStep(b, x)
    ensures a == b
  {
  }

  lemma SerialStepInjectiveInState()
    ensures InjectiveInState(SerialStep)
  {
    forall a, b, x | SerialStep(a, x) == SerialStep(b, x) ensures a == b {
      SerialStepInjective(a, b, x);
    }
  }

  lemma BitStepInjective()
    ensures Injective(BitStep)
  {
    forall a, b | BitStep(a) == BitStep(b) ensures a == b {
      SerialStepInjective(a, b, false);
    }
  }

  lemma NotInjective()
    ensures Injective(Not)
  {
    forall a, b | Not(a) == Not(b) ensures a == b {
      NotNot(a);
      NotNot(b);
    }
  }

  // ---------------------------------------------------------------------------
  // Bursts
  // ---------------------------------------------------------------------------

  /** The lowest `n` bits. */
  function Mask(n: nat): Word {
    Iterate(WidenMask, ZERO, n)
  }

  /** The states differ at most in their lowest `n` bits. */
  predicate Close(a: Word, b: Word, n: nat) {
    Within(Xor(a, b), Mask(n))
  }

  lemma MaskGrows(n: nat, k: nat)
    ensures Within(Mask(n), Mask(n + k))
  {
    forall x, y | Within(x, y) ensures Within(WidenMask(x), WidenMask(y)) {
      WidenWithin(x, y);
    }
    WithinZero(ZERO, Mask(k));
    IterateMonotone(WidenMask, Within, ZERO, Mask(k), n);
    IterateAdd(WidenMask, ZERO, k, n);
  }

  lemma Widen4(m: Word)
    ensures Iterate(WidenMask, m, 4) == ((m << 4) | 0xF)
  {
    hide WidenMask;
    Iterate4(WidenMask, m);
    WidenMask4(m);
  }

  lemma Mask31()
    ensures !TopBit(Mask(31))
  {
    IterateAdd(WidenMask, ZERO, 4, 27);
    IterateAdd(WidenMask, 0xF, 4, 23);
    IterateAdd(WidenMask, 0xFF, 4, 19);
    IterateAdd(WidenMask, 0xFFF, 4, 15);
    IterateAdd(WidenMask, 0xFFFF, 4, 11);
    IterateAdd(WidenMask, 0xF_FFFF, 4, 7);
    IterateAdd(WidenMask, 0xFF_FFFF, 4, 3);
    Widen4(ZERO);
    Widen4(0xF);
    Widen4(0xFF);
    Widen4(0xFFF);
    Widen4(0xFFFF);
    Widen4(0xF_FFFF);
    Widen4(0xFF_FFFF);
    IterateStep(WidenMask, 0xFFF_FFFF, 3);
  }

  lemma MaskBelowTop(n: nat)
    requires n < 32
    ensures !TopBit(Mask(n))
  {
    MaskGrows(n, 31 - n);
    Mask31();
    TopBitWithin(Mask(n), Mask(31));
  }

  /**
   One step back. States that fit a mask without the top bit after a step took the same
   branch, so before the step they fitted the next mask; and equal states had equal inputs.
   */
  lemma CloseBackwards(a: Word, b: Word, x: bool, y: bool, m: Word)
    requires !TopBit(m) && Within(Xor(SerialStep(a, x), SerialStep(b, y)), m)
    ensures Within(Xor(a, b), WidenMask(m))
    ensures a == b ==> x == y
  {
    hide Xor, Down, LowBit, TopBit, Within, WidenMask;
    var u, v := Down(a), Down(b);
    TopBitWithin(Xor(SerialStep(a, x), SerialStep(b, y)), m);
    TopBitXor(SerialStep(a, x), SerialStep(b, y));
    SerialStepTop(a, x);
    SerialStepTop(b, y);
    XorLastTwo(u, POLY, Xor(v, POLY));
    XorLastTwo(u, v, POLY);
    XorAssociates(u, v, POLY);
    XorCancels(Xor(u, v), POLY);
    DownXor(a, b);
    WithinDown(Xor(a, b), m);
  }

  lemma CloseIsBackwards()
    ensures forall s :: Close(s, s, 0)
    ensures forall s, t, x, y, n: nat ::
      n < 32 && Close(SerialStep(s, x), SerialStep(t, y), n) ==> Close(s, t, n + 1) && (s == t ==> x == y)
  {
    forall s ensures Close(s, s, 0) {
      XorZero(s);
      WithinZero(ZERO, Mask(0));
    }
    forall s, t, x, y, n: nat | n < 32 && Close(SerialStep(s, x), SerialStep(t, y), n)
      ensures Close(s, t, n + 1) && (s == t ==> x == y)
    {
      MaskBelowTop(n);
      IterateAdd(WidenMask, ZERO, n, 1);
      CloseBackwards(s, t, x, y, Mask(n));
    }
  }

  /**
   The CRC tells apart any two messages of one length that differ only inside 32
   consecutive bits, whatever the initial value and whatever surrounds the change.
   */
  lemma SerialBurstDetected(xs: seq<bool>, ys: seq<bool>, lo: nat, hi: nat, initial: Word)
    requires AgreeOutside(xs, ys, lo, hi) && hi - lo <= 32
    ensures SerialCrc(xs, initial) == SerialCrc(ys, initial) <==> xs == ys
  {
    hide Not, SerialStep, Close;
    BurstsDifferInside(SerialStep, Close, 32, Not, Not(initial), xs, ys, lo, hi) by {
      NotInjective();
      SerialStepInjectiveInState();
      CloseIsBackwards();
    }
  }

  // ---------------------------------------------------------------------------
  // The table form refines the bit-serial form
  // ---------------------------------------------------------------------------

  lemma Down8(d: Word)
    ensures Iterate(Down, d, 8) == HighBytes(d)
  {
    hide Down;
    IterateAdd(Down, d, 4, 4);
    Down4(d);
    Down4((d >> 4));
  }

  lemma Down4(d: Word)
    ensures Iterate(Down, d, 4) == (d >> 4)
  {
    hide Down;
    Iterate4(Down, d);
    Words.Down4(d);
  }

  /** Feeding a word's bits is running the register on the sum, until the word is used up. */
  lemma FeedWord(c: Word, w: Word, n: nat)
    ensures Iterate(BitStep, Xor(c, w), n) == Xor(Fold(SerialStep, c, ReadOff(LowBit, Down, w, n)), Iterate(Down, w, n))
  {
    forall t, v ensures BitStep(Xor(t, v)) == Xor(SerialStep(t, LowBit(v)), Down(v)) {
      Preload(t, v);
    }
    PreloadFold(BitStep, SerialStep, Xor, LowBit, Down, c, w, n);
  }

  lemma EightSteps(c: Word, d: Byte)
    ensures Iterate(BitStep, Xor(c, Extend(d)), 8) == Fold(SerialStep, c, ByteBits(d))
  {
    FeedWord(c, Extend(d), 8);
    Down8(Extend(d));
    assert HighBytes(Extend(d)) == ZERO;
    XorZero(Fold(SerialStep, c, ByteBits(d)));
  }

  function AboveByte(x: Word): Word {
    x & 0xFFFF_FF00
  }

  lemma EvenSteps(z: Word)
    requires z & 0x3 == 0
    ensures BitStep(BitStep(z)) == z >> 2
  {
  }

  lemma PassThrough4(z: Word)
    requires z & 0xF == 0
    ensures Iterate(BitStep, z, 4) == NibbleDown(z)
  {
    hide BitStep;
    Iterate4(BitStep, z);
    EvenSteps(z);
    EvenSteps(z >> 2);
  }

  function NibbleDown(z: Word): Word {
    z >> 4
  }

  lemma AboveByteShifts(x: Word)
    ensures AboveByte(x) & 0xF == 0 && NibbleDown(AboveByte(x)) & 0xF == 0
    ensures NibbleDown(NibbleDown(AboveByte(x))) == HighBytes(x)
  {
  }

  /** The part of the register above the low byte only moves down. */
  lemma HighBytesPass(x: Word)
    ensures Iterate(BitStep, AboveByte(x), 8) == HighBytes(x)
  {
    hide Iterate, BitStep, AboveByte, HighBytes, NibbleDown;
    AboveByteShifts(x);
    IterateAdd(BitStep, AboveByte(x), 4, 4);
    PassThrough4(AboveByte(x));
    PassThrough4(NibbleDown(AboveByte(x)));
  }

  lemma SplitByte(x: Word)
    ensures Xor(Extend(LowByte(x)), AboveByte(x)) == x
  {
  }

  lemma HighBytesOfSum(c: Word, d: Byte)
    ensures HighBytes(Xor(c, Extend(d))) == HighBytes(c)
  {
  }

  /** One table lookup is eight steps of the register. */
  lemma TableStepIsEightSteps(c: Word, d: Byte)
    ensures TableStep(c, d) == Iterate(BitStep, Xor(c, Extend(d)), 8)
  {
    var x := Xor(c, Extend(d));
    SplitByte(x);
    HighBytesPass(x);
    HighBytesOfSum(c, d);
    BitStepLinear();
    IterateHom(BitStep, Xor, Extend(LowByte(x)), AboveByte(x), 8);
  }

  lemma TableStepRefines()
    ensures forall c, d :: TableStep(c, d) == Fold(SerialStep, c, ByteBits(d))
  {
    forall c, d ensures TableStep(c, d) == Fold(SerialStep, c, ByteBits(d)) {
      TableStepIsEightSteps(c, d);
      EightSteps(c, d);
    }
  }

  /** The table-driven CRC is the bit-serial CRC, on every message and initial value. */
  lemma TableIsSerial(s: seq<Byte>, initial: Word)
    ensures Crc(s, initial) == SerialCrc(MessageBits(s), initial)
  {
    TableStepRefines();
    FoldExpand(TableStep, SerialStep, ByteBits, Not(initial), s);
  }

  // ---------------------------------------------------------------------------
  // Messages of bytes
  // ---------------------------------------------------------------------------

  /** Equal bits fed to an empty register lead to one state, and running it back to equal bytes. */
  lemma SameBits(d: Byte, e: Byte)
    requires ByteBits(d) == ByteBits(e)
    ensures d == e
  {
    EightSteps(ZERO, d);
    EightSteps(ZERO, e);
    BitStepInjective();
    IterateInjective(BitStep, Xor(ZERO, Extend(d)), Xor(ZERO, Extend(e)), 8);
    XorCommutes(ZERO, Extend(d));
    XorCommutes(ZERO, Extend(e));
    XorZero(Extend(d));
    XorZero(Extend(e));
    ExtendInjective(d, e);
  }

  lemma ByteBitsInjective()
    ensures Injective(ByteBits)
  {
    forall d, e | ByteBits(d) == ByteBits(e) ensures d == e {
      SameBits(d, e);
    }
  }

  /**
   CRC-32 burst detection: two messages of one length that differ only inside four
   consecutive bytes have the same CRC exactly when they are the same message.
   */
  lemma BurstDetected(xs: seq<Byte>, ys: seq<Byte>, lo: nat, hi: nat, initial: Word)
    requires AgreeOutside(xs, ys, lo, hi) && hi - lo <= 4
    ensures Crc(xs, initial) == Crc(ys, initial) <==> xs == ys
  {
    hide Fold, Not, TableStep, SerialStep, Close;
    WindowDetected(TableStep, SerialStep, ByteBits, 8, Close, 32, Not, Not(initial), xs, ys, lo, hi) by {
      TableStepRefines();
      ByteBitsInjective();
      NotInjective();
      SerialStepInjectiveInState();
      CloseIsBackwards();
    }
  }

  /** The CRC of a prefix, passed on as the initial value, gives the CRC of the whole. */
  lemma CrcConcat(a: seq<Byte>, b: seq<Byte>, initial: Word)
    ensures Crc(a + b, initial) == Crc(b, Crc(a, initial))
  {
    FoldConcat(TableStep, Not(initial), a, b);
    NotNot(Fold(TableStep, Not(initial), a));
  }

  function XorByte(x: Byte, y: Byte): Byte {
    x ^ y
  }

  lemma XorLaws()
    ensures Commutative(Xor) && Associative(Xor)
  {
    forall a, b ensures Xor(a, b) == Xor(b, a) {
      XorCommutes(a, b);
    }
    forall a, b, c ensures Xor(Xor(a, b), c) == Xor(a, Xor(b, c)) {
      XorAssociates(a, b, c);
    }
  }

  lemma ExtendXorByte(x: Byte, y: Byte)
    ensures Extend(XorByte(x, y)) == Xor(Extend(x), Extend(y))
  {
    hide Extend, Xor;
    ExtendXor(x, y);
  }

  lemma TableStepXor(a: Word, b: Word, x: Byte, y: Byte)
    ensures TableStep(Xor(a, b), XorByte(x, y)) == Xor(TableStep(a, x), TableStep(b, y))
  {
    hide Xor, Extend, BitStep, TableStep, XorByte, Iterate;
    TableStepIsEightSteps(Xor(a, b), XorByte(x, y));
    TableStepIsEightSteps(a, x);
    TableStepIsEightSteps(b, y);
    ExtendXorByte(x, y);
    XorLaws();
    SwapInner(Xor, a, b, Extend(x), Extend(y));
    BitStepLinear();
    IterateHom(BitStep, Xor, Xor(a, Extend(x)), Xor(b, Extend(y)), 8);
  }

  lemma NotOverThree(r: Word, s: Word, t: Word)
    ensures Not(Xor(Xor(r, s), t)) == Xor(Xor(Not(r), Not(s)), Not(t))
  {
    hide Xor, Not;
    NotsCancel(r, s);
    NotXor(Xor(r, s), t);
  }

  lemma TableStepLinear()
    ensures forall r, s, x, y :: TableStep(Xor(r, s), XorByte(x, y)) == Xor(TableStep(r, x), TableStep(s, y))
  {
    forall r, s, x, y ensures TableStep(Xor(r, s), XorByte(x, y)) == Xor(TableStep(r, x), TableStep(s, y)) {
      TableStepXor(r, s, x, y);
    }
  }

  lemma NotLinear()
    ensures forall r, s, t :: Not(Xor(Xor(r, s), t)) == Xor(Xor(Not(r), Not(s)), Not(t))
  {
    forall r, s, t ensures Not(Xor(Xor(r, s), t)) == Xor(Xor(Not(r), Not(s)), Not(t)) {
      NotOverThree(r, s, t);
    }
  }

  lemma FoldAffine(a: seq<Byte>, b: seq<Byte>, c: seq<Byte>, start: Word)
    requires |a| == |b| == |c|
    ensures Not(Fold(TableStep, start, Zip(XorByte, Zip(XorByte, a, b), c)))
            == Xor(Xor(Not(Fold(TableStep, start, a)), Not(Fold(TableStep, start, b))), Not(Fold(TableStep, start, c)))
  {
    hide Fold, Zip, Xor, Not, TableStep, XorByte;
    TableStepLinear();
    NotLinear();
    XorCancels(start, start);
    FoldZipDigest(TableStep, Xor, XorByte, Not, start, a, b, c);
  }

  /** The CRC is affine: the CRC of `a ^ b ^ c` is the exclusive-or of the three CRCs. */
  lemma CrcAffine(a: seq<Byte>, b: seq<Byte>, c: seq<Byte>, initial: Word)
    requires |a| == |b| == |c|
    ensures Crc(Zip(XorByte, Zip(XorByte, a, b), c), initial)
         == Xor(Xor(Crc(a, initial), Crc(b, initial)), Crc(c, initial))
  {
    hide Fold, Zip, Xor, Not, TableStep, XorByte;
    FoldAffine(a, b, c, Not(initial));
  }

  // ---------------------------------------------------------------------------
  // 32 bits is the exact limit
  // ---------------------------------------------------------------------------

  lemma PassThroughZero()
    ensures Iterate(BitStep, ZERO, 32) == ZERO
  {
    IterateAdd(BitStep, ZERO, 8, 24);
    IterateAdd(BitStep, ZERO, 8, 16);
    IterateAdd(BitStep, ZERO, 8, 8);
    HighBytesPass(ZERO);
    assert AboveByte(ZERO) == ZERO == HighBytes(ZERO);
  }

  lemma Down32(d: Word)
    ensures Iterate(Down, d, 32) == ZERO
  {
    IterateAdd(Down, d, 8, 24);
    IterateAdd(Down, HighBytes(d), 8, 16);
    IterateAdd(Down, HighBytes(HighBytes(d)), 8, 8);
    Down8(d);
    Down8(HighBytes(d));
    Down8(HighBytes(HighBytes(d)));
    Down8(HighBytes(HighBytes(HighBytes(d))));
    assert (((d >> 8) >> 8) >> 8) >> 8 == 0;
  }

  /** Feeding a register its own bits empties it. */
  lemma OwnBitsEmpty(c: Word)
    ensures Fold(SerialStep, c, ReadOff(LowBit, Down, c, 32)) == ZERO
  {
    FeedWord(c, c, 32);
    XorZero(c);
    PassThroughZero();
    Down32(c);
    XorZero(Fold(SerialStep, c, ReadOff(LowBit, Down, c, 32)));
  }

  /** One bit, then the bits of the register that this bit leads to. */
  function LimitBurst(c: Word, b: bool): (xs: seq<bool>)
    ensures |xs| == 33
  {
    [b] + ReadOff(LowBit, Down, SerialStep(c, b), 32)
  }

  lemma LimitBurstEmpties(c: Word, b: bool)
    ensures Fold(SerialStep, c, LimitBurst(c, b)) == ZERO
  {
    OwnBitsEmpty(SerialStep(c, b));
    assert LimitBurst(c, b)[1..] == ReadOff(LowBit, Down, SerialStep(c, b), 32);
  }

  /** For every initial value some burst of 33 bits goes undetected. */
  lemma BurstLimit(initial: Word)
    ensures exists xs, ys :: |xs| == |ys| == 33 && xs != ys && SerialCrc(xs, initial) == SerialCrc(ys, initial)
  {
    var xs := LimitBurst(Not(initial), false);
    var ys := LimitBurst(Not(initial), true);
    LimitBurstEmpties(Not(initial), false);
    LimitBurstEmpties(Not(initial), true);
    assert xs[0] != ys[0];
    assert SerialCrc(xs, initial) == SerialCrc(ys, initial);
  }

  /** The bytes of a register, low byte first. */
  function OwnBytes(c: Word, n: nat): (s: seq<Byte>)
    ensures |s| == n
  {
    if n == 0 then [] else [LowByte(c)] + OwnBytes(HighBytes(c), n - 1)
  }

  lemma OwnByteIsZero(c: Word)
    ensures LowByte(Xor(c, Extend(LowByte(c)))) == 0
  {
  }

  /** Feeding a register its own low byte moves it down a byte. */
  lemma OwnByteMovesDown(c: Word)
    ensures TableStep(c, LowByte(c)) == HighBytes(c)
  {
    OwnByteIsZero(c);
    HighBytesPass(ZERO);
    assert AboveByte(ZERO) == ZERO == HighBytes(ZERO) == Extend(0);
    XorCommutes(ZERO, HighBytes(c));
    XorZero(HighBytes(c));
  }

  lemma FourBytesDown(c: Word)
    ensures HighBytes(HighBytes(HighBytes(HighBytes(c)))) == ZERO
  {
  }

  lemma {:induction false} OwnBytesMoveDown(c: Word, n: nat)
    ensures Fold(TableStep, c, OwnBytes(c, n)) == Iterate(HighBytes, c, n)
    decreases n
  {
    hide TableStep, LowByte, HighBytes;
    if n > 0 {
      OwnByteMovesDown(c);
      OwnBytesMoveDown(HighBytes(c), n - 1);
      assert OwnBytes(c, n)[1..] == OwnBytes(HighBytes(c), n - 1);
    }
  }

  /** One byte, then the bytes of the register it leads to. */
  function LimitBytes(c: Word, d: Byte): (s: seq<Byte>)
    ensures |s| == 5 && s[0] == d
  {
    [d] + OwnBytes(TableStep(c, d), 4)
  }

  lemma LimitBytesEmpty(c: Word, d: Byte)
    ensures Fold(TableStep, c, LimitBytes(c, d)) == ZERO
  {
    hide TableStep, HighBytes;
    var r := TableStep(c, d);
    OwnBytesMoveDown(r, 4);
    FourBytesDown(r);
    assert LimitBytes(c, d)[1..] == OwnBytes(r, 4);
    assert Iterate(HighBytes, r, 4) == Iterate(HighBytes, HighBytes(r), 3)
      == Iterate(HighBytes, HighBytes(HighBytes(r)), 2)
      == Iterate(HighBytes, HighBytes(HighBytes(HighBytes(r))), 1)
      == HighBytes(HighBytes(HighBytes(HighBytes(r))));
  }

  /** Four bytes are the exact limit too: for every initial value two messages of five bytes collide. */
  lemma ByteBurstLimit(initial: Word)
    ensures exists s, t :: |s| == |t| == 5 && s != t && Crc(s, initial) == Crc(t, initial)
  {
    hide LimitBytes, Not;
    var (s, t) := (LimitBytes(Not(initial), 0), LimitBytes(Not(initial), 1));
    LimitBytesEmpty(Not(initial), 0);
    LimitBytesEmpty(Not(initial), 1);
    assert s[0] != t[0];
    assert Crc(s, initial) == Crc(t, initial);
  }

  // ---------------------------------------------------------------------------
  // The code
  // ---------------------------------------------------------------------------

  function IndexByte(i: int): Byte
    requires 0 <= i < 256
  {
    i as Byte
  }

  lemma IndexRoundTrip(index: Byte)
    ensures IndexByte(index as int) == index
  {
  }

  ghost predicate IsCrcTable(table: seq<Word>) {
    |table| == 256 && forall i :: 0 <= i < 256 ==> table[i] == TableEntry(IndexByte(i))
  }

  /** The static table, its lazy initialisation and the CRC over it. */
  class CrcUnit {
    const table: array<Word>
    var ready: bool

    ghost predicate Valid()
      reads this, table
    {
      table.Length == 256 && (ready ==> IsCrcTable(table[..]))
    }

    constructor ()
      ensures Valid() && !ready && fresh(table)
    {
      table := new Word[256](_ => ZERO);
      ready := false;
    }

    method InitCrc()
      requires Valid()
      modifies this, table
      ensures Valid() && ready
    {
      if ready {
        return;
      }
      for i := 0 to 256
        invariant !ready
        invariant forall k :: 0 <= k < i ==> table[k] == TableEntry(IndexByte(k))
      {
        var c := Extend(IndexByte(i));
        for j := 0 to 8
          invariant !ready
          invariant forall k :: 0 <= k < i ==> table[k] == TableEntry(IndexByte(k))
          invariant Iterate(BitStep, c, 8 - j) == TableEntry(IndexByte(i))
        {
          c := if LowBit(c) then Xor(Down(c), POLY) else Down(c);
        }
        table[i] := c;
      }
      ready := true;
    }

    method Crc32(d: seq<Byte>, ic: Word) returns (crc: Word)
      requires Valid()
      modifies this, table
      ensures Valid() && ready
      ensures crc == Crc(d, ic)
    {
      if !ready {
        InitCrc();
      }
      var c := Not(ic);
      for i := 0 to |d|
        invariant Valid() && ready
        invariant Fold(TableStep, c, d[i..]) == Fold(TableStep, Not(ic), d)
      {
        var index := LowByte(Xor(c, Extend(d[i])));
        IndexRoundTrip(index);
        c := Xor(table[index as int], HighBytes(c));
        assert d[i..][1..] == d[i + 1..];
      }
      crc := Not(c);
    }
  }
}
