/**
 The two interleaved hashes of src/shared/hash.c, there named md5 and sha256. They are not
 the algorithms of those names: byte `i` goes to lane `i % m`, each lane is a fold with
 33*h + d modulo 2^32, and the sha256 variant mixes its eight lanes in place at the end.
 */
module LaneHash {
  import opened Folds
  import opened Interleave
  import opened Words

  /** 33 times a word, modulo 2^32. */
  function Times33(h: Word): Word {
    (h << 5) + h
  }

  function Add(u: Word, v: Word): Word {
    u + v
  }

  /** One byte into one lane: 33*h + d, modulo 2^32. */
  function LaneStep(h: Word, d: Byte): Word {
    Add(Times33(h), Extend(d))
  }

  /** The final word of a lane. */
  function Lane(iv: seq<Word>, s: seq<Byte>, j: nat): Word
    requires j < |iv|
  {
    Fold(LaneStep, iv[j], LaneInput(s, |iv|, j))
  }

  function Lanes(iv: seq<Word>, s: seq<Byte>): (h: seq<Word>)
    ensures |h| == |iv|
  {
    seq(|iv|, j requires 0 <= j < |iv| => Lane(iv, s, j))
  }

  /** A word as it lies in memory, low byte first. */
  function WordBytes(w: Word): (r: seq<Byte>)
    ensures |r| == 4
  {
    [LowByte(w), LowByte(w >> 8), LowByte(w >> 16), LowByte(w >> 24)]
  }

  function MemoryBytes(h: seq<Word>): seq<Byte> {
    FlatMap(WordBytes, h)
  }

  // ---------------------------------------------------------------------------
  // The in-place mixing loop of sha256
  // ---------------------------------------------------------------------------

  function ShiftNine(w: Word): Word {
    w << 9
  }

  /** Iteration `i` of the mixing loop. */
  function MixStep(h: seq<Word>, i: nat): (r: seq<Word>)
    requires |h| == 8 && i < 8
    ensures |r| == 8
  {
    h[i := Xor(h[i], ShiftNine(h[(i + 1) % 8]))]
  }

  /** The first `n` iterations. */
  function Mix(h: seq<Word>, n: nat): (r: seq<Word>)
    requires |h| == 8 && n <= 8
    ensures |r| == 8
  {
    if n == 0 then h else MixStep(Mix(h, n - 1), n - 1)
  }

  /** The same iterations in the opposite order. */
  function Unmix(h: seq<Word>, n: nat): (r: seq<Word>)
    requires |h| == 8 && n <= 8
    ensures |r| == 8
    decreases n
  {
    if n == 0 then h else Unmix(MixStep(h, n - 1), n - 1)
  }

  lemma MixStepUndoes(h: seq<Word>, i: nat)
    requires |h| == 8 && i < 8
    ensures MixStep(MixStep(h, i), i) == h
  {
    hide Xor, ShiftNine;
    var w := ShiftNine(h[(i + 1) % 8]);
    assert MixStep(h, i)[(i + 1) % 8] == h[(i + 1) % 8];
    XorCancels(h[i], w);
  }

  /** Mixing loses nothing: running the iterations backwards recovers the eight words. */
  lemma {:induction false} UnmixMix(h: seq<Word>, n: nat)
    requires |h| == 8 && n <= 8
    ensures Unmix(Mix(h, n), n) == h
    decreases n
  {
    if n > 0 {
      MixStepUndoes(Mix(h, n - 1), n - 1);
      UnmixMix(h, n - 1);
    }
  }

  /** And reaches everything: every eight words are the mixture of some eight words. */
  lemma {:induction false} MixUnmix(h: seq<Word>, n: nat)
    requires |h| == 8 && n <= 8
    ensures Mix(Unmix(h, n), n) == h
    decreases n
  {
    if n > 0 {
      MixUnmix(MixStep(h, n - 1), n - 1);
      MixStepUndoes(h, n - 1);
    }
  }

  /** What the loop leaves behind: its last iteration reads the word its first one changed. */
  lemma MixedWords(h: seq<Word>)
    requires |h| == 8
    ensures forall i :: 0 <= i < 7 ==> Mix(h, 8)[i] == Xor(h[i], ShiftNine(h[i + 1]))
    ensures Mix(h, 8)[7] == Xor(h[7], ShiftNine(Xor(h[0], ShiftNine(h[1]))))
  {
    hide Xor, ShiftNine;
    MixedPrefix(h, 7);
    var m := Mix(h, 7);
    assert Mix(h, 8) == MixStep(m, 7) == m[7 := Xor(m[7], ShiftNine(m[0]))];
  }

  lemma {:induction false} MixedPrefix(h: seq<Word>, n: nat)
    requires |h| == 8 && n <= 7
    ensures forall i :: 0 <= i < n ==> Mix(h, n)[i] == Xor(h[i], ShiftNine(h[i + 1]))
    ensures forall i :: n <= i < 8 ==> Mix(h, n)[i] == h[i]
  {
    hide Xor, ShiftNine;
    if n > 0 {
      MixedPrefix(h, n - 1);
      var m := Mix(h, n - 1);
      assert Mix(h, n) == MixStep(m, n - 1) == m[n - 1 := Xor(m[n - 1], ShiftNine(m[n]))];
    }
  }

  // ---------------------------------------------------------------------------
  // Digests
  // ---------------------------------------------------------------------------

  const MD5_IV: seq<Word> := [0x6745_2301, 0xEFCD_AB89, 0x98BA_DCFE, 0x1032_5476]

  const SHA256_IV: seq<Word> := [0x6A09_E667, 0xBB67_AE85, 0x3C6E_F372, 0xA54F_F53A,
                                 0x510E_527F, 0x9B05_688C, 0x1F83_D9AB, 0x5BE0_CD19]

  /** What `ps14_hash_md5` writes. */
  function Md5Digest(s: seq<Byte>): seq<Byte> {
    MemoryBytes(Lanes(MD5_IV, s))
  }

  /** What `ps14_hash_sha256` writes. */
  function Sha256Digest(s: seq<Byte>): seq<Byte> {
    MemoryBytes(Mix(Lanes(SHA256_IV, s), 8))
  }

  lemma WordBytesTell(a: Word, b: Word)
    requires WordBytes(a) == WordBytes(b)
    ensures a == b
  {
    assert WordBytes(a)[0] == WordBytes(b)[0];
    assert WordBytes(a)[1] == WordBytes(b)[1];
    assert WordBytes(a)[2] == WordBytes(b)[2];
    assert WordBytes(a)[3] == WordBytes(b)[3];
    hide WordBytes, LowByte;
    FourBytesTell(a, b);
  }

  lemma FourBytesTell(a: Word, b: Word)
    requires LowByte(a) == LowByte(b) && LowByte(a >> 8) == LowByte(b >> 8)
    requires LowByte(a >> 16) == LowByte(b >> 16) && LowByte(a >> 24) == LowByte(b >> 24)
    ensures a == b
  {
  }

  lemma MemoryBytesTell(a: seq<Word>, b: seq<Word>)
    requires |a| == |b|
    ensures MemoryBytes(a) == MemoryBytes(b) <==> a == b
  {
    if MemoryBytes(a) == MemoryBytes(b) {
      forall v, w | WordBytes(v) == WordBytes(w) ensures v == w {
        WordBytesTell(v, w);
      }
      FlatMapInjective(WordBytes, a, b, 4);
    }
  }

  ghost predicate SameLanes(iv: seq<Word>, s: seq<Byte>, t: seq<Byte>) {
    forall j :: 0 <= j < |iv| ==> Lane(iv, s, j) == Lane(iv, t, j)
  }

  /** The md5 digests agree exactly when all four lanes do. */
  lemma Md5TellsLanes(s: seq<Byte>, t: seq<Byte>)
    ensures Md5Digest(s) == Md5Digest(t) <==> SameLanes(MD5_IV, s, t)
  {
    hide MemoryBytes, Lane;
    MemoryBytesTell(Lanes(MD5_IV, s), Lanes(MD5_IV, t));
    LanesTell(MD5_IV, s, t);
  }

  /** The sha256 digests agree exactly when all eight lanes do, for the mixing is a bijection. */
  lemma Sha256TellsLanes(s: seq<Byte>, t: seq<Byte>)
    ensures Sha256Digest(s) == Sha256Digest(t) <==> SameLanes(SHA256_IV, s, t)
  {
    hide MemoryBytes, Lane, Mix, Unmix;
    var (hs, ht) := (Lanes(SHA256_IV, s), Lanes(SHA256_IV, t));
    MemoryBytesTell(Mix(hs, 8), Mix(ht, 8));
    UnmixMix(hs, 8);
    UnmixMix(ht, 8);
    LanesTell(SHA256_IV, s, t);
  }

  lemma LanesTell(iv: seq<Word>, s: seq<Byte>, t: seq<Byte>)
    ensures Lanes(iv, s) == Lanes(iv, t) <==> SameLanes(iv, s, t)
  {
    hide Lane;
    if Lanes(iv, s) == Lanes(iv, t) {
      forall j | 0 <= j < |iv| ensures Lane(iv, s, j) == Lane(iv, t, j) {
        assert Lanes(iv, s)[j] == Lanes(iv, t)[j];
      }
    }
  }

  // ---------------------------------------------------------------------------
  // Detection
  // ---------------------------------------------------------------------------

  /** 33 is odd, so multiplying by it modulo 2^32 loses nothing. */
  lemma Times33Injective(a: Word, b: Word)
    requires Times33(a) == Times33(b)
    ensures a == b
  {
  }

  function Subtract(u: Word, v: Word): Word {
    u - v
  }

  lemma AddIsSum(u: Word, w: Word)
    ensures Add(u, w) == u + w
  {
  }

  lemma SubtractSum(u: Word, w: Word)
    ensures Subtract(u + w, w) == u
  {
  }

  lemma SubtractAdded(u: Word, w: Word)
    ensures Subtract(Add(u, w), w) == u
  {
    hide Add, Subtract;
    AddIsSum(u, w);
    SubtractSum(u, w);
  }

  lemma AddCancels(u: Word, v: Word, w: Word)
    requires Add(u, w) == Add(v, w)
    ensures u == v
  {
    hide Add, Subtract;
    SubtractAdded(u, w);
    SubtractAdded(v, w);
  }

  lemma AddCommutes(u: Word, v: Word)
    ensures Add(u, v) == Add(v, u)
  {
  }

  lemma LaneStepLosesNothing()
    ensures InjectiveInState(LaneStep)
    ensures InjectiveInInput(LaneStep)
  {
    hide Add, Times33, Extend;
    forall a, b, d | LaneStep(a, d) == LaneStep(b, d) ensures a == b {
      AddCancels(Times33(a), Times33(b), Extend(d));
      Times33Injective(a, b);
    }
    forall h, x, y | LaneStep(h, x) == LaneStep(h, y) ensures x == y {
      AddCommutes(Times33(h), Extend(x));
      AddCommutes(Times33(h), Extend(y));
      AddCancels(Extend(x), Extend(y), Times33(h));
      ExtendInjective(x, y);
    }
  }

  /** Within one more input every two states can meet; after it, only equal ones have. */
  predicate Meet(a: Word, b: Word, n: nat) {
    n == 0 ==> a == b
  }

  /** A lane's digest is its final word. */
  function TheWord(w: Word): Word {
    w
  }

  /** A lane that took exactly one different byte ends in a different word. */
  lemma OneByteChangesLane(iv: seq<Word>, s: seq<Byte>, t: seq<Byte>, p: nat)
    requires 0 < |iv| && DifferOnceInLane(s, t, |iv|, p)
    ensures Lane(iv, s, p % |iv|) != Lane(iv, t, p % |iv|)
  {
    hide LaneStep, LaneInput;
    var j := p % |iv|;
    var k := LaneInputsDifferOnce(s, t, |iv|, p);
    var (ls, lt) := (LaneInput(s, |iv|, j), LaneInput(t, |iv|, j));
    LaneStepLosesNothing();
    assert forall a, b, x, y, n: nat ::
      n < 1 && Meet(LaneStep(a, x), LaneStep(b, y), n) ==> Meet(a, b, n + 1) && (a == b ==> x == y);
    assert Injective(TheWord);
    BurstsDifferInside(LaneStep, Meet, 1, TheWord, iv[j], ls, lt, k, k + 1);
  }

  /** One different byte in some lane changes the md5 digest, whatever the other lanes do. */
  lemma Md5DetectsLaneChange(s: seq<Byte>, t: seq<Byte>, p: nat)
    requires DifferOnceInLane(s, t, 4, p)
    ensures Md5Digest(s) != Md5Digest(t)
  {
    hide Md5Digest, Lane;
    OneByteChangesLane(MD5_IV, s, t, p);
    Md5TellsLanes(s, t);
  }

  /** The same for the eight lanes of sha256, through the mixing. */
  lemma Sha256DetectsLaneChange(s: seq<Byte>, t: seq<Byte>, p: nat)
    requires DifferOnceInLane(s, t, 8, p)
    ensures Sha256Digest(s) != Sha256Digest(t)
  {
    hide Sha256Digest, Lane;
    OneByteChangesLane(SHA256_IV, s, t, p);
    Sha256TellsLanes(s, t);
  }

  /** Any change inside four consecutive bytes changes the md5 digest. */
  lemma Md5WindowDetected(s: seq<Byte>, t: seq<Byte>, lo: nat, hi: nat)
    requires AgreeOutside(s, t, lo, hi) && hi - lo <= 4
    ensures Md5Digest(s) == Md5Digest(t) <==> s == t
  {
    hide Md5Digest;
    if s != t {
      var p := WindowDiffersOnce(s, t, lo, hi, 4);
      Md5DetectsLaneChange(s, t, p);
    }
  }

  /** Any change inside eight consecutive bytes changes the sha256 digest. */
  lemma Sha256WindowDetected(s: seq<Byte>, t: seq<Byte>, lo: nat, hi: nat)
    requires AgreeOutside(s, t, lo, hi) && hi - lo <= 8
    ensures Sha256Digest(s) == Sha256Digest(t) <==> s == t
  {
    hide Sha256Digest;
    if s != t {
      var p := WindowDiffersOnce(s, t, lo, hi, 8);
      Sha256DetectsLaneChange(s, t, p);
    }
  }

  // ---------------------------------------------------------------------------
  // The window widths are exact
  // ---------------------------------------------------------------------------

  lemma TwoSteps(h: Word, x: Byte, y: Byte)
    ensures Fold(LaneStep, h, [x, y]) == LaneStep(LaneStep(h, x), y)
  {
    hide LaneStep;
    FoldLast(LaneStep, h, [x], y);
    FoldLast(LaneStep, h, [], x);
    assert [x] + [y] == [x, y] && [] + [x] == [x];
  }

  /** Two bytes of one lane can cancel: 33 later against 1 earlier. */
  lemma LanesCollide(iv: seq<Word>)
    requires 0 < |iv| && LaneStep(LaneStep(iv[0], 0), 33) == LaneStep(LaneStep(iv[0], 1), 0)
    ensures SameLanes(iv, TwoElements(|iv|, 0, 0, 33), TwoElements(|iv|, 1, 0, 0))
    ensures TwoElements(|iv|, 0, 0, 33) != TwoElements(|iv|, 1, 0, 0)
  {
    hide LaneStep, LaneInput;
    forall j | 0 <= j < |iv|
      ensures Lane(iv, TwoElements(|iv|, 0, 0, 33), j) == Lane(iv, TwoElements(|iv|, 1, 0, 0), j)
    {
      TwoElementsLanes(|iv|, 0 as Byte, 0, 33, j);
      TwoElementsLanes(|iv|, 1 as Byte, 0, 0, j);
      TwoSteps(iv[0], 0, 33);
      TwoSteps(iv[0], 1, 0);
    }
    assert TwoElements(|iv|, 0, 0, 33)[0] != TwoElements(|iv|, 1, 0, 0)[0];
  }

  /** Five bytes are too many for md5, and nine for sha256: there are undetected changes. */
  lemma WindowLimits()
    ensures exists s, t :: |s| == |t| == 5 && s != t && Md5Digest(s) == Md5Digest(t)
    ensures exists s, t :: |s| == |t| == 9 && s != t && Sha256Digest(s) == Sha256Digest(t)
  {
    hide Md5Digest, Sha256Digest, TwoElements;
    assert LaneStep(LaneStep(0x6745_2301, 0), 33) == LaneStep(LaneStep(0x6745_2301, 1), 0);
    assert LaneStep(LaneStep(0x6A09_E667, 0), 33) == LaneStep(LaneStep(0x6A09_E667, 1), 0);
    LanesCollide(MD5_IV);
    LanesCollide(SHA256_IV);
    Md5TellsLanes(TwoElements(4, 0, 0, 33), TwoElements(4, 1, 0, 0));
    Sha256TellsLanes(TwoElements(8, 0, 0, 33), TwoElements(8, 1, 0, 0));
  }

  /** A second byte shows in the second lane. */
  lemma SecondByteTold()
    ensures Md5Digest([1, 2]) != Md5Digest([1])
  {
    hide MemoryBytes, LaneStep, LaneInput;
    assert MD5_IV[1] == 0xEFCD_AB89;
    assert LaneStep(0xEFCD_AB89, 2) != 0xEFCD_AB89 by { SecondLaneMoves(); }
    LaneTakes(MD5_IV, [1, 2], 0, 1);
    LaneTakes(MD5_IV, [1, 2], 1, 1);
    LaneTakes(MD5_IV, [1], 0, 1);
    EmptyLane(1);
    assert [1 as Byte, 2][..2] == [1, 2] && [1 as Byte, 2][..1] == [1] && [1 as Byte, 2][..0] == [];
    assert [1 as Byte][..1] == [1] && [1 as Byte][..0] == [];
    Md5TellsLanes([1, 2], [1]);
  }

  lemma SecondLaneMoves()
    ensures LaneStep(0xEFCD_AB89, 2) != 0xEFCD_AB89
  {
  }

  lemma EmptyLane(j: nat)
    requires j < 4
    ensures Lane(MD5_IV, [], j) == MD5_IV[j]
  {
    hide LaneStep;
  }

  // ---------------------------------------------------------------------------
  // The code
  // ---------------------------------------------------------------------------

  method Md5(d: seq<Byte>) returns (digest: seq<Byte>)
    ensures digest == Md5Digest(d)
  {
    var h := new Word[4](i requires 0 <= i < 4 => MD5_IV[i]);
    assert h[..] == MD5_IV;
    FeedLanes(h, d);
    digest := MemoryBytes(h[..]);
  }

  method Sha256(d: seq<Byte>) returns (digest: seq<Byte>)
    ensures digest == Sha256Digest(d)
  {
    var h := new Word[8](i requires 0 <= i < 8 => SHA256_IV[i]);
    assert h[..] == SHA256_IV;
    FeedLanes(h, d);
    ghost var lanes := h[..];
    assert lanes == Lanes(SHA256_IV, d);
    for i := 0 to 8
      invariant h[..] == Mix(lanes, i)
    {
      h[i] := Xor(h[i], ShiftNine(h[(i + 1) % 8]));
      assert h[..] == MixStep(Mix(lanes, i), i);
    }
    digest := MemoryBytes(h[..]);
  }

  /** The byte loop of both hashes, over the array `h`. */
  method FeedLanes(h: array<Word>, d: seq<Byte>)
    requires 0 < h.Length
    modifies h
    ensures h[..] == Lanes(old(h[..]), d)
  {
    ghost var iv := h[..];
    for i := 0 to |d|
      invariant forall j :: 0 <= j < h.Length ==> h[j] == Lane(iv, d[..i], j)
    {
      ghost var before := h[..];
      var lane := i % h.Length;
      h[lane] := Add(Times33(h[lane]), Extend(d[i]));
      forall j | 0 <= j < h.Length ensures h[j] == Lane(iv, d[..i + 1], j) {
        LaneTakes(iv, d, i, j);
      }
    }
    assert d[..|d|] == d;
  }

  lemma LaneTakes(iv: seq<Word>, d: seq<Byte>, i: nat, j: nat)
    requires j < |iv| && i < |d|
    ensures Lane(iv, d[..i + 1], j)
            == if i % |iv| == j then LaneStep(Lane(iv, d[..i], j), d[i]) else Lane(iv, d[..i], j)
  {
    hide LaneStep, LaneInput;
    assert d[..i + 1] == d[..i] + [d[i]];
    LaneInputLast(d[..i], d[i], |iv|, j);
    FoldLast(LaneStep, iv[j], LaneInput(d[..i], |iv|, j), d[i]);
    assert LaneInput(d[..i], |iv|, j) + [] == LaneInput(d[..i], |iv|, j);
  }
}
