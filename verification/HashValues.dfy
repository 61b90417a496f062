/**
 The hash step bit by bit and number by number, and hashes evaluated.
 */
module HashValues {
  import opened RingHash

  // ---------- bit by bit ----------

  /** Bit i of the number x, counted from the lowest. */
  function BitOf(x: nat, i: nat): nat {
    if i == 0 then x % 2 else BitOf(x / 2, i - 1)
  }

  /** The exclusive or has a bit exactly where the two numbers differ. */
  lemma {:induction false} XorBits(n: nat, a: nat, b: nat, i: nat)
    requires a < Pow2(n) && b < Pow2(n) && i < n
    ensures BitOf(Xor(n, a, b), i) == if BitOf(a, i) == BitOf(b, i) then 0 else 1
  {
    if i > 0 {
      XorBits(n - 1, a / 2, b / 2, i - 1);
    }
  }

  /**
   One byte more: the state so far, exclusive or with the byte as a word, times the prime, in 32 bits. The word
   is the byte itself below 128 and for an unsigned char, and has its upper 24 bits set for a signed one.
   */
  lemma HashSnoc(signedChar: bool, p: Bytes, c: Byte) returns (x: Word)
    ensures forall i :: 0 <= i < 32 ==>
              var w := if signedChar && c >= 128 then 0x1_0000_0000 - 256 + c else c;
              BitOf(x, i) == if BitOf(Hash(signedChar, p), i) == BitOf(w, i) then 0 else 1
    ensures Hash(signedChar, []) == 2166136261
    ensures Hash(signedChar, p + [c]) == x * 16777619 % 0x1_0000_0000
  {
    var h, w := Hash(signedChar, p), if signedChar && c >= 128 then 0x1_0000_0000 - 256 + c else c;
    WordHas32Bits();
    x := Xor(32, h, w);
    forall i | 0 <= i < 32 ensures BitOf(x, i) == if BitOf(h, i) == BitOf(w, i) then 0 else 1 {
      XorBits(32, h, w, i);
    }
    FoldConcat(Step(signedChar), OFFSET_BASIS, p, [c]);
    FoldOne(Step(signedChar), h, c);
  }

  // ---------- number by number ----------

  lemma {:induction false} XorZero(n: nat, a: nat)
    requires a < Pow2(n)
    ensures Xor(n, a, 0) == a
  {
    if n > 0 {
      XorZero(n - 1, a / 2);
    }
  }

  /** Exclusive or works on the upper n and the lower k bits apart. */
  lemma {:induction false} XorConcat(n: nat, k: nat, a: nat, x: nat, b: nat, y: nat)
    requires a < Pow2(n) && b < Pow2(n) && x < Pow2(k) && y < Pow2(k)
    ensures a * Pow2(k) + x < Pow2(n + k) && b * Pow2(k) + y < Pow2(n + k)
    ensures Xor(n + k, a * Pow2(k) + x, b * Pow2(k) + y) == Xor(n, a, b) * Pow2(k) + Xor(k, x, y)
    decreases k
  {
    if k > 0 {
      var m := Pow2(k - 1);
      assert n + k - 1 == n + (k - 1);
      XorConcat(n, k - 1, a, x / 2, b, y / 2);
      Halves(a, m, x);
      Halves(b, m, y);
      Halves(Xor(n, a, b), m, 0);
    }
  }

  lemma Halves(a: nat, m: nat, x: nat)
    ensures a * (2 * m) == 2 * (a * m)
    ensures (a * (2 * m) + x) / 2 == a * m + x / 2 && (a * (2 * m) + x) % 2 == x % 2
  {
  }

  function Bit(a: nat, b: nat, m: nat): nat
    requires m > 0
  {
    if a / m % 2 == b / m % 2 then 0 else m
  }

  function XorNibble(a: nat, b: nat): nat {
    Bit(a, b, 1) + Bit(a, b, 2) + Bit(a, b, 4) + Bit(a, b, 8)
  }

  lemma XorNibbleIsXor(a: nat, b: nat)
    requires a < 16 && b < 16
    ensures Pow2(4) == 16 && Xor(4, a, b) == XorNibble(a, b)
  {
    assert Pow2(2) == 4 && Pow2(3) == 8;
    assert a / 2 / 2 == a / 4 && a / 2 / 2 / 2 == a / 8 && b / 2 / 2 == b / 4 && b / 2 / 2 / 2 == b / 8;
    assert Xor(2, a / 4, b / 4) == Bit(a, b, 4) / 4 + Bit(a, b, 8) / 4;
  }

  /**
   One step of the hash by arithmetic: the state is h = 256 k + 16 a + b and the byte c = 16 u + v; the product
   is q words and r. A byte from 128 on of a signed char flips the upper bits of the state.
   */
  predicate IsStep(
    signedChar: bool, h: Word, c: Byte, r: Word, k: nat, a: nat, b: nat, u: nat, v: nat, q: nat)
  {
    && h == 256 * k + 16 * a + b && c == 16 * u + v && k < 0x100_0000 && a < 16 && b < 16 && u < 16 && v < 16
    && var high := if signedChar && u >= 8 then 0xFF_FFFF - k else k;
       (256 * high + 16 * XorNibble(a, u) + XorNibble(b, v)) * FNV_PRIME == WORD * q + r
  }

  ghost predicate LeadsTo(signedChar: bool, h: Word, c: Byte, r: Word) {
    exists k, a, b, u, v, q :: IsStep(signedChar, h, c, r, k, a, b, u, v, q)
  }

  lemma Leads(signedChar: bool, h: Word, c: Byte, r: Word, k: nat, a: nat, b: nat, u: nat, v: nat, q: nat)
    requires IsStep(signedChar, h, c, r, k, a, b, u, v, q)
    ensures LeadsTo(signedChar, h, c, r)
  {
  }

  lemma SteppedIs(signedChar: bool, h: Word, c: Byte, r: Word)
    requires LeadsTo(signedChar, h, c, r)
    ensures Stepped(signedChar, h, c) == r
  {
    var k, a, b, u, v, q :| IsStep(signedChar, h, c, r, k, a, b, u, v, q);
    SteppedBy(signedChar, h, c, r, k, a, b, u, v, q);
  }

  lemma SteppedBy(signedChar: bool, h: Word, c: Byte, r: Word, k: nat, a: nat, b: nat, u: nat, v: nat, q: nat)
    requires IsStep(signedChar, h, c, r, k, a, b, u, v, q)
    ensures Stepped(signedChar, h, c) == r
  {
    if signedChar && u >= 8 {
      XorSigned(h, c, k, a, b, u, v);
      MixIs(XorWord(h, 0xFFFF_FF00 + c), q, r);
    } else {
      XorIs(h, c, k, a, b, u, v);
      MixIs(XorWord(h, c), q, r);
    }
  }

  lemma MixIs(x: Word, q: int, r: Word)
    requires x * FNV_PRIME == WORD * q + r
    ensures Mix(x) == r
  {
    Remainder(x * FNV_PRIME, q, r);
  }

  lemma HighPart()
    ensures Pow2(24) == 0x100_0000
  {
    assert Pow2(12) == 4096;
    assert Pow2(18) == 4096 * 64;
    assert Pow2(24) == 4096 * 4096;
  }

  /**
   Two numbers cut at m bits, the upper part of the second all zeros; hi and lo are the powers of the two
   widths and z is the exclusive or of the lower parts.
   */
  lemma XorHighZeros(n: nat, m: nat, hi: nat, lo: nat, h: nat, k: nat, x: nat, y: nat, z: nat)
    requires hi == Pow2(n) && lo == Pow2(m) && k < hi && x < lo && y < lo
    requires h == k * lo + x && z == Xor(m, x, y)
    ensures h < Pow2(n + m) && y < Pow2(n + m) && Xor(n + m, h, y) == k * lo + z
  {
    assert 0 * lo + y == y;
    XorConcat(n, m, k, x, 0, y);
    XorZero(n, k);
  }

  lemma XorIs(h: Word, c: Byte, k: nat, a: nat, b: nat, u: nat, v: nat)
    requires h == 256 * k + 16 * a + b && c == 16 * u + v && a < 16 && b < 16 && u < 16 && v < 16
    ensures k < 0x100_0000 && Pow2(32) == WORD
    ensures Xor(32, h, c) == 256 * k + 16 * XorNibble(a, u) + XorNibble(b, v)
  {
    XorBytes(a, b, u, v);
    WordHas32Bits();
    HighPartFits(h);
    HighPart();
    XorHighZeros(24, 8, 0x100_0000, 256, h, k, 16 * a + b, c, 16 * XorNibble(a, u) + XorNibble(b, v));
  }

  lemma XorBytes(a: nat, b: nat, u: nat, v: nat)
    requires a < 16 && b < 16 && u < 16 && v < 16
    ensures Pow2(8) == 256 && Xor(8, 16 * a + b, 16 * u + v) == 16 * XorNibble(a, u) + XorNibble(b, v)
  {
    XorNibbleIsXor(a, u);
    XorNibbleIsXor(b, v);
    XorConcat(4, 4, a, b, u, v);
  }

  lemma HighPartFits(h: Word)
    ensures h / 256 < Pow2(24)
  {
    assert Pow2(12) == 4096;
    assert Pow2(18) == 4096 * 64;
    assert Pow2(24) == 4096 * 4096;
  }

  lemma HalfOfOnes(m: nat)
    requires m > 0
    ensures (2 * m - 1) / 2 == m - 1 && (2 * m - 1) % 2 == 1
  {
  }

  lemma {:induction false} XorOnes(n: nat, a: nat)
    requires a < Pow2(n)
    ensures Xor(n, a, Pow2(n) - 1) == Pow2(n) - 1 - a
  {
    if n > 0 {
      var m := Pow2(n - 1);
      HalfOfOnes(m);
      XorOnes(n - 1, a / 2);
    }
  }

  /** The same with an upper part of ones. */
  lemma XorHighOnes(n: nat, m: nat, hi: nat, lo: nat, k: nat, x: nat, y: nat)
    requires hi == Pow2(n) && lo == Pow2(m) && k < hi && x < lo && y < lo
    ensures k * lo + x < Pow2(n + m) && (hi - 1) * lo + y < Pow2(n + m)
    ensures Xor(n + m, k * lo + x, (hi - 1) * lo + y) == (hi - 1 - k) * lo + Xor(m, x, y)
  {
    XorConcat(n, m, k, x, hi - 1, y);
    XorOnes(n, k);
  }

  /** A byte from 128 on, with its sign: the upper 24 bits of the state are flipped. */
  lemma XorSigned(h: Word, c: Byte, k: nat, a: nat, b: nat, u: nat, v: nat)
    requires h == 256 * k + 16 * a + b && c == 16 * u + v && a < 16 && b < 16 && u < 16 && v < 16
    ensures k < 0x100_0000 && Pow2(32) == WORD
    ensures Xor(32, h, 0xFFFF_FF00 + c) == 256 * (0xFF_FFFF - k) + 16 * XorNibble(a, u) + XorNibble(b, v)
  {
    XorBytes(a, b, u, v);
    WordHas32Bits();
    HighPartFits(h);
    HighPart();
    XorHighOnes(24, 8, 0x100_0000, 256, k, 16 * a + b, c);
  }

  /** hs lists the states of the hash over s. */
  lemma {:induction false} FoldOf(signedChar: bool, s: Bytes, hs: seq<Word>)
    requires |hs| == |s| + 1 && forall i :: 0 <= i < |s| ==> LeadsTo(signedChar, hs[i], s[i], hs[i+1])
    ensures Fold(Step(signedChar), hs[0], s) == hs[|s|]
  {
    if s != [] {
      SteppedIs(signedChar, hs[0], s[0], hs[1]);
      FoldOf(signedChar, s[1..], hs[1..]);
    }
  }

  // ---------- a letter outside ASCII ----------

  /** The two bytes of the letter u with diaeresis in UTF-8, and the states of the hash over them. */
  const UMLAUT: Bytes := [195, 188]
  const STATES_UNSIGNED: seq<Word> := [2166136261, 1175138418, 295556170]
  const STATES_SIGNED: seq<Word> := [2166136261, 3321057138, 804934730]

  lemma UnsignedFirst()
    ensures LeadsTo(false, STATES_UNSIGNED[0], UMLAUT[0], STATES_UNSIGNED[1])
  {
    Leads(false, 2166136261, 195, 1175138418, 8461469, 12, 5, 12, 3, 8461672);
  }

  lemma UnsignedSecond()
    ensures LeadsTo(false, STATES_UNSIGNED[1], UMLAUT[1], STATES_UNSIGNED[2])
  {
    Leads(false, 1175138418, 188, 295556170, 4590384, 7, 2, 11, 12, 4590495);
  }

  lemma SignedFirst()
    ensures LeadsTo(true, STATES_SIGNED[0], UMLAUT[0], STATES_SIGNED[1])
  {
    Leads(true, 2166136261, 195, 3321057138, 8461469, 12, 5, 12, 3, 8315945);
  }

  lemma SignedSecond()
    ensures LeadsTo(true, STATES_SIGNED[1], UMLAUT[1], STATES_SIGNED[2])
  {
    Leads(true, 3321057138, 188, 804934730, 12972879, 7, 2, 11, 12, 3804428);
  }

  /** The kind of char decides the hash of a letter outside ASCII. */
  lemma HashOfUmlaut(signedChar: bool)
    ensures Hash(signedChar, UMLAUT) == if signedChar then 804934730 else 295556170
  {
    if signedChar {
      SignedFirst();
      SignedSecond();
      FoldOf(true, UMLAUT, STATES_SIGNED);
    } else {
      UnsignedFirst();
      UnsignedSecond();
      FoldOf(false, UMLAUT, STATES_UNSIGNED);
    }
  }
}
