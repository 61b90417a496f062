/**
 The 32-bit hash of the ring: FNV-1a as in section 2 of draft-eastlake-fnv, one multiplication by the FNV
 prime for each byte. A byte is widened to 32 bits as a C++ `char` is: with its sign where `char` is signed.
 */
module RingHash {

  type Byte = x: int | 0 <= x < 256
  type Bytes = seq<Byte>

  const WORD: int := 0x1_0000_0000
  type Word = x: int | 0 <= x < WORD

  const OFFSET_BASIS: Word := 2166136261
  const FNV_PRIME: int := 16777619

  function Widen(signedChar: bool, c: Byte): Word {
    if signedChar && c >= 128 then 0xFFFF_FF00 + c else c
  }

  function Pow2(n: nat): (p: nat)
    ensures p > 0
  {
    if n == 0 then 1 else 2 * Pow2(n - 1)
  }

  /** Bitwise exclusive or of two numbers of n bits. */
  function Xor(n: nat, a: nat, b: nat): (x: nat)
    requires a < Pow2(n) && b < Pow2(n)
    ensures x < Pow2(n)
  {
    if n == 0 then 0 else 2 * Xor(n - 1, a / 2, b / 2) + (if a % 2 == b % 2 then 0 else 1)
  }

  lemma WordHas32Bits()
    ensures Pow2(32) == WORD
  {
    assert Pow2(5) == 32;
    assert Pow2(10) == 0x400;
    assert Pow2(15) == 0x8000;
    assert Pow2(20) == 0x10_0000;
    assert Pow2(25) == 0x200_0000;
    assert Pow2(30) == 0x4000_0000;
  }

  function XorWord(a: Word, b: Word): Word {
    WordHas32Bits();
    Xor(32, a, b)
  }

  /** Unsigned multiplication wraps modulo 2^32. */
  function Mix(h: Word): Word {
    h * FNV_PRIME % WORD
  }

  function Stepped(signedChar: bool, h: Word, c: Byte): Word {
    Mix(XorWord(h, Widen(signedChar, c)))
  }

  function Step(signedChar: bool): (Word, Byte) -> Word {
    (h: Word, c: Byte) => Stepped(signedChar, h, c)
  }

  function Fold<H, B>(step: (H, B) -> H, h: H, s: seq<B>): H
    decreases |s|
  {
    if s == [] then h else Fold(step, step(h, s[0]), s[1..])
  }

  function Hash(signedChar: bool, s: Bytes): Word {
    Fold(Step(signedChar), OFFSET_BASIS, s)
  }

  // ---------- folds ----------

  /** Different states stay different when the step is injective in the state. */
  lemma {:induction false} FoldApart<H(!new), B(!new)>(step: (H, B) -> H, g: H, h: H, s: seq<B>)
    requires forall x, y, c :: x != y ==> step(x, c) != step(y, c)
    requires g != h
    ensures Fold(step, g, s) != Fold(step, h, s)
    decreases |s|
  {
    if s != [] {
      FoldApart(step, step(g, s[0]), step(h, s[0]), s[1..]);
    }
  }

  lemma {:induction false} FoldConcat<H, B>(step: (H, B) -> H, h: H, s: seq<B>, t: seq<B>)
    ensures Fold(step, h, s + t) == Fold(step, Fold(step, h, s), t)
    decreases |s|
  {
    if s == [] {
      assert s + t == t;
    } else {
      assert (s + t)[1..] == s[1..] + t;
      FoldConcat(step, step(h, s[0]), s[1..], t);
    }
  }

  /** One changed element shows in the result, wherever it stands, when the step is injective in both arguments. */
  lemma FoldSeparates<H(!new), B(!new)>(step: (H, B) -> H, h: H, p: seq<B>, c: B, d: B, q: seq<B>)
    requires forall x, y, b :: x != y ==> step(x, b) != step(y, b)
    requires forall x, a, b :: a != b ==> step(x, a) != step(x, b)
    requires c != d
    ensures Fold(step, h, p + [c] + q) != Fold(step, h, p + [d] + q)
  {
    var x := Fold(step, h, p);
    FoldConcat(step, h, p + [c], q);
    FoldConcat(step, h, p, [c]);
    FoldConcat(step, h, p + [d], q);
    FoldConcat(step, h, p, [d]);
    assert Fold(step, x, [c]) == step(x, c) && Fold(step, x, [d]) == step(x, d);
    FoldApart(step, step(x, c), step(x, d), q);
  }

  // ---------- one step of the hash ----------

  /** Multiplying by the odd prime is undone by multiplying by its inverse modulo 2^32. */
  lemma MixInverse(x: Word)
    ensures Mix(x) * 899433627 % WORD == x
  {
    var q := x * FNV_PRIME / WORD;
    assert Mix(x) == x * FNV_PRIME - WORD * q;
    Remainder(Mix(x) * 899433627, 3513497 * x - 899433627 * q, x);
  }

  lemma Remainder(n: int, q: int, r: Word)
    requires n == WORD * q + r
    ensures n % WORD == r
  {
  }

  lemma MixApart(x: Word, y: Word)
    requires x != y
    ensures Mix(x) != Mix(y)
  {
    MixInverse(x);
    MixInverse(y);
  }

  lemma {:induction false} XorApart(n: nat, h: nat, a: nat, b: nat)
    requires h < Pow2(n) && a < Pow2(n) && b < Pow2(n) && a != b
    ensures Xor(n, h, a) != Xor(n, h, b) && Xor(n, a, h) != Xor(n, b, h)
  {
    if a / 2 != b / 2 {
      XorApart(n - 1, h / 2, a / 2, b / 2);
    }
  }

  lemma StateApart(signedChar: bool, x: Word, y: Word, b: Byte)
    requires x != y
    ensures Stepped(signedChar, x, b) != Stepped(signedChar, y, b)
  {
    var w := Widen(signedChar, b);
    WordHas32Bits();
    XorApart(32, w, x, y);
    MixApart(XorWord(x, w), XorWord(y, w));
  }

  lemma ByteApart(signedChar: bool, x: Word, a: Byte, b: Byte)
    requires a != b
    ensures Stepped(signedChar, x, a) != Stepped(signedChar, x, b)
  {
    var v, w := Widen(signedChar, a), Widen(signedChar, b);
    WordHas32Bits();
    XorApart(32, x, v, w);
    MixApart(XorWord(x, v), XorWord(x, w));
  }

  lemma StepApart(signedChar: bool)
    ensures forall x, y, b :: x != y ==> Step(signedChar)(x, b) != Step(signedChar)(y, b)
    ensures forall x, a, b :: a != b ==> Step(signedChar)(x, a) != Step(signedChar)(x, b)
  {
    forall x: Word, y: Word, b: Byte | x != y ensures Step(signedChar)(x, b) != Step(signedChar)(y, b) {
      StateApart(signedChar, x, y, b);
    }
    forall x: Word, a: Byte, b: Byte | a != b ensures Step(signedChar)(x, a) != Step(signedChar)(x, b) {
      ByteApart(signedChar, x, a, b);
    }
  }

  /** Two strings of any length that differ in exactly one byte never share a hash. */
  lemma SingleChangeSeparates(signedChar: bool, p: Bytes, c: Byte, d: Byte, q: Bytes)
    requires c != d
    ensures Hash(signedChar, p + [c] + q) != Hash(signedChar, p + [d] + q)
  {
    StepApart(signedChar);
    FoldSeparates(Step(signedChar), OFFSET_BASIS, p, c, d, q);
  }

  // ---------- the code ----------

  method ComputeHash(signedChar: bool, input: Bytes) returns (hash: Word)
    ensures hash == Hash(signedChar, input)
  {
    hash := OFFSET_BASIS;
    for i := 0 to |input|
      invariant hash == Fold(Step(signedChar), OFFSET_BASIS, input[..i])
    {
      FoldConcat(Step(signedChar), OFFSET_BASIS, input[..i], [input[i]]);
      FoldOne(Step(signedChar), hash, input[i]);
      assert input[..i+1] == input[..i] + [input[i]];
      hash := XorWord(hash, Widen(signedChar, input[i]));
      hash := hash * FNV_PRIME % WORD;
    }
    assert input[..|input|] == input;
  }

  lemma FoldOne<H, B>(step: (H, B) -> H, h: H, c: B)
    ensures Fold(step, h, [c]) == step(h, c)
  {
  }
}
