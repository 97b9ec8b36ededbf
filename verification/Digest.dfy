/** The FNV-1a digest that names files after their content. */
module Digest {

  type byte = x: int | 0 <= x < 256

  const WORD := 0x1_0000_0000_0000_0000

  /** An unsigned 64-bit machine word. */
  type u64 = x: int | 0 <= x < WORD

  const OFFSET_BASIS: u64 := 0xcbf29ce484222325
  const PRIME: u64 := 0x100000001b3

  /** The inverse of PRIME modulo 2^64. The program never computes it; it exists
      because PRIME is odd, and it is what makes a digest step reversible. */
  const PRIME_INVERSE: u64 := 0xce965057aff6957b

  // ---- Machine arithmetic ----

  function WrappingMul(a: u64, b: u64): u64 {
    (a * b) % WORD
  }

  /** Bitwise exclusive or, from the low bit up. */
  function Xor(x: nat, y: nat): nat
    decreases x + y
  {
    if x == 0 && y == 0 then 0
    else 2 * Xor(x / 2, y / 2) + (if x % 2 == y % 2 then 0 else 1)
  }

  function Pow2(n: nat): (r: nat)
    ensures r > 0
  {
    if n == 0 then 1 else 2 * Pow2(n - 1)
  }

  function XorWord(x: u64, y: u64): u64 {
    WordIsPow2();
    XorBelowPower(x, y, 64);
    Xor(x, y)
  }

  lemma {:induction false} XorInvolution(x: nat, y: nat)
    ensures Xor(Xor(x, y), y) == x
    decreases x + y
  {
    if x != 0 || y != 0 {
      XorInvolution(x / 2, y / 2);
      assert Xor(x, y) / 2 == Xor(x / 2, y / 2);
    }
  }

  lemma {:induction false} XorCommutes(x: nat, y: nat)
    ensures Xor(x, y) == Xor(y, x)
    decreases x + y
  {
    if x != 0 || y != 0 {
      XorCommutes(x / 2, y / 2);
    }
  }

  predicate Bit(x: nat, k: nat) {
    x / Pow2(k) % 2 == 1
  }

  /** A bit is set in the result exactly when it is set in one of the two. */
  lemma {:induction false} XorBit(x: nat, y: nat, k: nat)
    ensures Bit(Xor(x, y), k) <==> Bit(x, k) != Bit(y, k)
    decreases k
  {
    XorHalves(x, y);
    if k > 0 {
      XorBit(x / 2, y / 2, k - 1);
      NextBit(x, k);
      NextBit(y, k);
      NextBit(Xor(x, y), k);
    } else {
      LowBit(x);
      LowBit(y);
      LowBit(Xor(x, y));
    }
  }

  lemma LowBit(x: nat)
    ensures Bit(x, 0) <==> x % 2 == 1
  {
    assert Pow2(0) == 1;
  }

  lemma XorHalves(x: nat, y: nat)
    ensures Xor(x, y) / 2 == Xor(x / 2, y / 2)
    ensures Xor(x, y) % 2 == 1 <==> x % 2 != y % 2
  {
  }

  lemma NextBit(x: nat, k: nat)
    requires k > 0
    ensures Bit(x, k) <==> Bit(x / 2, k - 1)
  {
    HalvesFirst(x, Pow2(k - 1));
  }

  lemma HalvesFirst(x: nat, p: nat)
    requires p > 0
    ensures x / (2 * p) == x / 2 / p
  {
    var q, r := x / 2 / p, x / 2 % p;
    assert x == 2 * (q * p + r) + x % 2;
    assert x == q * (2 * p) + (2 * r + x % 2) && 2 * r + x % 2 < 2 * p;
    DivModUnique(x, 2 * p, q, 2 * r + x % 2);
  }

  lemma DivModUnique(n: nat, d: nat, q: nat, r: nat)
    requires r < d && n == q * d + r
    ensures n / d == q && n % d == r
  {
    var k := n / d - q;
    assert n == (n / d) * d + n % d;
    assert k * d == r - n % d;
    NoSmallMultiple(k, d);
  }

  lemma NoSmallMultiple(k: int, d: nat)
    requires -(d as int) < k * d < d
    ensures k == 0
  {
  }

  lemma {:induction false} XorBelowPower(x: nat, y: nat, n: nat)
    requires x < Pow2(n) && y < Pow2(n)
    ensures Xor(x, y) < Pow2(n)
    decreases n
  {
    if x != 0 || y != 0 {
      XorBelowPower(x / 2, y / 2, n - 1);
    }
  }

  lemma {:induction false} Pow2Sum(m: nat, n: nat)
    ensures Pow2(m + n) == Pow2(m) * Pow2(n)
  {
    if m != 0 {
      Pow2Sum(m - 1, n);
      assert Pow2(m + n) == 2 * Pow2(m - 1 + n);
    }
  }

  lemma WordIsPow2()
    ensures Pow2(64) == WORD
  {
    Pow2Sum(4, 4);
    Pow2Sum(8, 8);
    Pow2Sum(16, 16);
    Pow2Sum(32, 32);
  }

  /** Multiplying by p and then by its inverse q gives the word back. */
  lemma MulInverse(x: u64, p: u64, q: u64)
    requires (p * q) % WORD == 1
    ensures WrappingMul(WrappingMul(x, p), q) == x
  {
    var r, k, m := (x * p) % WORD, (x * p) / WORD, (p * q) / WORD;
    calc {
      r * q;
      (x * p - k * WORD) * q;
      x * (p * q) - (k * q) * WORD;
      x * (m * WORD + 1) - (k * q) * WORD;
      (x * m - k * q) * WORD + x;
    }
    RemainderOf(x * m - k * q, x);
  }

  lemma RemainderOf(q: int, x: u64)
    ensures (q * WORD + x) % WORD == x
  {}

  // ---- The digest ----

  function Step(hash: u64, b: byte): u64 {
    WrappingMul(XorWord(hash, b), PRIME)
  }

  /** The hash a step came from. */
  function Unstep(hash: u64, b: byte): u64 {
    XorWord(WrappingMul(hash, PRIME_INVERSE), b)
  }

  function Fold(hash: u64, bytes: seq<byte>): u64
    decreases |bytes|
  {
    if bytes == [] then hash else Fold(Step(hash, bytes[0]), bytes[1..])
  }

  /** Undo Fold from the last byte back. */
  function Unfold(hash: u64, bytes: seq<byte>): u64
    decreases |bytes|
  {
    if bytes == [] then hash else Unstep(Unfold(hash, bytes[1..]), bytes[0])
  }

  function DigestOf(bytes: seq<byte>): u64 {
    Fold(OFFSET_BASIS, bytes)
  }

  method StableDigest(bytes: seq<byte>) returns (hash: u64)
    ensures hash == DigestOf(bytes)
  {
    hash := OFFSET_BASIS;
    for i := 0 to |bytes|
      invariant Fold(hash, bytes[i..]) == DigestOf(bytes)
    {
      assert bytes[i..][1..] == bytes[i + 1..];
      hash := XorWord(hash, bytes[i]);
      hash := WrappingMul(hash, PRIME);
    }
  }

  /** Each step is a bijection of the 64-bit hash for a fixed byte. */
  lemma StepIsBijective(hash: u64, b: byte)
    ensures Unstep(Step(hash, b), b) == hash
    ensures Step(Unstep(hash, b), b) == hash
  {
    MulInverse(XorWord(hash, b), PRIME, PRIME_INVERSE);
    XorInvolution(hash, b);
    MulInverse(hash, PRIME_INVERSE, PRIME);
    XorInvolution(WrappingMul(hash, PRIME_INVERSE), b);
  }

  /** From one hash, different bytes lead to different hashes. */
  lemma StepSeparatesBytes(hash: u64, a: byte, b: byte)
    requires Step(hash, a) == Step(hash, b)
    ensures a == b
  {
    MulInverse(XorWord(hash, a), PRIME, PRIME_INVERSE);
    MulInverse(XorWord(hash, b), PRIME, PRIME_INVERSE);
    XorCommutes(hash, a);
    XorCommutes(hash, b);
    XorInvolution(a, hash);
    XorInvolution(b, hash);
  }

  /** Whole runs are bijections of the hash: the bytes alone decide the way back. */
  lemma {:induction false} FoldIsBijective(hash: u64, bytes: seq<byte>)
    ensures Unfold(Fold(hash, bytes), bytes) == hash
    ensures Fold(Unfold(hash, bytes), bytes) == hash
    decreases |bytes|
  {
    if bytes != [] {
      FoldIsBijective(Step(hash, bytes[0]), bytes[1..]);
      FoldIsBijective(hash, bytes[1..]);
      StepIsBijective(hash, bytes[0]);
      StepIsBijective(Unfold(hash, bytes[1..]), bytes[0]);
    }
  }

  lemma {:induction false} FoldConcat(hash: u64, s: seq<byte>, t: seq<byte>)
    ensures Fold(hash, s + t) == Fold(Fold(hash, s), t)
    decreases |s|
  {
    if s == [] {
      assert s + t == t;
    } else {
      assert (s + t)[1..] == s[1..] + t;
      FoldConcat(Step(hash, s[0]), s[1..], t);
    }
  }

  /** A common ending neither creates nor hides a collision. */
  lemma CommonSuffixKeepsCollisions(s: seq<byte>, t: seq<byte>, suffix: seq<byte>)
    ensures DigestOf(s + suffix) == DigestOf(t + suffix) <==> DigestOf(s) == DigestOf(t)
  {
    FoldConcat(OFFSET_BASIS, s, suffix);
    FoldConcat(OFFSET_BASIS, t, suffix);
    FoldIsBijective(DigestOf(s), suffix);
    FoldIsBijective(DigestOf(t), suffix);
  }

  /** Two inputs that differ in exactly one byte never collide. */
  lemma OneByteChangesTheDigest(s: seq<byte>, i: nat, b: byte)
    requires i < |s| && s[i] != b
    ensures DigestOf(s[i := b]) != DigestOf(s)
  {
    var head, tail := s[..i], s[i + 1..];
    assert s == head + [s[i]] + tail && s[i := b] == head + [b] + tail;
    CommonSuffixKeepsCollisions(head + [s[i]], head + [b], tail);
    FoldConcat(OFFSET_BASIS, head, [s[i]]);
    FoldConcat(OFFSET_BASIS, head, [b]);
    if Step(DigestOf(head), s[i]) == Step(DigestOf(head), b) {
      StepSeparatesBytes(DigestOf(head), s[i], b);
    }
  }

  lemma {:induction false} XorZero(x: nat)
    ensures Xor(x, 0) == x
  {
    if x != 0 {
      XorZero(x / 2);
    }
  }

  /** The digests of nothing and of the letter a, which name files on disk and may
      never change. */
  lemma DigestsAreStable()
    ensures DigestOf([]) == 0xcbf29ce484222325
    ensures DigestOf([0x61]) == 0xaf63dc4c8601ec8c
  {
    LetterOntoTheBasis();
    FoldOne(OFFSET_BASIS, 0x61);
    MultiplyTheLetter();
  }

  lemma FoldOne(hash: u64, b: byte)
    ensures Fold(hash, [b]) == WrappingMul(XorWord(hash, b), PRIME)
  {
    assert Fold(Step(hash, b), [b][1..]) == Step(hash, b);
  }

  lemma MultiplyTheLetter()
    ensures WrappingMul(0xcbf29ce484222344, PRIME) == 0xaf63dc4c8601ec8c
  {
  }

  lemma LetterOntoTheBasis()
    ensures XorWord(OFFSET_BASIS, 0x61) == 0xcbf29ce484222344
  {
    XorZero(0x197e539c9084446);
    XorUnfolds(0x32fca739210888c, 0x1);
    XorUnfolds(0x65f94e724211119, 0x3);
    XorUnfolds(0xcbf29ce48422232, 0x6);
    XorUnfolds(0x197e539c90844464, 0xc);
    XorUnfolds(0x32fca739210888c9, 0x18);
    XorUnfolds(0x65f94e7242111192, 0x30);
    XorUnfolds(0xcbf29ce484222325, 0x61);
  }

  lemma XorUnfolds(x: nat, y: nat)
    requires x != 0
    ensures Xor(x, y) == 2 * Xor(x / 2, y / 2) + (if x % 2 == y % 2 then 0 else 1)
  {
  }
}
