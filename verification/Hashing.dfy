/** The 64-bit mixer and the string fold of easyhash, on words modulo 2^64. */
module Hashing {
  import opened Bits

  const WORD: nat := 0x1_0000_0000_0000_0000

  type Word = n: nat | n < 0x1_0000_0000_0000_0000

  // ---------- exclusive or ----------

  /** `a ^ b`, bit by bit from the lowest. */
  function Xor(a: nat, b: nat): nat {
    if a == 0 && b == 0 then 0
    else 2 * Xor(a / 2, b / 2) + if a % 2 == b % 2 then 0 else 1
  }

  /** Binary digit `k` of `a`. */
  function Bit(a: nat, k: nat): nat {
    if k == 0 then a % 2 else Bit(a / 2, k - 1)
  }

  lemma LowDigit(a: nat, q: nat, d: nat)
    requires a == 2 * q + d && d < 2
    ensures a / 2 == q && a % 2 == d
  {
  }

  /** A digit of the result is set exactly when the digits of the operands differ. */
  lemma {:induction false} XorBits(a: nat, b: nat, k: nat)
    ensures Bit(Xor(a, b), k) == if Bit(a, k) == Bit(b, k) then 0 else 1
    decreases k
  {
    XorUnfold(a, b);
    LowDigit(Xor(a, b), Xor(a / 2, b / 2), if a % 2 == b % 2 then 0 else 1);
    if k > 0 {
      XorBits(a / 2, b / 2, k - 1);
    }
  }

  lemma {:induction false} XorTwice(a: nat, b: nat)
    ensures Xor(Xor(a, b), b) == a
  {
    if a != 0 || b != 0 {
      var c := Xor(a, b);
      XorTwice(a / 2, b / 2);
      assert c / 2 == Xor(a / 2, b / 2);
    }
  }

  lemma {:induction false} XorCommutes(a: nat, b: nat)
    ensures Xor(a, b) == Xor(b, a)
  {
    if a != 0 || b != 0 {
      XorCommutes(a / 2, b / 2);
    }
  }

  /** Bits above the k lowest pass through when the other operand has none. */
  lemma {:induction false} XorLow(h: nat, l: nat, b: nat, k: nat)
    requires l < Pow2(k) && b < Pow2(k)
    ensures Xor(l, b) < Pow2(k)
    ensures Xor(h * Pow2(k) + l, b) == h * Pow2(k) + Xor(l, b)
  {
    if k == 0 {
      XorZero(h);
    } else {
      XorLow(h, l / 2, b / 2, k - 1);
      XorUnfold(l, b);
      XorDouble(h, l, b, Pow2(k - 1));
    }
  }

  lemma XorDouble(h: nat, l: nat, b: nat, p: nat)
    requires Xor(h * p + l / 2, b / 2) == h * p + Xor(l / 2, b / 2)
    ensures Xor(h * (2 * p) + l, b) == h * (2 * p) + Xor(l, b)
  {
    DoubleParts(h, p, l);
    XorUnfold(h * (2 * p) + l, b);
    XorUnfold(l, b);
  }

  lemma XorUnfold(a: nat, b: nat)
    ensures Xor(a, b) == 2 * Xor(a / 2, b / 2) + if a % 2 == b % 2 then 0 else 1
  {
  }

  lemma DoubleParts(h: nat, p: nat, l: nat)
    ensures var x := h * (2 * p) + l; x == 2 * (h * p + l / 2) + l % 2 && x / 2 == h * p + l / 2 && x % 2 == l % 2
    ensures h * (2 * p) == 2 * (h * p)
  {
    assert h * (2 * p) == 2 * (h * p);
  }

  lemma {:induction false} XorZero(a: nat)
    ensures Xor(a, 0) == a
  {
    if a != 0 {
      XorZero(a / 2);
    }
  }

  lemma PowersUsed()
    ensures Pow2(8) == 256 && Pow2(33) == 0x2_0000_0000 && Pow2(64) == WORD
  {
    assert Pow2(8) == 256;
    assert Pow2(16) == 0x1_0000;
    assert Pow2(24) == 0x100_0000;
    assert Pow2(33) == 0x2_0000_0000 by { assert Pow2(28) == 0x1000_0000; }
    assert Pow2(40) == 0x100_0000_0000;
    assert Pow2(48) == 0x1_0000_0000_0000;
    assert Pow2(56) == 0x100_0000_0000_0000;
  }

  lemma XorIsWord(a: Word, b: Word)
    ensures Xor(a, b) < WORD
  {
    PowersUsed();
    XorLow(0, a, b, 64);
  }

  // ---------- odd multipliers ----------

  const MIX1: nat := 0xff51afd7ed558ccd
  const MIX2: nat := 0xc4ceb9fe1a85ec53
  const FNV_PRIME: nat := 1099511628211

  const UNMIX1: nat := 0x4f74430c22a54005
  const UNMIX2: nat := 0x9cb4b2f8129337db
  const UNPRIME: nat := 0xce965057aff6957b

  function Times(x: Word, m: nat): Word {
    (x * m) % WORD
  }

  /** A multiplier with an inverse modulo 2^64 is undone by that inverse. */
  lemma TimesInverse(x: Word, m: nat, w: nat)
    requires (m * w) % WORD == 1
    ensures Times(Times(x, m), w) == x
  {
    var q, r, k := (x * m) / WORD, (x * m) % WORD, (m * w) / WORD;
    assert x * m == WORD * q + r && m * w == WORD * k + 1;
    calc {
      r * w;
      (x * m - WORD * q) * w;
      x * m * w - WORD * q * w;
      { assert x * m * w == x * (m * w); }
      x * (WORD * k + 1) - WORD * q * w;
      { assert x * (WORD * k + 1) == WORD * (x * k) + x; assert WORD * q * w == WORD * (q * w); }
      WORD * (x * k - q * w) + x;
    }
    Multiple(r * w, x, x * k - q * w);
  }

  lemma Multiple(a: nat, r: Word, d: int)
    requires a == WORD * d + r
    ensures a % WORD == r
  {
  }

  lemma OddMultipliers()
    ensures (MIX1 * UNMIX1) % WORD == 1 && (UNMIX1 * MIX1) % WORD == 1
    ensures (MIX2 * UNMIX2) % WORD == 1 && (UNMIX2 * MIX2) % WORD == 1
    ensures (FNV_PRIME * UNPRIME) % WORD == 1
  {
  }

  // ---------- the mixer ----------

  /** `x ^ (x >> 33)` */
  function XorShift(x: Word): Word {
    XorIsWord(x, x / 0x2_0000_0000);
    Xor(x, x / 0x2_0000_0000)
  }

  /** `q` is `a` without its `j` lowest digits. */
  lemma {:induction false} BitOfShifted(a: nat, j: nat, k: nat, q: nat, r: nat)
    requires a == q * Pow2(j) + r && r < Pow2(j)
    ensures Bit(q, k) == Bit(a, j + k)
    decreases j
  {
    if j > 0 {
      HalveParts(a, Pow2(j - 1), q, r);
      BitOfShifted(a / 2, j - 1, k, q, r / 2);
    }
  }

  lemma HalveParts(a: nat, p: nat, q: nat, r: nat)
    requires a == q * (2 * p) + r
    ensures a / 2 == q * p + r / 2
  {
    assert q * (2 * p) == 2 * (q * p);
  }

  /** Digit `k` of the shifted xor compares digits `k` and `k + 33`. */
  lemma XorShiftBits(x: Word, k: nat)
    ensures Bit(XorShift(x), k) == if Bit(x, k) == Bit(x, 33 + k) then 0 else 1
  {
    PowersUsed();
    XorBits(x, x / 0x2_0000_0000, k);
    BitOfShifted(x, 33, k, x / 0x2_0000_0000, x % 0x2_0000_0000);
  }

  lemma XorShiftSplit(h: nat, l: nat)
    requires h < 0x8000_0000 && l < 0x2_0000_0000
    ensures Xor(l, h) < 0x2_0000_0000
    ensures XorShift(h * 0x2_0000_0000 + l) == h * 0x2_0000_0000 + Xor(l, h)
  {
    PowersUsed();
    XorLow(h, l, h, 33);
  }

  lemma XorShiftTwice(x: Word)
    ensures XorShift(XorShift(x)) == x
  {
    var h, l := x / 0x2_0000_0000, x % 0x2_0000_0000;
    assert x == h * 0x2_0000_0000 + l;
    XorShiftSplit(h, l);
    var m := Xor(l, h);
    XorShiftSplit(h, m);
    XorTwice(l, h);
    assert XorShift(x) == h * 0x2_0000_0000 + m;
  }

  function Mix(x: Word): Word {
    XorShift(Times(XorShift(Times(XorShift(x), MIX1)), MIX2))
  }

  function Unmix(y: Word): Word {
    XorShift(Times(XorShift(Times(XorShift(y), UNMIX2)), UNMIX1))
  }

  /** The mixer is a bijection on words, and `Unmix` its inverse. */
  lemma MixIsBijective(x: Word)
    ensures Unmix(Mix(x)) == x && Mix(Unmix(x)) == x
  {
    OddMultipliers();
    UndoRound(x, MIX1, UNMIX1, MIX2, UNMIX2);
    UndoRound(x, UNMIX2, MIX2, UNMIX1, MIX1);
  }

  lemma UndoRound(x: Word, m: nat, m': nat, n: nat, n': nat)
    requires (m * m') % WORD == 1 && (n * n') % WORD == 1
    ensures var y := XorShift(Times(XorShift(Times(XorShift(x), m)), n));
      XorShift(Times(XorShift(Times(XorShift(y), n')), m')) == x
  {
    var a := XorShift(x);
    var b := XorShift(Times(a, m));
    XorShiftTwice(Times(b, n));
    TimesInverse(b, n, n');
    XorShiftTwice(Times(a, m));
    TimesInverse(a, m, m');
    XorShiftTwice(x);
  }

  lemma SmallShift(k: Word)
    requires k < 0x2_0000_0000
    ensures XorShift(k) == k
  {
    XorZero(k);
  }

  /** Below 2^33 the shift leaves a word alone, so on these words both multipliers show. */
  lemma MixMultiplies(k: Word)
    requires k < 0x2_0000_0000
    ensures Mix(XorShift(Times(k, UNMIX1))) == XorShift((k * 0xc4ceb9fe1a85ec53) % WORD)
    ensures (UNMIX1 * 0xff51afd7ed558ccd) % WORD == 1
  {
    OddMultipliers();
    XorShiftTwice(Times(k, UNMIX1));
    TimesInverse(k, UNMIX1, MIX1);
    SmallShift(k);
  }

  method HashUint64(x0: Word) returns (x: Word)
    ensures x == Mix(x0)
    ensures Unmix(x) == x0
  {
    x := x0;
    x := XorShift(x);
    x := Times(x, MIX1);
    x := XorShift(x);
    x := Times(x, MIX2);
    x := XorShift(x);
    MixIsBijective(x0);
  }

  /** `(uint64_t)x` for a signed or unsigned integer; a float passes its 32 bits as an unsigned one. */
  function ToWord(x: int): Word {
    x % WORD
  }

  /** The conversion leaves words alone and wraps a negative integer around. */
  lemma ToWordWraps(x: int)
    ensures 0 <= x < WORD ==> ToWord(x) == x
    ensures 0 - WORD <= x < 0 ==> ToWord(x) == x + WORD
    ensures ToWord(x + WORD) == ToWord(x)
  {
  }

  predicate InWidth(x: int, bits: nat, signed: bool)
    requires bits > 0
  {
    if signed then 0 <= x + Pow2(bits - 1) < Pow2(bits) else 0 <= x < Pow2(bits)
  }

  lemma WordsApart(x: int, y: int, lo: int)
    requires lo <= x < lo + WORD && lo <= y < lo + WORD
    ensures ToWord(x) == ToWord(y) <==> x == y
  {
  }

  /** Distinct keys of one integer width never share a hash. */
  lemma KeysNeverShareHash(x: int, y: int, bits: nat, signed: bool)
    requires bits in {8, 16, 32, 64} && InWidth(x, bits, signed) && InWidth(y, bits, signed)
    ensures Mix(ToWord(x)) == Mix(ToWord(y)) <==> x == y
  {
    var lo := if signed then 0 - Pow2(bits - 1) else 0;
    PowersUsed();
    Pow2Monotone(bits, 64);
    WordsApart(x, y, lo);
    MixIsBijective(ToWord(x));
    MixIsBijective(ToWord(y));
  }

  lemma {:induction false} Pow2Monotone(a: nat, b: nat)
    requires a <= b
    ensures Pow2(a) <= Pow2(b)
  {
    if a < b {
      Pow2Monotone(a, b - 1);
    }
  }

  // ---------- strings ----------

  const FNV_OFFSET: Word := 1469598103934665603

  function XorByte(h: Word, b: Byte): Word {
    XorIsWord(h, b);
    Xor(h, b)
  }

  function Fold(h: Word, b: Byte): Word {
    Times(XorByte(h, b), FNV_PRIME)
  }

  function FoldAll(h: Word, s: seq<Byte>): Word {
    if s == [] then h else Fold(FoldAll(h, s[..|s| - 1]), s[|s| - 1])
  }

  function HashOf(s: seq<Byte>): Word {
    FoldAll(FNV_OFFSET, s)
  }

  /** One step is injective in the state and in the byte. */
  lemma FoldInjective(h: Word, b: Byte, h': Word, b': Byte)
    requires Fold(h, b) == Fold(h', b')
    ensures h == h' <==> b == b'
  {
    XorIsWord(h, b);
    XorIsWord(h', b');
    OddMultipliers();
    TimesInverse(Xor(h, b), FNV_PRIME, UNPRIME);
    TimesInverse(Xor(h', b'), FNV_PRIME, UNPRIME);
    XorTwice(h, b);
    XorTwice(h', b');
    XorCommutes(h, b);
    XorCommutes(h', b');
    XorTwice(b, h);
    XorTwice(b', h');
  }

  lemma {:induction false} FoldAllSplit(h: Word, s: seq<Byte>, t: seq<Byte>)
    ensures FoldAll(h, s + t) == FoldAll(FoldAll(h, s), t)
  {
    if t == [] {
      assert s + t == s;
    } else {
      var n := |t| - 1;
      assert (s + t)[..|s + t| - 1] == s + t[..n];
      FoldAllSplit(h, s, t[..n]);
    }
  }

  /** With a common suffix, the hashes collide exactly when the prefix hashes do. */
  lemma {:induction false} CommonSuffix(h: Word, h': Word, t: seq<Byte>)
    ensures FoldAll(h, t) == FoldAll(h', t) <==> h == h'
  {
    if t != [] {
      var n := |t| - 1;
      CommonSuffix(h, h', t[..n]);
      if FoldAll(h, t) == FoldAll(h', t) {
        FoldInjective(FoldAll(h, t[..n]), t[n], FoldAll(h', t[..n]), t[n]);
      }
    }
  }

  lemma SuffixCollision(p: seq<Byte>, p': seq<Byte>, t: seq<Byte>)
    ensures HashOf(p + t) == HashOf(p' + t) <==> HashOf(p) == HashOf(p')
  {
    FoldAllSplit(FNV_OFFSET, p, t);
    FoldAllSplit(FNV_OFFSET, p', t);
    CommonSuffix(HashOf(p), HashOf(p'), t);
  }

  /** Strings of equal length that differ in exactly one byte never collide. */
  lemma OneByteDiffers(s: seq<Byte>, t: seq<Byte>, i: nat)
    requires i < |s| == |t| && s[i] != t[i]
    requires forall j: nat :: j < |s| && j != i ==> s[j] == t[j]
    ensures HashOf(s) != HashOf(t)
  {
    var p, q := s[..i], s[i + 1..];
    assert t[..i] == p && t[i + 1..] == q;
    assert s == (p + [s[i]]) + q && t == (p + [t[i]]) + q;
    SuffixCollision(p + [s[i]], p + [t[i]], q);
    assert (p + [s[i]])[..i] == p && (p + [t[i]])[..i] == p;
    if HashOf(p + [s[i]]) == HashOf(p + [t[i]]) {
      FoldInjective(HashOf(p), s[i], HashOf(p), t[i]);
    }
  }

  lemma HashOfNone()
    ensures HashOf([]) == 1469598103934665603
  {
  }

  /** One more byte is xored in first and multiplied after: undoing the multiplication leaves the xor. */
  lemma HashExtends(s: seq<Byte>, b: Byte)
    ensures HashOf(s + [b]) == (Xor(HashOf(s), b) * 1099511628211) % WORD
    ensures Times(HashOf(s + [b]), UNPRIME) == Xor(HashOf(s), b)
  {
    assert (s + [b])[..|s|] == s;
    OddMultipliers();
    XorIsWord(HashOf(s), b);
    TimesInverse(Xor(HashOf(s), b), FNV_PRIME, UNPRIME);
  }

  /** The bytes of a C string are those before its first zero. */
  method HashString(str: array<Byte>, ghost n: nat) returns (hash: Word)
    requires n < str.Length && str[n] == 0
    requires forall i: nat :: i < n ==> str[i] != 0
    ensures hash == HashOf(str[..n])
    ensures if n == 0 then hash == 1469598103934665603
      else Times(hash, UNPRIME) == Xor(HashOf(str[..n - 1]), str[n - 1])
  {
    hash := FNV_OFFSET;
    var i := 0;
    while str[i] != 0
      invariant i <= n
      invariant hash == HashOf(str[..i])
      decreases n - i
    {
      assert str[..i + 1][..i] == str[..i];
      hash := XorByte(hash, str[i]);
      hash := Times(hash, FNV_PRIME);
      i := i + 1;
    }
    if n > 0 {
      assert str[..n - 1] + [str[n - 1]] == str[..n];
      HashExtends(str[..n - 1], str[n - 1]);
    }
  }
}
