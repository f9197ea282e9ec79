/** The snapshot digest of the protocol state machine: two 32-bit xor-multiply halves in hex. */
module SnapshotHash {

  const WORDS := 0x1_0000_0000
  const PRIME := 0x0100_0193
  /** Inverse of the prime: their product is 1 + OVERFLOW * 2^32. */
  const INVERSE := 0x359C_449B
  const OVERFLOW := 0x0035_9C99

  /** An unsigned 32-bit word, and a UTF-16 code unit. */
  type Word = n: int | 0 <= n < 0x1_0000_0000
  type Unit = u: int | 0 <= u < 0x1_0000

  type Units = seq<Unit>

  // ----- One step -----

  /** Bitwise exclusive or. */
  function Xor(a: nat, b: nat): nat
    decreases a + b
  {
    if a == 0 && b == 0 then 0 else 2 * Xor(a / 2, b / 2) + (a + b) % 2
  }

  lemma XorParts(a: nat, b: nat)
    ensures Xor(a, b) / 2 == Xor(a / 2, b / 2) && Xor(a, b) % 2 == (a + b) % 2
  {
  }

  lemma {:induction false} XorCancels(a: nat, b: nat)
    ensures Xor(Xor(a, b), b) == a
    decreases a + b
  {
    if !(a == 0 && b == 0) {
      var x := Xor(a, b);
      XorParts(a, b);
      XorParts(x, b);
      XorCancels(a / 2, b / 2);
      Parity(a, b, x);
    }
  }

  lemma Parity(a: nat, b: nat, x: nat)
    requires x % 2 == (a + b) % 2
    ensures (x + b) % 2 == a % 2
  {
  }

  lemma {:induction false} XorCommutes(a: nat, b: nat)
    ensures Xor(a, b) == Xor(b, a)
    decreases a + b
  {
    if !(a == 0 && b == 0) {
      XorCommutes(a / 2, b / 2);
    }
  }

  function Power(base: nat, n: nat): nat {
    if n == 0 then 1 else base * Power(base, n - 1)
  }

  lemma {:induction false} XorStaysBelow(a: nat, b: nat, n: nat)
    requires a < Power(2, n) && b < Power(2, n)
    ensures Xor(a, b) < Power(2, n)
    decreases n
  {
    if n > 0 && !(a == 0 && b == 0) {
      XorStaysBelow(a / 2, b / 2, n - 1);
    }
  }

  lemma WordsArePowers()
    ensures Power(2, 32) == WORDS && Power(16, 8) == WORDS
  {
    assert Power(2, 8) == 256;
    assert Power(2, 16) == 65536;
    assert Power(2, 24) == 16777216;
  }

  /** `Math.imul(h ^ c, 0x01000193) >>> 0`. */
  function Absorb(h: Word, c: Unit): Word {
    Xor(h, c) * PRIME % WORDS
  }

  /** The prime is odd, so multiplying by it loses nothing modulo 2^32. */
  lemma MultiplyIsInjective(x: Word, y: Word)
    requires x * PRIME % WORDS == y * PRIME % WORDS
    ensures x == y
  {
    var p, q := x * PRIME / WORDS, y * PRIME / WORDS;
    var d := x - y;
    assert d * PRIME == (p - q) * WORDS;
    Uncover(d, p - q);
  }

  lemma Uncover(d: int, k: int)
    requires d * PRIME == k * WORDS && -WORDS < d < WORDS
    ensures d == 0
  {
    var m := k * INVERSE - d * OVERFLOW;
    assert d == m * WORDS;
  }

  /** From one state, different units lead to different states; with one unit, so do different states. */
  lemma AbsorbIsInjective(h: Word, k: Word, c: Unit, d: Unit)
    requires h == k <==> c != d
    ensures Absorb(h, c) != Absorb(k, d)
  {
    WordsArePowers();
    XorStaysBelow(h, c, 32);
    XorStaysBelow(k, d, 32);
    XorCancels(h, c);
    XorCancels(k, d);
    XorCommutes(h, c);
    XorCommutes(h, d);
    XorCancels(c, h);
    XorCancels(d, h);
    if Absorb(h, c) == Absorb(k, d) {
      MultiplyIsInjective(Xor(h, c), Xor(k, d));
      assert false;
    }
  }

  // ----- The digest -----

  const SEED_1: Word := 0x811c_9dc5
  const SEED_2: Word := 0xc4ce_b9fe

  function Fold(h: Word, input: Units): Word {
    if input == [] then h else Absorb(Fold(h, input[..|input| - 1]), input[|input| - 1])
  }

  function HexDigit(d: nat): Unit
    requires d < 16
  {
    if d < 10 then 48 + d else 87 + d
  }

  /** `toString(16)`: no leading zeros. */
  function Hex(n: nat): Units {
    if n < 16 then [HexDigit(n)] else Hex(n / 16) + [HexDigit(n % 16)]
  }

  /** `padStart(width, "0")`. */
  function PadStart(s: Units, width: nat): Units {
    if |s| >= width then s else seq(width - |s|, _ => 48) + s
  }

  function Digest(input: Units): Units {
    PadStart(Hex(Fold(SEED_1, input)), 8) + PadStart(Hex(Fold(SEED_2, input)), 8)
  }

  method ComputeSnapshotHash(input: Units) returns (digest: Units)
    ensures digest == Digest(input)
  {
    var h1, h2 := SEED_1, SEED_2;
    for i := 0 to |input|
      invariant h1 == Fold(SEED_1, input[..i]) && h2 == Fold(SEED_2, input[..i])
    {
      assert input[..i + 1][..i] == input[..i];
      h1 := Absorb(h1, input[i]);
      h2 := Absorb(h2, input[i]);
    }
    assert input[..|input|] == input;
    digest := PadStart(Hex(h1), 8) + PadStart(Hex(h2), 8);
  }

  // ----- The hex form can be read back -----

  function DigitValue(u: Unit): nat {
    if 48 <= u <= 57 then u - 48 else if 97 <= u <= 102 then u - 87 else 0
  }

  function Value(s: Units): nat {
    if s == [] then 0 else 16 * Value(s[..|s| - 1]) + DigitValue(s[|s| - 1])
  }

  lemma {:induction false} HexReadsBack(n: nat)
    ensures Value(Hex(n)) == n
  {
    if n < 16 {
      assert [HexDigit(n)][..0] == [];
    } else {
      HexReadsBack(n / 16);
      assert Hex(n)[..|Hex(n)| - 1] == Hex(n / 16);
    }
  }

  lemma {:induction false} LeadingZerosCountNothing(zeros: nat, s: Units)
    ensures Value(seq(zeros, _ => 48) + s) == Value(s)
  {
    var z: Units := seq(zeros, _ => 48);
    if s != [] {
      var n := |s| - 1;
      LeadingZerosCountNothing(zeros, s[..n]);
      assert (z + s)[..|z + s| - 1] == z + s[..n];
    } else if zeros > 0 {
      LeadingZerosCountNothing(zeros - 1, []);
      var shorter: Units := seq(zeros - 1, _ => 48);
      assert z + s == z && z[..zeros - 1] == shorter && shorter + [] == shorter;
    } else {
      assert z + s == [];
    }
  }

  lemma {:induction false} HexIsShort(n: nat, digits: nat)
    requires n < Power(16, digits) && digits > 0
    ensures |Hex(n)| <= digits
    decreases digits
  {
    if n >= 16 {
      HexIsShort(n / 16, digits - 1);
    }
  }

  /** Eight hex digits of a word show the word. */
  lemma WordReadsBack(w: Word)
    ensures |PadStart(Hex(w), 8)| == 8 && Value(PadStart(Hex(w), 8)) == w
  {
    WordsArePowers();
    HexIsShort(w, 8);
    HexReadsBack(w);
    LeadingZerosCountNothing(8 - |Hex(w)|, Hex(w));
    assert |Hex(w)| == 8 ==> seq(0, _ => 48) + Hex(w) == Hex(w);
  }

  // ----- One changed unit changes the digest -----

  ghost predicate DifferOnlyAt(a: Units, b: Units, k: nat) {
    && |a| == |b| && k < |a| && a[k] != b[k]
    && forall i | 0 <= i < |a| && i != k :: a[i] == b[i]
  }

  lemma {:induction false} OneChangeChangesFold(h: Word, a: Units, b: Units, k: nat)
    requires DifferOnlyAt(a, b, k)
    ensures Fold(h, a) != Fold(h, b)
    decreases |a|
  {
    var n := |a| - 1;
    if k == n {
      assert a[..n] == b[..n];
    } else {
      OneChangeChangesFold(h, a[..n], b[..n], k);
    }
    AbsorbIsInjective(Fold(h, a[..n]), Fold(h, b[..n]), a[n], b[n]);
  }

  /** Equally long inputs that differ in exactly one code unit never have the same digest. */
  lemma OneChangeChangesDigest(a: Units, b: Units, k: nat)
    requires DifferOnlyAt(a, b, k)
    ensures |Digest(a)| == |Digest(b)| == 16 && Digest(a) != Digest(b)
  {
    OneChangeChangesFold(SEED_1, a, b, k);
    WordReadsBack(Fold(SEED_1, a));
    WordReadsBack(Fold(SEED_1, b));
    WordReadsBack(Fold(SEED_2, a));
    WordReadsBack(Fold(SEED_2, b));
    assert Digest(a)[..8] == PadStart(Hex(Fold(SEED_1, a)), 8);
    assert Digest(b)[..8] == PadStart(Hex(Fold(SEED_1, b)), 8);
  }
}
