/**
 * The NAND error correction code: per 512-byte chunk the controller keeps the XOR of the indices of
 * the set bits and the XOR of their complements. `nand_correct` compares the code stored with a page
 * to the code computed while reading it back and repairs the page in place.
 */
module Nand {

  const CHUNK := 512
  const BITS := 4096
  const CHUNKS := 4
  const PAGE := 2048

  const ECC_OK := 0
  const ECC_CORRECTED := 1
  const ECC_UNCORRECTABLE := -1

  const UNFORMATTED: bv32 := 0xFFFF_FFFF

  /** The bits of an ECC word that carry code; the other eight are spare. */
  const CODE_BITS: bv32 := 0xFF0F_FF0F

  type Chunk = c: seq<bv8> | |c| == CHUNK witness seq(512, _ => 0)

  // ----- numbers and bit vectors, one octal digit at a time -----

  function Digit(n: nat): (x: bv12)
    requires n < 8
  {
    if n == 0 then 0 else if n == 1 then 1 else if n == 2 then 2 else if n == 3 then 3
    else if n == 4 then 4 else if n == 5 then 5 else if n == 6 then 6 else 7
  }

  function Value(x: bv12): (n: nat)
    ensures n < 8
  {
    if x == 0 then 0 else if x == 1 then 1 else if x == 2 then 2 else if x == 3 then 3
    else if x == 4 then 4 else if x == 5 then 5 else if x == 6 then 6 else 7
  }

  function Join(a: bv12, b: bv12, c: bv12, d: bv12): bv12 {
    (a << 9) | (b << 6) | (c << 3) | d
  }

  /** Bit index `i` as the 12-bit number it is. */
  function Bin(i: nat): bv12
    requires i < BITS
  {
    Join(Digit(i / 8 / 8 / 8), Digit(i / 8 / 8 % 8), Digit(i / 8 % 8), Digit(i % 8))
  }

  /** The number a bit vector stands for. */
  function Num(x: bv12): (n: nat)
    ensures n < BITS
  {
    512 * Value(x >> 9) + 64 * Value((x >> 6) & 7) + 8 * Value((x >> 3) & 7) + Value(x & 7)
  }

  lemma DigitValue(n: nat)
    requires n < 8
    ensures Value(Digit(n)) == n && Digit(n) & 0xFF8 == 0
  {
  }

  lemma Parts(a: bv12, b: bv12, c: bv12, d: bv12)
    requires a & 0xFF8 == 0 && b & 0xFF8 == 0 && c & 0xFF8 == 0 && d & 0xFF8 == 0
    ensures var x := Join(a, b, c, d);
            x >> 9 == a && (x >> 6) & 7 == b && (x >> 3) & 7 == c && x & 7 == d
  {
  }

  lemma NumJoin(a: bv12, b: bv12, c: bv12, d: bv12)
    requires a & 0xFF8 == 0 && b & 0xFF8 == 0 && c & 0xFF8 == 0 && d & 0xFF8 == 0
    ensures Num(Join(a, b, c, d)) == 512 * Value(a) + 64 * Value(b) + 8 * Value(c) + Value(d)
  {
    hide Value, Join;
    Parts(a, b, c, d);
  }

  lemma NumBin(i: nat)
    requires i < BITS
    ensures Num(Bin(i)) == i
  {
    hide Digit, Value, Join, Num;
    var p := i / 8;
    var q := p / 8;
    var r := q / 8;
    DigitValue(r);
    DigitValue(q % 8);
    DigitValue(p % 8);
    DigitValue(i % 8);
    NumJoin(Digit(r), Digit(q % 8), Digit(p % 8), Digit(i % 8));
  }

  lemma NumParts(x: bv12)
    ensures Num(x >> 3) == Num(x) / 8 < CHUNK
    ensures Num(x & 7) == Num(x) % 8
  {
    assert (x >> 3) >> 9 == 0 && ((x >> 3) >> 6) & 7 == x >> 9;
    assert ((x >> 3) >> 3) & 7 == (x >> 6) & 7 && (x >> 3) & 7 == (x >> 3) & 7;
    assert (x & 7) >> 9 == 0 && ((x & 7) >> 6) & 7 == 0 && ((x & 7) >> 3) & 7 == 0 && (x & 7) & 7 == x & 7;
  }

  // ----- the code -----

  function Mask(n: nat): bv8
    requires n < 8
  {
    if n == 0 then 1 else if n == 1 then 2 else if n == 2 then 4 else if n == 3 then 8
    else if n == 4 then 16 else if n == 5 then 32 else if n == 6 then 64 else 128
  }

  /** Bits are numbered from the least significant one up. */
  lemma MaskBits(n: nat)
    requires n < 7
    ensures Mask(0) == 1 && Mask(n + 1) == Mask(n) << 1
  {
  }

  predicate BitIn(x: bv8, n: nat)
    requires n < 8
  {
    x & Mask(n) != 0
  }

  function FlipIn(x: bv8, n: nat): bv8
    requires n < 8
  {
    x ^ Mask(n)
  }

  predicate BitAt(d: Chunk, i: nat)
    requires i < BITS
  {
    BitIn(d[i / 8], i % 8)
  }

  function Flip(d: Chunk, i: nat): Chunk
    requires i < BITS
  {
    d[i / 8 := FlipIn(d[i / 8], i % 8)]
  }

  /** `a` with `x` added, bit by bit, when `c` holds. */
  function Toggle(a: bv12, c: bool, x: bv12): bv12 { if c then a ^ x else a }

  /** XOR of the indices of the set bits among the first `n`. */
  function Odd(d: Chunk, n: nat): bv12
    requires n <= BITS
  {
    if n == 0 then 0 else Toggle(Odd(d, n - 1), BitAt(d, n - 1), Bin(n - 1))
  }

  /** XOR of the complements of the indices of the set bits among the first `n`. */
  function Even(d: Chunk, n: nat): bv12
    requires n <= BITS
  {
    if n == 0 then 0 else Toggle(Even(d, n - 1), BitAt(d, n - 1), !Bin(n - 1))
  }

  /** The halves of an ECC word, in the byte order the controller stores them in. */
  function EvenHalf(w: bv32): bv12 { ((w >> 24) | ((w >> 8) & 0xF00)) as bv12 }

  function OddHalf(w: bv32): bv12 { (((w << 8) & 0xF00) | ((w >> 8) & 0x0FF)) as bv12 }

  /** Which bits of the four bytes of an ECC word the halves are. */
  lemma WordBytes(a: bv32, b: bv32, c: bv32, d: bv32)
    requires a < 0x100 && b < 0x100 && c < 0x100 && d < 0x100
    ensures var w := (a << 24) | (b << 16) | (c << 8) | d;
            && EvenHalf(w) == (a | ((b & 0xF) << 8)) as bv12
            && OddHalf(w) == (c | ((d & 0xF) << 8)) as bv12
  {
  }

  /** Word `w` holds the code of `d`. */
  predicate Carries(w: bv32, d: Chunk) {
    EvenHalf(w) == Even(d, 8 * |d|) && OddHalf(w) == Odd(d, 8 * |d|)
  }

  // ----- the decoder -----

  function Xor(v: bv32, w: bv32): bv32 { v ^ w }

  /** Exactly one bit set: the test a nonzero syndrome is put to. */
  predicate Single(s: bv32) { s != 0 && (s - 1) & s == 0 }

  function Xor12(x: bv12, y: bv12): bv12 { x ^ y }

  function Not(x: bv12): bv12 { !x }

  /** The two halves are complements of each other. */
  predicate Complements(s: bv32) { Xor12(EvenHalf(s), OddHalf(s)) == 0xFFF }

  datatype Outcome = Clean | Corrected | Uncorrectable

  function Verdict(stored: bv32, computed: bv32): Outcome {
    var s := Xor(stored, computed);
    if stored == UNFORMATTED || s == 0 then Clean
    else if Single(s) then Corrected
    else if !Complements(s) then Uncorrectable
    else Corrected
  }

  /** The chunk after correction: at most the bit the code names is flipped. */
  function Repair(d: Chunk, stored: bv32, computed: bv32): Chunk {
    var s := Xor(stored, computed);
    if stored == UNFORMATTED || s == 0 || Single(s) || !Complements(s) then d
    else Flip(d, Num(OddHalf(s)))
  }

  lemma BitFlipped(x: bv8, a: nat, b: nat)
    requires a < 8 && b < 8
    ensures BitIn(FlipIn(x, a), b) <==> BitIn(x, b) != (a == b)
  {
  }

  lemma SamePlace(i: nat, j: nat)
    ensures i == j <==> i / 8 == j / 8 && i % 8 == j % 8
  {
  }

  /** Flipping a bit changes that bit and no other. */
  lemma FlipBit(d: Chunk, i: nat, j: nat)
    requires i < BITS && j < BITS
    ensures BitAt(Flip(d, i), j) <==> BitAt(d, j) != (i == j)
  {
    hide BitIn, FlipIn;
    SamePlace(i, j);
    BitFlipped(d[i / 8], i % 8, j % 8);
  }

  lemma FlipInTwice(x: bv8, n: nat)
    requires n < 8
    ensures FlipIn(FlipIn(x, n), n) == x
  {
    hide Mask;
  }

  lemma FlipTwice(d: Chunk, i: nat)
    requires i < BITS
    ensures Flip(Flip(d, i), i) == d
  {
    hide FlipIn;
    FlipInTwice(d[i / 8], i % 8);
  }

  /** Toggling twice undoes itself, and toggles commute. */
  lemma ToggleLaws(a: bv12, c: bool, x: bv12, e: bool, y: bv12)
    ensures Toggle(Toggle(a, c, x), e, y) == Toggle(Toggle(a, e, y), c, x)
    ensures Toggle(a, !c, x) == Toggle(Toggle(a, c, x), true, x)
  {
  }

  lemma {:induction false} FlipHalves(d: Chunk, i: nat, n: nat)
    requires i < BITS && n <= BITS
    ensures Odd(Flip(d, i), n) == Toggle(Odd(d, n), i < n, Bin(i))
    ensures Even(Flip(d, i), n) == Toggle(Even(d, n), i < n, !Bin(i))
  {
    hide Bin, Flip, BitAt, Toggle;
    if n == 0 {
      NoToggle(0, Bin(i), !Bin(i));
    } else {
      FlipHalves(d, i, n - 1);
      FlipBit(d, i, n - 1);
      FlipStep(Odd(d, n - 1), BitAt(d, n - 1), Bin(n - 1), i < n - 1, i == n - 1, Bin(i));
      FlipStep(Even(d, n - 1), BitAt(d, n - 1), !Bin(n - 1), i < n - 1, i == n - 1, !Bin(i));
    }
  }

  lemma NoToggle(a: bv12, x: bv12, y: bv12)
    ensures Toggle(a, false, x) == a && Toggle(a, false, y) == a
  {
  }

  lemma FlipStep(a: bv12, c: bool, x: bv12, before: bool, here: bool, y: bv12)
    requires !(before && here) && (here ==> x == y)
    ensures Toggle(Toggle(a, before, y), c != here, x) == Toggle(Toggle(a, c, x), before || here, y)
  {
    ToggleLaws(a, before, y, c, x);
    ToggleLaws(a, c, x, false, x);
  }

  /** Bit `p` of an ECC word. */
  function CodeBit(p: bv5): bv32 { (1 as bv32) << p }

  predicate IsCode(p: bv5) { CodeBit(p) & CODE_BITS != 0 }

  /** Two words agree in the bits that carry no code. */
  predicate SameSpare(v: bv32, w: bv32) { v & !CODE_BITS == w & !CODE_BITS }

  // ----- syndromes -----

  lemma XorToggle(a: bv12, c: bool, x: bv12)
    ensures c ==> Xor12(a, Toggle(a, c, x)) == x
  {
  }

  lemma XorToggles(a: bv12, c: bool, x: bv12, e: bool, y: bv12)
    ensures c && e ==> Xor12(a, Toggle(Toggle(a, c, x), e, y)) == Xor12(x, y)
  {
  }

  lemma XorMiddle(a: bv12, z: bv12, c: bool, x: bv12)
    ensures c ==> Xor12(Xor12(a, z), Toggle(a, c, x)) == Xor12(x, z)
  {
  }

  lemma ComplementsCancel(x: bv12, y: bv12)
    ensures Xor12(!x, !y) == Xor12(x, y)
    ensures Xor12(x, y) == 0 <==> x == y
    ensures !x == Not(x)
  {
  }

  /** The halves of a sum are the sums of the halves. */
  lemma HalvesXor(v: bv32, w: bv32)
    ensures EvenHalf(Xor(v, w)) == Xor12(EvenHalf(v), EvenHalf(w))
    ensures OddHalf(Xor(v, w)) == Xor12(OddHalf(v), OddHalf(w))
  {
  }

  /** One code bit lies in one half; a spare bit in neither. */
  lemma CodeBitHalves(p: bv5)
    ensures !IsCode(p) ==> EvenHalf(CodeBit(p)) == 0 && OddHalf(CodeBit(p)) == 0
    ensures var gap := Xor12(EvenHalf(CodeBit(p)), OddHalf(CodeBit(p)));
            (IsCode(p) <==> gap != 0) && !Many(gap)
  {
  }

  /** A word whose halves differ in two places or more is not a single bit. */
  lemma NotSingle(s: bv32)
    requires Many(Xor12(EvenHalf(s), OddHalf(s)))
    ensures s != 0 && !Single(s)
  {
  }

  /** Neither is one that has bits in both halves. */
  lemma BothHalves(s: bv32)
    requires EvenHalf(s) == OddHalf(s) != 0
    ensures s != 0 && !Single(s) && !Complements(s)
  {
  }

  predicate Many(x: bv12) { (x - 1) & x != 0 }

  /** An index and its complement, disturbed in at most one place. */
  lemma Disturbed(x: bv12, e: bv12, o: bv12)
    requires !Many(Xor12(e, o))
    ensures var gap := Xor12(Xor12(Not(x), e), Xor12(x, o));
            Many(gap) && (gap == 0xFFF <==> Xor12(e, o) == 0)
    ensures o == 0 ==> Xor12(x, o) == x
  {
    hide Many;
    GapOf(x, e, o);
    AlmostAll(Xor12(e, o));
  }

  lemma GapOf(x: bv12, e: bv12, o: bv12)
    ensures Xor12(Xor12(Not(x), e), Xor12(x, o)) == 0xFFF ^ Xor12(e, o)
    ensures o == 0 ==> Xor12(x, o) == x
  {
  }

  lemma AlmostAll(g: bv12)
    requires !Many(g)
    ensures Many(0xFFF ^ g) && (0xFFF ^ g == 0xFFF <==> g == 0)
  {
  }

  lemma NoDisturbance(x: bv12)
    ensures Xor12(x, 0) == x && Xor12(0, 0) == 0 && !Many(0)
  {
  }

  lemma DisturbedWord(s: bv32, x: bv12, e: bv12, o: bv12)
    requires !Many(Xor12(e, o)) && EvenHalf(s) == Xor12(Not(x), e) && OddHalf(s) == Xor12(x, o)
    ensures s != 0 && !Single(s) && (Complements(s) <==> Xor12(e, o) == 0)
    ensures o == 0 ==> OddHalf(s) == x
  {
    hide Xor12, Not, EvenHalf, OddHalf, Single, Many;
    Disturbed(x, e, o);
    NotSingle(s);
  }

  lemma TwoCode(p: bv5, q: bv5)
    requires p != q
    ensures var s := Xor(CodeBit(p), CodeBit(q));
            s != 0 && !Single(s) && !Complements(s)
  {
  }

  lemma OneCode(p: bv5)
    ensures Single(CodeBit(p))
  {
  }

  /** The halves and the spare bits make up the word. */
  lemma SameWord(v: bv32, w: bv32)
    requires EvenHalf(v) == EvenHalf(w) && OddHalf(v) == OddHalf(w) && SameSpare(v, w)
    ensures v == w
  {
  }

  lemma XorCancel(a: bv32, x: bv32)
    ensures Xor(a, a) == 0 && Xor(Xor(a, x), a) == x
  {
  }

  lemma XorAssoc(a: bv32, x: bv32, y: bv32)
    ensures Xor(Xor(a, x), y) == Xor(a, Xor(x, y))
  {
  }

  // ----- the guarantees, for any data -----

  /** An undamaged chunk is left alone, and so is one that was never written. */
  lemma NoError(d: Chunk, stored: bv32, computed: bv32)
    requires stored == UNFORMATTED || (Carries(stored, d) && Carries(computed, d) && SameSpare(stored, computed))
    ensures Repair(d, stored, computed) == d && Verdict(stored, computed) == Clean
  {
    hide Xor, Single, Complements, EvenHalf, OddHalf, Odd, Even, SameSpare;
    if stored != UNFORMATTED {
      SameWord(stored, computed);
      XorCancel(stored, stored);
    }
  }

  /** Any one flipped data bit is restored. */
  lemma SingleDataError(d: Chunk, i: nat, stored: bv32, computed: bv32)
    requires i < BITS && Carries(stored, d) && Carries(computed, Flip(d, i)) && stored != UNFORMATTED
    ensures Repair(Flip(d, i), stored, computed) == d && Verdict(stored, computed) == Corrected
  {
    hide Xor, Xor12, Single, Complements, EvenHalf, OddHalf, Odd, Even, Bin, Num, Flip, Toggle, Not, Many;
    var n := 8 * |d|;
    FlipHalves(d, i, n);
    HalvesXor(stored, computed);
    XorToggle(Even(d, n), i < n, !Bin(i));
    XorToggle(Odd(d, n), i < n, Bin(i));
    ComplementsCancel(Bin(i), Bin(i));
    NoDisturbance(Bin(i));
    NoDisturbance(Not(Bin(i)));
    DisturbedWord(Xor(stored, computed), Bin(i), 0, 0);
    NumBin(i);
    FlipTwice(d, i);
  }

  /** Any one flipped bit of the stored word leaves the data alone. */
  lemma SingleCodeError(d: Chunk, p: bv5, written: bv32, computed: bv32)
    requires Carries(written, d) && Carries(computed, d) && SameSpare(written, computed)
    requires Xor(written, CodeBit(p)) != UNFORMATTED
    ensures var stored := Xor(written, CodeBit(p));
            Repair(d, stored, computed) == d && Verdict(stored, computed) == Corrected
  {
    hide Xor, Single, Complements, EvenHalf, OddHalf, Odd, Even, SameSpare, CodeBit;
    SameWord(written, computed);
    XorCancel(written, CodeBit(p));
    OneCode(p);
    assert Single(CodeBit(p)) ==> CodeBit(p) != 0 by { SingleNotZero(CodeBit(p)); }
  }

  lemma SingleNotZero(s: bv32)
    ensures Single(s) ==> s != 0
  {
  }

  /** Two flipped data bits are reported, and the data is left alone. */
  lemma DoubleDataError(d: Chunk, i: nat, j: nat, stored: bv32, computed: bv32)
    requires i < BITS && j < BITS && i != j && stored != UNFORMATTED
    requires Carries(stored, d) && Carries(computed, Flip(Flip(d, i), j))
    ensures var now := Flip(Flip(d, i), j);
            Repair(now, stored, computed) == now && Verdict(stored, computed) == Uncorrectable
  {
    hide Xor, Xor12, Single, Complements, EvenHalf, OddHalf, Odd, Even, Bin, Num, Flip, Toggle, Not, Many;
    var n := 8 * |d|;
    FlipHalves(d, i, n);
    FlipHalves(Flip(d, i), j, n);
    HalvesXor(stored, computed);
    XorToggles(Even(d, n), i < n, !Bin(i), j < n, !Bin(j));
    XorToggles(Odd(d, n), i < n, Bin(i), j < n, Bin(j));
    ComplementsCancel(Bin(i), Bin(j));
    NumBin(i);
    NumBin(j);
    BothHalves(Xor(stored, computed));
  }

  /** Two flipped bits of the stored word are reported. */
  lemma DoubleCodeError(d: Chunk, p: bv5, q: bv5, written: bv32, computed: bv32)
    requires Carries(written, d) && Carries(computed, d) && SameSpare(written, computed)
    requires p != q && Xor(Xor(written, CodeBit(p)), CodeBit(q)) != UNFORMATTED
    ensures var stored := Xor(Xor(written, CodeBit(p)), CodeBit(q));
            Repair(d, stored, computed) == d && Verdict(stored, computed) == Uncorrectable
  {
    hide Xor, Single, Complements, EvenHalf, OddHalf, Odd, Even, SameSpare, CodeBit;
    SameWord(written, computed);
    XorAssoc(written, CodeBit(p), CodeBit(q));
    XorCancel(written, Xor(CodeBit(p), CodeBit(q)));
    TwoCode(p, q);
  }

  /**
   * A flipped data bit and a flipped bit of the stored word: reported when that bit carries code, and
   * repaired when it is spare.
   */
  lemma DataAndCodeError(d: Chunk, i: nat, p: bv5, written: bv32, computed: bv32)
    requires i < BITS && Carries(written, d) && Carries(computed, Flip(d, i))
    requires Xor(written, CodeBit(p)) != UNFORMATTED
    ensures var now, stored := Flip(d, i), Xor(written, CodeBit(p));
            && Repair(now, stored, computed) == (if IsCode(p) then now else d)
            && Verdict(stored, computed) == if IsCode(p) then Uncorrectable else Corrected
  {
    hide Xor, Xor12, Single, Complements, EvenHalf, OddHalf, Odd, Even, Bin, Num, Flip, Toggle, Not, Many;
    hide CodeBit, IsCode;
    var n, c := 8 * |d|, CodeBit(p);
    FlipHalves(d, i, n);
    HalvesXor(written, c);
    HalvesXor(Xor(written, c), computed);
    XorMiddle(Even(d, n), EvenHalf(c), i < n, !Bin(i));
    XorMiddle(Odd(d, n), OddHalf(c), i < n, Bin(i));
    ComplementsCancel(Bin(i), Bin(i));
    CodeBitHalves(p);
    DisturbedWord(Xor(Xor(written, c), computed), Bin(i), EvenHalf(c), OddHalf(c));
    NumBin(i);
    FlipTwice(d, i);
  }

  // ----- the page -----

  function ChunkAt(data: seq<bv8>, i: nat): Chunk
    requires |data| == PAGE && i < CHUNKS
  {
    data[CHUNK * i..CHUNK * i + CHUNK]
  }

  /** `1 << (odd & 7)` in a byte is the mask of the bit the number names. */
  lemma ShiftIsMask(x: bv12)
    ensures ShiftedBit(x) == Mask(Num(x) % 8)
  {
    NumParts(x);
    var y := x & 7;
    assert y == 0 || y == 1 || y == 2 || y == 3 || y == 4 || y == 5 || y == 6 || y == 7;
    ShiftCases(y);
    assert ShiftedBit(x) == ShiftedBit(y);
  }

  /** `1 << (x & 7)`. */
  function ShiftedBit(x: bv12): bv8 { (1 as bv8) << ((x & 7) as bv3) }

  lemma ShiftCases(y: bv12)
    requires y & 7 == y
    ensures ShiftedBit(y) == Mask(Num(y))
  {
    assert y >> 9 == 0 && (y >> 6) & 7 == 0 && (y >> 3) & 7 == 0;
  }

  /** At most one of the data bits and the stored code bits of a chunk has changed since it was written. */
  ghost predicate AtMostOneError(d: Chunk, now: Chunk, written: bv32, stored: bv32, computed: bv32) {
    && Carries(written, d) && Carries(computed, now) && SameSpare(written, computed)
    && (|| (now == d && stored == written)
        || (exists i :: 0 <= i < BITS && now == Flip(d, i) && stored == written)
        || (exists p: bv5 :: now == d && stored == Xor(written, CodeBit(p))))
  }

  /** What was written comes back, and nothing is reported as lost. */
  lemma Recovered(d: Chunk, now: Chunk, written: bv32, stored: bv32, computed: bv32)
    requires AtMostOneError(d, now, written, stored, computed) && stored != UNFORMATTED
    ensures Repair(now, stored, computed) == d && Verdict(stored, computed) != Uncorrectable
  {
    hide Xor, Repair, Verdict, CodeBit, Flip, Carries, SameSpare;
    if now == d && stored == written {
      NoError(d, stored, computed);
    } else if i :| 0 <= i < BITS && now == Flip(d, i) && stored == written {
      SingleDataError(d, i, stored, computed);
    } else {
      var p: bv5 :| now == d && stored == Xor(written, CodeBit(p));
      SingleCodeError(d, p, written, computed);
    }
  }

  /** `nand_correct`. */
  method Correct(data: array<bv8>, stored: seq<bv32>, computed: seq<bv32>) returns (r: int)
    requires data.Length == PAGE && |stored| == |computed| == CHUNKS
    modifies data
    ensures forall i :: 0 <= i < CHUNKS ==>
              ChunkAt(data[..], i) == Repair(ChunkAt(old(data[..]), i), stored[i], computed[i])
    ensures r == ECC_OK || r == ECC_CORRECTED || r == ECC_UNCORRECTABLE
    ensures r == ECC_UNCORRECTABLE <==>
              exists i :: 0 <= i < CHUNKS && Verdict(stored[i], computed[i]) == Uncorrectable
    ensures r == ECC_OK <==> forall i :: 0 <= i < CHUNKS ==> Verdict(stored[i], computed[i]) == Clean
  {
    hide Repair, Verdict, ChunkAt;
    ghost var was := data[..];
    var uncorrectable, corrected := 0, 0;
    for i := 0 to CHUNKS
      invariant 0 <= uncorrectable && 0 <= corrected
      invariant forall j :: 0 <= j < i ==> ChunkAt(data[..], j) == Repair(ChunkAt(was, j), stored[j], computed[j])
      invariant forall j :: i <= j < CHUNKS ==> ChunkAt(data[..], j) == ChunkAt(was, j)
      invariant uncorrectable > 0 <==> exists j :: 0 <= j < i && Verdict(stored[j], computed[j]) == Uncorrectable
      invariant corrected > 0 <==> exists j :: 0 <= j < i && Verdict(stored[j], computed[j]) == Corrected
    {
      var outcome := CorrectChunk(data, i, stored[i], computed[i]);
      if outcome == Uncorrectable {
        uncorrectable := uncorrectable + 1;
      } else if outcome == Corrected {
        corrected := corrected + 1;
      }
    }
    if uncorrectable > 0 {
      return ECC_UNCORRECTABLE;
    }
    return if corrected > 0 then ECC_CORRECTED else ECC_OK;
  }

  /** `nand_correct`: one turn of the loop. */
  method CorrectChunk(data: array<bv8>, i: nat, stored: bv32, computed: bv32) returns (outcome: Outcome)
    requires data.Length == PAGE && i < CHUNKS
    modifies data
    ensures outcome == Verdict(stored, computed)
    ensures ChunkAt(data[..], i) == Repair(ChunkAt(old(data[..]), i), stored, computed)
    ensures forall j :: 0 <= j < CHUNKS && j != i ==> ChunkAt(data[..], j) == ChunkAt(old(data[..]), j)
  {
    hide ChunkAt, Flip, Num, Xor, Single, Complements, OddHalf;
    var syndrome := Xor(stored, computed);
    outcome := Clean;
    if stored != UNFORMATTED && syndrome != 0 {
      if Single(syndrome) {
        outcome := Corrected;
      } else if !Complements(syndrome) {
        outcome := Uncorrectable;
      } else {
        FixBit(data, i, OddHalf(syndrome));
        outcome := Corrected;
      }
    }
  }

  /** `nand_correct`: flip the bad bit. */
  method FixBit(data: array<bv8>, i: nat, odd: bv12)
    requires data.Length == PAGE && i < CHUNKS
    modifies data
    ensures ChunkAt(data[..], i) == Flip(ChunkAt(old(data[..]), i), Num(odd))
    ensures forall j :: 0 <= j < CHUNKS && j != i ==> ChunkAt(data[..], j) == ChunkAt(old(data[..]), j)
  {
    hide Num, Mask, ShiftedBit;
    NumParts(odd);
    ShiftIsMask(odd);
    var k := CHUNK * i + Num(odd >> 3);
    data[k] := data[k] ^ ShiftedBit(odd);
  }
}
