/**
 * Configuration of the write-ahead log and the arithmetic of its geometry,
 * with the widths and wrap-arounds of the machine integers it runs on.
 */
module WalGeometry {
  import opened Words
  import opened LittleEndian

  const FILE_HEADER_SIZE: u16 := 64
  const RECORD_HEADER_SIZE: u16 := 24
  const LEAST_ALIGNMENT: u32 := 8  // the size of an address on a 64-bit host

  // Stream kinds are stored as 16-bit numbers and any number can be read back.
  const GENERIC: u16 := 0
  const COMMAND: u16 := 1
  const EVENT: u16 := 2

  datatype WalConfig = WalConfig(
    payloadSize: u32,
    capacity: u32,
    alignment: u32,
    payloadSchemaVersion: u32,
    streamKind: u16,
    streamId: u64,
    epochId: u64,
    firstSequence: u64,
    manifestId: u64)

  // ----- Checked arithmetic and geometry -----

  datatype Checked = Value(value: u64) | Overflow

  function CheckedAdd(left: u64, right: u64): Checked {
    if left > U64_MAX - right then Overflow else Value(left + right)
  }

  function CheckedMul(left: u64, right: u64): Checked {
    if left != 0 && right > U64_MAX / left then Overflow
    else
      MulBound(left, right);
      Value(left * right)
  }

  lemma MulBound(left: nat, right: nat)
    requires left == 0 || right <= U64_MAX / left
    ensures left * right <= U64_MAX
  {
    if left != 0 {
      assert left * right <= left * (U64_MAX / left);
    }
  }

  /** `alignment - 1` wraps when the alignment is zero, and the sum then overflows. */
  function CheckedAlignUp(value: u64, alignment: u64): (r: Checked)
    requires value > 0
  {
    var bias: u64 := if alignment == 0 then U64_MAX else alignment - 1;
    match CheckedAdd(value, bias)
    case Overflow => Overflow
    case Value(biased) =>
      DivMulBound(biased, alignment);
      Value((biased / alignment) * alignment)
  }

  lemma DivMulBound(a: nat, d: nat)
    requires d > 0
    ensures 0 <= (a / d) * d <= a
    ensures a == (a / d) * d + a % d
    ensures a < (a / d) * d + d
  {
    assert a == d * (a / d) + a % d;
  }

  function AlignedRecordSize(config: WalConfig): u64 {
    match CheckedAdd(RECORD_HEADER_SIZE, config.payloadSize)
    case Overflow => 0
    case Value(rawSize) =>
      match CheckedAlignUp(rawSize, config.alignment)
      case Overflow => 0
      case Value(stride) => stride
  }

  function RecordsOffset(config: WalConfig): u32 {
    match CheckedAlignUp(FILE_HEADER_SIZE, config.alignment)
    case Overflow => 0
    case Value(offset) => if offset > U32_MAX then 0 else offset
  }

  /** The raw size is added in 32 bits and may wrap; so may the narrowed difference. */
  function PaddingSize(config: WalConfig): u32 {
    var rawSize: u64 := (RECORD_HEADER_SIZE + config.payloadSize) % 0x1_0000_0000;
    ((AlignedRecordSize(config) as int - rawSize) % 0x1_0000_0000_0000_0000) % 0x1_0000_0000
  }

  function FileHeaderPaddingSize(config: WalConfig): u32 {
    (RecordsOffset(config) as int - FILE_HEADER_SIZE) % 0x1_0000_0000
  }

  /** The numbers with a single bit set; the code tests `n & (n - 1)`. */
  predicate PowerOfTwo(n: nat) {
    n == 1 || (n > 1 && n % 2 == 0 && PowerOfTwo(n / 2))
  }

  predicate KnownStreamKind(kind: u16) {
    kind == GENERIC || kind == COMMAND || kind == EVENT
  }

  predicate ValidConfig(config: WalConfig) {
    && config.payloadSize != 0 && config.capacity != 0
    && config.alignment >= LEAST_ALIGNMENT && config.firstSequence != 0
    && KnownStreamKind(config.streamKind)
    && (config.streamKind != GENERIC ==> config.streamId != 0 && config.epochId != 0 && config.manifestId != 0)
    && PowerOfTwo(config.alignment)
    && CheckedAlignUp(config.payloadSize, config.alignment).Value?
    && CheckedMul(CheckedAlignUp(config.payloadSize, config.alignment).value, config.capacity).Value?
    && RecordsOffset(config) != 0 && AlignedRecordSize(config) != 0
  }

  // ----- What the arithmetic means -----

  /** `m` is a multiple of `d` that is at least `x`, and no smaller one is. */
  ghost predicate LeastMultiple(m: nat, d: nat, x: nat) {
    d > 0 && m % d == 0 && x <= m < x + d
  }

  lemma LeastMultipleIsLeast(m: nat, d: nat, x: nat, other: nat)
    requires LeastMultiple(m, d, x) && other % d == 0 && x <= other
    ensures m <= other
  {
    DivMulBound(m, d);
    DivMulBound(other, d);
    MultiplesApart(m / d, other / d, d);
  }

  lemma MultiplesApart(k: nat, j: nat, d: nat)
    ensures k * d <= j * d || j * d + d <= k * d
  {
    assert (j + 1) * d == j * d + d;
    if j < k {
      MulMono(j + 1, k, d);
    } else {
      MulMono(k, j, d);
    }
  }

  lemma MulMono(a: nat, b: nat, c: nat)
    requires a <= b
    ensures a * c <= b * c && c * a <= c * b
  {}

  lemma MultipleMod(k: nat, d: nat)
    requires d > 0
    ensures (k * d) % d == 0
  {
    DivUnique(k * d, d, k, 0);
  }

  lemma AlignUpLeast(value: u64, alignment: u64)
    requires value > 0 && alignment > 0
    ensures CheckedAlignUp(value, alignment).Overflow? <==> value + (alignment - 1) > U64_MAX
    ensures CheckedAlignUp(value, alignment).Value? ==>
      LeastMultiple(CheckedAlignUp(value, alignment).value, alignment, value)
  {
    if value + (alignment - 1) <= U64_MAX {
      var biased := value + (alignment - 1);
      DivMulBound(biased, alignment);
      MultipleMod(biased / alignment, alignment);
    }
  }

  function Pow2(n: nat): (p: nat)
    ensures p > 0
  {
    if n == 0 then 1 else 2 * Pow2(n - 1)
  }

  lemma {:induction false} PowerOfTwoDivides(a: nat, n: nat)
    requires PowerOfTwo(a) && a <= Pow2(n)
    ensures Pow2(n) % a == 0
    decreases n
  {
    if a > 1 {
      PowerOfTwoDivides(a / 2, n - 1);
      var h := a / 2;
      var q := Pow2(n - 1) / h;
      assert Pow2(n - 1) == q * h;
      assert Pow2(n) == 2 * (q * h) == q * (2 * h) == q * a;
      MultipleMod(q, a);
    }
  }

  lemma {:induction false} PowerOfTwoGap(a: nat, n: nat)
    requires PowerOfTwo(a) && a < 2 * Pow2(n)
    ensures a <= Pow2(n)
    decreases n
  {
    if a > 1 && n > 0 {
      PowerOfTwoGap(a / 2, n - 1);
    }
  }

  lemma Pow2Values()
    ensures Pow2(31) == 0x8000_0000 && Pow2(32) == 0x1_0000_0000
  {
    assert Pow2(8) == 256;
    assert Pow2(16) == 65536;
    assert Pow2(24) == 0x100_0000;
  }

  lemma AlignmentDivides(alignment: u32)
    requires PowerOfTwo(alignment)
    ensures alignment <= 0x8000_0000
    ensures 0x8000_0000 % alignment == 0 && 0x1_0000_0000 % alignment == 0
  {
    Pow2Values();
    PowerOfTwoGap(alignment, 31);
    PowerOfTwoDivides(alignment, 31);
    PowerOfTwoDivides(alignment, 32);
  }

  /**
   * Both offsets are the least sufficient multiples of the alignment, neither is
   * zero, and both paddings come out right even where the 32-bit sum of header
   * and payload size wraps.
   */
  lemma Geometry(config: WalConfig)
    requires PowerOfTwo(config.alignment)
    ensures LeastMultiple(RecordsOffset(config), config.alignment, FILE_HEADER_SIZE)
    ensures LeastMultiple(AlignedRecordSize(config), config.alignment, RECORD_HEADER_SIZE + config.payloadSize)
    ensures FileHeaderPaddingSize(config) == RecordsOffset(config) - FILE_HEADER_SIZE
    ensures PaddingSize(config) == AlignedRecordSize(config) - RECORD_HEADER_SIZE - config.payloadSize
    ensures RecordsOffset(config) != 0 && AlignedRecordSize(config) != 0
  {
    AlignmentDivides(config.alignment);
    AlignUpLeast(FILE_HEADER_SIZE, config.alignment);
    var offset := CheckedAlignUp(FILE_HEADER_SIZE, config.alignment).value;
    LeastMultipleIsLeast(offset, config.alignment, FILE_HEADER_SIZE, 0x8000_0000);
    AlignUpLeast(RECORD_HEADER_SIZE + config.payloadSize, config.alignment);
    PaddingUnwraps(config);
  }

  lemma PaddingUnwraps(config: WalConfig)
    requires config.alignment <= 0x8000_0000
    requires LeastMultiple(AlignedRecordSize(config), config.alignment, RECORD_HEADER_SIZE + config.payloadSize)
    ensures PaddingSize(config) == AlignedRecordSize(config) - RECORD_HEADER_SIZE - config.payloadSize
  {
    NarrowedDifference(AlignedRecordSize(config), RECORD_HEADER_SIZE + config.payloadSize);
  }

  lemma NarrowedDifference(stride: nat, sum: nat)
    requires sum < 0x2_0000_0000 && sum <= stride < sum + 0x8000_0000
    ensures ((stride - sum % 0x1_0000_0000) % 0x1_0000_0000_0000_0000) % 0x1_0000_0000 == stride - sum
  {
    var wrapped := sum % 0x1_0000_0000;
    if sum < 0x1_0000_0000 {
      assert wrapped == sum;
      ModSmall(stride - sum, 0x1_0000_0000_0000_0000);
      ModSmall(stride - sum, 0x1_0000_0000);
    } else {
      assert wrapped == sum - 0x1_0000_0000;
      ModSmall(stride - wrapped, 0x1_0000_0000_0000_0000);
      ModOnce(stride - sum, 0x1_0000_0000);
    }
  }

  lemma ModSmall(x: nat, m: nat)
    requires x < m
    ensures x % m == x
  {}

  lemma ModOnce(x: nat, m: nat)
    requires x < m
    ensures (x + m) % m == x
  {
    DivUnique(x + m, m, 1, x);
  }

  /**
   * Which configurations of a log are valid, in numbers. On a 64-bit host no
   * arithmetic check ever decides it.
   */
  lemma ValidConfigNeverOverflows(config: WalConfig)
    ensures ValidConfig(config) <==>
      && config.payloadSize != 0 && config.capacity != 0 && config.firstSequence != 0
      && (exists k: nat :: 3 <= k <= 31 && config.alignment == Pow2(k))
      && config.streamKind in {0, 1, 2}
      && (config.streamKind != 0 ==> config.streamId != 0 && config.epochId != 0 && config.manifestId != 0)
  {
    hide Pow2, ValidConfig;
    AlignmentIsPower(config.alignment);
    ValidConfigByTests(config);
  }

  lemma ValidConfigByTests(config: WalConfig)
    ensures ValidConfig(config) <==>
      && config.payloadSize != 0 && config.capacity != 0 && config.firstSequence != 0
      && config.alignment >= LEAST_ALIGNMENT && PowerOfTwo(config.alignment)
      && KnownStreamKind(config.streamKind)
      && (config.streamKind != 0 ==> config.streamId != 0 && config.epochId != 0 && config.manifestId != 0)
  {
    if config.payloadSize != 0 && PowerOfTwo(config.alignment) {
      Geometry(config);
      StorageNeverOverflows(config.payloadSize, config.alignment, config.capacity);
    }
  }

  /** The storage of a ring always has a size: no check of the stride or of the product fails. */
  lemma StorageNeverOverflows(payloadSize: u32, alignment: u32, capacity: u32)
    requires payloadSize != 0 && PowerOfTwo(alignment)
    ensures CheckedAlignUp(payloadSize, alignment).Value?
    ensures CheckedMul(CheckedAlignUp(payloadSize, alignment).value, capacity).Value?
    ensures LeastMultiple(CheckedAlignUp(payloadSize, alignment).value, alignment, payloadSize)
  {
    AlignmentDivides(alignment);
    AlignUpLeast(payloadSize, alignment);
    var stride := CheckedAlignUp(payloadSize, alignment).value;
    LeastMultipleIsLeast(stride, alignment, payloadSize, 0x1_0000_0000);
    StorageFits(stride, capacity);
  }

  /** The alignments that pass both tests are the powers of two from 8 to the largest of 32 bits. */
  lemma AlignmentIsPower(alignment: u32)
    ensures alignment >= LEAST_ALIGNMENT && PowerOfTwo(alignment)
       <==> exists k: nat :: 3 <= k <= 31 && alignment == Pow2(k)
  {
    assert Pow2(3) == 8;
    Pow2Values();
    if alignment >= LEAST_ALIGNMENT && PowerOfTwo(alignment) {
      var k := Exponent(alignment);
      if k < 3 {
        Pow2Mono(k, 2);
      } else if k > 31 {
        Pow2Mono(32, k);
      }
    }
    if k: nat :| 3 <= k <= 31 && alignment == Pow2(k) {
      PowersPass(k);
      Pow2Mono(3, k);
    }
  }

  lemma {:induction false} Exponent(n: nat) returns (k: nat)
    requires PowerOfTwo(n)
    ensures n == Pow2(k)
  {
    if n == 1 {
      k := 0;
    } else {
      k := Exponent(n / 2);
      k := k + 1;
    }
  }

  lemma {:induction false} PowersPass(k: nat)
    ensures PowerOfTwo(Pow2(k))
  {
    if k > 0 {
      PowersPass(k - 1);
    }
  }

  lemma {:induction false} Pow2Mono(a: nat, b: nat)
    requires a <= b
    ensures Pow2(a) <= Pow2(b)
    decreases b
  {
    if a < b {
      Pow2Mono(a, b - 1);
    }
  }

  lemma StorageFits(stride: u64, capacity: u32)
    requires 0 < stride <= 0x1_0000_0000
    ensures CheckedMul(stride, capacity).Value?
  {
    MulMono(stride, 0x1_0000_0000, capacity);
    DivMulBound(U64_MAX, stride);
    if capacity > U64_MAX / stride {
      MulMono(U64_MAX / stride + 1, capacity, stride);
    }
  }
}
