/** Splitting an inclusive IPv4 range into aligned CIDR blocks. */
module Cidr {
  const ADDRESS_SPACE: nat := 0x1_0000_0000

  type Address = a: int | 0 <= a < ADDRESS_SPACE

  /** `(network address, prefix length)`, as the route installer takes it. */
  datatype Block = Block(addr: nat, prefix: nat)

  function Pow2(k: nat): (r: nat)
    ensures r >= 1
  {
    if k == 0 then 1 else 2 * Pow2(k - 1)
  }

  function TrailingZeros(n: nat): nat
    requires n > 0
  {
    if n % 2 == 1 then 0 else 1 + TrailingZeros(n / 2)
  }

  /** `63 - leading_zeros` of a non-zero 64-bit word. */
  function FloorLog2(n: nat): nat
    requires n > 0
  {
    if n == 1 then 0 else 1 + FloorLog2(n / 2)
  }

  function Size(b: Block): (r: nat)
    requires b.prefix <= 32
    ensures r >= 1
  {
    Pow2(32 - b.prefix)
  }

  /** A block a route table can hold: a prefix of 0..32 with the host bits clear. */
  predicate Aligned(b: Block) {
    b.prefix <= 32 && b.addr % Size(b) == 0
  }

  predicate Holds(b: Block, a: int)
    requires b.prefix <= 32
  {
    b.addr <= a < b.addr + Size(b)
  }

  ghost predicate Covered(blocks: seq<Block>, a: int) {
    exists b :: b in blocks && b.prefix <= 32 && Holds(b, a)
  }

  function AlignBits(start: nat): nat {
    if start == 0 then 32 else TrailingZeros(start)
  }

  function SizeBits(start: nat, end: nat): nat
    requires start <= end
  {
    FloorLog2(end - start + 1)
  }

  function HostBits(start: nat, end: nat): nat
    requires start <= end
  {
    if AlignBits(start) <= SizeBits(start, end) then AlignBits(start) else SizeBits(start, end)
  }

  // ---------------------------------------------------------------------------
  // Powers of two
  // ---------------------------------------------------------------------------

  lemma {:induction false} Pow2Sum(a: nat, b: nat)
    ensures Pow2(a + b) == Pow2(a) * Pow2(b)
    decreases a
  {
    if a > 0 {
      Pow2Sum(a - 1, b);
      assert Pow2(a + b) == 2 * Pow2(a - 1 + b);
    }
  }

  lemma {:induction false} Pow2Monotone(a: nat, b: nat)
    requires a <= b
    ensures Pow2(a) <= Pow2(b)
    ensures a < b ==> 2 * Pow2(a) <= Pow2(b)
    decreases b
  {
    if a < b {
      Pow2Monotone(a, b - 1);
    }
  }

  lemma Pow2Of32()
    ensures Pow2(31) == 0x8000_0000 && Pow2(32) == ADDRESS_SPACE
  {
    assert Pow2(8) == 256;
    Pow2Sum(8, 8);
    Pow2Sum(16, 8);
    Pow2Sum(16, 16);
  }

  lemma MulOrder(a: int, b: int, d: nat)
    ensures a <= b ==> a * d <= b * d
  {
  }

  lemma MulAssociates(a: int, b: int, c: int)
    ensures a * (b * c) == (a * b) * c
  {
  }

  lemma MulSuccessor(a: int, d: int)
    ensures (a + 1) * d == a * d + d
  {
  }

  lemma MultipleHasNoRemainder(m: nat, d: nat)
    requires d > 0
    ensures (m * d) % d == 0 && (m * d) / d == m
  {
    var q, r := (m * d) / d, (m * d) % d;
    assert m * d == q * d + r;
    MulOrder(q + 1, m, d);
    MulOrder(m, q - 1, d);
    MulSuccessor(q, d);
    MulSuccessor(q - 1, d);
  }

  lemma ExactQuotient(n: nat, d: nat)
    requires d > 0 && n % d == 0
    ensures n == (n / d) * d
  {
  }

  lemma MultipleOfSmaller(n: nat, a: nat, b: nat)
    requires a <= b && n % Pow2(b) == 0
    ensures n % Pow2(a) == 0 && n == (n / Pow2(a)) * Pow2(a)
  {
    Pow2Sum(b - a, a);
    var q, c := n / Pow2(b), Pow2(b - a);
    ExactQuotient(n, Pow2(b));
    MulAssociates(q, c, Pow2(a));
    MultipleHasNoRemainder(q * c, Pow2(a));
  }

  /** `TrailingZeros` is the exact alignment of `n`. */
  lemma {:induction false} TrailingZerosIsAlignment(n: nat, k: nat)
    requires n > 0
    ensures n % Pow2(k) == 0 <==> k <= TrailingZeros(n)
    decreases k
  {
    if k > 0 {
      HalvesExactly(n, k);
      if n % 2 == 0 {
        TrailingZerosIsAlignment(n / 2, k - 1);
      }
    }
  }

  lemma HalvesExactly(n: nat, k: nat)
    requires k > 0
    ensures n % Pow2(k) == 0 <==> (n % 2 == 0 && (n / 2) % Pow2(k - 1) == 0)
  {
    var p := Pow2(k - 1);
    if n % Pow2(k) == 0 {
      var q := n / Pow2(k);
      assert n == q * Pow2(k) == 2 * (q * p);
      MultipleHasNoRemainder(q, p);
    }
    if n % 2 == 0 && (n / 2) % p == 0 {
      var q := (n / 2) / p;
      assert n == 2 * (q * p) == q * Pow2(k);
      MultipleHasNoRemainder(q, Pow2(k));
    }
  }

  /** `FloorLog2` is the exponent of the largest power of two not above `n`. */
  lemma {:induction false} FloorLog2IsLargest(n: nat, k: nat)
    requires n > 0
    ensures Pow2(k) <= n <==> k <= FloorLog2(n)
    decreases n
  {
    if k > 0 && n > 1 {
      FloorLog2IsLargest(n / 2, k - 1);
      assert Pow2(k) == 2 * Pow2(k - 1);
    } else if k > 0 {
      assert Pow2(k) == 2 * Pow2(k - 1) >= 2;
    }
  }

  /** A block fits at `start` exactly when it has at most `HostBits` host bits. */
  lemma HostBitsIsLargestFit(start: nat, end: nat, k: nat)
    requires start <= end < ADDRESS_SPACE
    ensures (k <= 32 && start % Pow2(k) == 0 && start + Pow2(k) <= end + 1) <==> k <= HostBits(start, end)
    ensures HostBits(start, end) <= 32
  {
    FloorLog2IsLargest(end - start + 1, k);
    Pow2Of32();
    FloorLog2IsLargest(end - start + 1, 33);
    assert Pow2(33) == 2 * Pow2(32);
    if start == 0 {
    } else {
      TrailingZerosIsAlignment(start, k);
    }
  }

  // ---------------------------------------------------------------------------
  // The greedy split
  // ---------------------------------------------------------------------------

  /** The address after the block emitted at `start`. */
  function Next(start: nat, end: Address): (r: nat)
    requires start <= end
    ensures start < r <= end + 1
  {
    HostBitsIsLargestFit(start, end, HostBits(start, end));
    start + Pow2(HostBits(start, end))
  }

  /** The blocks the loop still has to emit once it has reached `start`. */
  function Subnets(start: nat, end: Address): seq<Block>
    decreases end + 1 - start
  {
    if start > end then []
    else
      HostBitsIsLargestFit(start, end, 0);
      [Block(start, 32 - HostBits(start, end))] + Subnets(Next(start, end), end)
  }

  lemma OneStep(start: nat, end: Address, bits: nat)
    requires start <= end && bits == HostBits(start, end)
    ensures bits <= 32 && start < start + Pow2(bits) <= end + 1
    ensures Subnets(start, end) == [Block(start, 32 - bits)] + Subnets(start + Pow2(bits), end)
  {
    HostBitsIsLargestFit(start, end, 0);
    assert Next(start, end) == start + Pow2(bits);
  }

  method RangeToSubnets(from: Address, to: Address) returns (out: seq<Block>)
    ensures out == Subnets(from, to)
  {
    var start: nat, end := from, to;
    out := [];
    if start > end {
      return;
    }
    while start <= end
      invariant start <= end + 1
      invariant out + Subnets(start, end) == Subnets(from, to)
      decreases end + 1 - start
    {
      var alignBits := if start == 0 then 32 else TrailingZeros(start);
      var remaining := end - start + 1;
      var sizeBits := FloorLog2(remaining);
      var bits := if alignBits < sizeBits then alignBits else sizeBits;
      OneStep(start, end, bits);
      ghost var rest := Subnets(start + Pow2(bits), end);
      assert out + ([Block(start, 32 - bits)] + rest) == (out + [Block(start, 32 - bits)]) + rest;
      out := out + [Block(start, 32 - bits)];
      start := start + Pow2(bits);
    }
  }

  // ---------------------------------------------------------------------------
  // Exact cover
  // ---------------------------------------------------------------------------

  /** The blocks tile `[start, end]`: aligned, in order, without gap or overlap. */
  ghost predicate Tiles(blocks: seq<Block>, start: nat, end: int)
    decreases |blocks|
  {
    if blocks == [] then start == end + 1
    else Aligned(blocks[0]) && blocks[0].addr == start && Tiles(blocks[1..], start + Size(blocks[0]), end)
  }

  lemma {:induction false} SubnetsTile(start: nat, end: Address)
    requires start <= end + 1
    ensures Tiles(Subnets(start, end), start, end)
    decreases end + 1 - start
  {
    if start <= end {
      var k := HostBits(start, end);
      HostBitsIsLargestFit(start, end, k);
      SubnetsTile(start + Pow2(k), end);
      assert Subnets(start, end)[1..] == Subnets(start + Pow2(k), end);
    }
  }

  /** A tiling holds exactly the addresses of its range, each in one block only. */
  lemma {:induction false} TilingCoversExactly(blocks: seq<Block>, start: nat, end: int, a: int)
    requires Tiles(blocks, start, end)
    ensures Covered(blocks, a) <==> start <= a <= end
    ensures forall i, j :: 0 <= i < j < |blocks| ==>
      blocks[i].prefix <= 32 && blocks[j].prefix <= 32 && !(Holds(blocks[i], a) && Holds(blocks[j], a))
    ensures start <= end + 1
    decreases |blocks|
  {
    if blocks != [] {
      var rest := blocks[1..];
      TilingCoversExactly(rest, start + Size(blocks[0]), end, a);
      assert blocks == [blocks[0]] + rest;
      assert Covered(rest, a) ==> Covered(blocks, a);
      if Holds(blocks[0], a) {
        assert blocks[0] in blocks;
      }
      forall i, j | 0 <= i < j < |blocks|
        ensures blocks[i].prefix <= 32 && blocks[j].prefix <= 32
        ensures !(Holds(blocks[i], a) && Holds(blocks[j], a))
      {
        assert blocks[j] == rest[j - 1] && rest[j - 1] in rest;
        if i > 0 {
          assert blocks[i] == rest[i - 1];
        } else if |rest| > 1 {
          assert 0 <= 0 < 1 < |rest|;
        }
        if i == 0 && blocks[j].prefix <= 32 && Holds(blocks[j], a) {
          assert Covered(rest, a);
        }
      }
    }
  }

  /** Every address of `[from, to]` is routed by exactly one block, and no other address is routed. */
  lemma ExactCover(from: Address, to: Address, a: int)
    ensures Covered(Subnets(from, to), a) <==> from <= a <= to
    ensures var out := Subnets(from, to);
      forall i, j :: 0 <= i < j < |out| ==>
        out[i].prefix <= 32 && out[j].prefix <= 32 && !(Holds(out[i], a) && Holds(out[j], a))
  {
    if from <= to + 1 {
      SubnetsTile(from, to);
      TilingCoversExactly(Subnets(from, to), from, to, a);
    }
  }

  // ---------------------------------------------------------------------------
  // Optimality
  // ---------------------------------------------------------------------------

  ghost predicate CoversRange(blocks: seq<Block>, start: int, end: int) {
    && (forall b :: b in blocks ==> Aligned(b))
    && (forall a: int :: Covered(blocks, a) <==> start <= a <= end)
  }

  /** Two aligned blocks that meet are nested; the greedy one is never the smaller. */
  lemma GreedyBlockAbsorbs(b: Block, start: nat, end: Address)
    requires start <= end && Aligned(b)
    requires start <= b.addr < start + Pow2(HostBits(start, end))
    requires b.addr + Size(b) <= end + 1
    ensures b.addr + Size(b) <= start + Pow2(HostBits(start, end))
  {
    var k, m := HostBits(start, end), 32 - b.prefix;
    HostBitsIsLargestFit(start, end, k);
    if m <= k {
      NoRoomBetweenMultiples(start, b.addr, m, k);
    } else {
      SharedMultiple(start, b.addr, k, m);
      HostBitsIsLargestFit(start, end, m);
    }
  }

  lemma NoRoomBetweenMultiples(start: nat, addr: nat, m: nat, k: nat)
    requires m <= k && start % Pow2(k) == 0 && addr % Pow2(m) == 0
    requires addr < start + Pow2(k)
    ensures addr + Pow2(m) <= start + Pow2(k)
  {
    var d, c := Pow2(m), Pow2(k - m);
    MultipleOfSmaller(start, m, k);
    ExactQuotient(addr, d);
    Pow2Sum(k - m, m);
    MulDistributes(start / d, c, d);
    NextMultiple(start / d + c, addr / d, d);
  }

  lemma SharedMultiple(start: nat, addr: nat, k: nat, m: nat)
    requires k <= m && start % Pow2(k) == 0 && addr % Pow2(m) == 0
    requires start <= addr < start + Pow2(k)
    ensures addr == start
  {
    var d := Pow2(k);
    MultipleOfSmaller(addr, k, m);
    ExactQuotient(start, d);
    MulSuccessor(start / d, d);
    NextMultiple(start / d + 1, addr / d, d);
    MulOrder(addr / d, start / d, d);
  }

  lemma MulDistributes(a: int, b: int, d: int)
    ensures (a + b) * d == a * d + b * d
  {
  }

  lemma NextMultiple(u: nat, v: nat, d: nat)
    requires v * d < u * d
    ensures v + 1 <= u && v * d + d <= u * d
  {
    MulOrder(u, v, d);
    MulOrder(v + 1, u, d);
    MulSuccessor(v, d);
  }

  function From(blocks: seq<Block>, a: nat): (r: seq<Block>)
    ensures |r| <= |blocks|
    ensures forall b :: b in r <==> b in blocks && b.addr >= a
  {
    if blocks == [] then []
    else (if blocks[0].addr >= a then [blocks[0]] else []) + From(blocks[1..], a)
  }

  lemma {:induction false} FromDrops(blocks: seq<Block>, a: nat, b: Block)
    requires b in blocks && b.addr < a
    ensures |From(blocks, a)| < |blocks|
  {
    if blocks[0] != b {
      FromDrops(blocks[1..], a, b);
    }
  }

  /** No list of aligned blocks covering exactly the same addresses is shorter. */
  lemma {:induction false} Optimal(start: nat, end: Address, other: seq<Block>)
    requires CoversRange(other, start, end)
    ensures |Subnets(start, end)| <= |other|
    decreases end + 1 - start
  {
    if start <= end {
      var next := start + Pow2(HostBits(start, end));
      var rest := From(other, next);
      assert Covered(other, start);
      var b :| b in other && b.prefix <= 32 && Holds(b, start);
      FirstBlockStartsAt(other, start, end, b);
      FromDrops(other, next, b);
      RestCovers(other, start, end);
      Optimal(next, end, rest);
    }
  }

  lemma FirstBlockStartsAt(other: seq<Block>, start: nat, end: Address, b: Block)
    requires CoversRange(other, start, end) && b in other
    ensures b.prefix <= 32 && start <= b.addr && b.addr + Size(b) <= end + 1
  {
    assert Aligned(b);
    assert Holds(b, b.addr) && Holds(b, b.addr + Size(b) - 1);
    assert Covered(other, b.addr) && Covered(other, b.addr + Size(b) - 1);
  }

  lemma RestCovers(other: seq<Block>, start: nat, end: Address)
    requires start <= end && CoversRange(other, start, end)
    ensures var next := start + Pow2(HostBits(start, end)); CoversRange(From(other, next), next, end)
  {
    var next := start + Pow2(HostBits(start, end));
    var rest := From(other, next);
    HostBitsIsLargestFit(start, end, HostBits(start, end));
    forall a: int
      ensures Covered(rest, a) <==> next <= a <= end
    {
      if Covered(rest, a) {
        var b :| b in rest && b.prefix <= 32 && Holds(b, a);
        assert Covered(other, a);
      }
      if next <= a <= end {
        assert Covered(other, a);
        var b :| b in other && b.prefix <= 32 && Holds(b, a);
        FirstBlockStartsAt(other, start, end, b);
        if b.addr < next {
          GreedyBlockAbsorbs(b, start, end);
        }
        assert b in rest;
      }
    }
  }

  // ---------------------------------------------------------------------------
  // Shape and length
  // ---------------------------------------------------------------------------

  /** The step at `start` is limited by the alignment of `start`, not by what remains. */
  predicate AlignLimited(start: nat, end: Address)
    requires start <= end
  {
    AlignBits(start) <= SizeBits(start, end)
  }

  /** While the alignment is the limit, each block is strictly larger than the one before. */
  lemma AlignLimitedGrows(start: nat, end: Address)
    requires start <= end && AlignLimited(start, end)
    requires start + Pow2(HostBits(start, end)) <= end
    ensures var next := start + Pow2(HostBits(start, end));
      AlignLimited(next, end) ==> HostBits(next, end) > HostBits(start, end)
  {
    var k := HostBits(start, end);
    HostBitsIsLargestFit(start, end, k);
    Pow2Of32();
    OddMultiple(start, k);
    TrailingZerosIsAlignment(start + Pow2(k), k + 1);
  }

  /**
   * Once a block is cut short by the end of the range, so is every later one,
   * and each is strictly smaller than the one before.
   */
  lemma SizeLimitedShrinks(start: nat, end: Address)
    requires start <= end && !AlignLimited(start, end)
    requires start + Pow2(HostBits(start, end)) <= end
    ensures var next := start + Pow2(HostBits(start, end));
      !AlignLimited(next, end) && HostBits(next, end) < HostBits(start, end)
  {
    var k := HostBits(start, end);
    var next := start + Pow2(k);
    HostBitsIsLargestFit(start, end, k);
    FloorLog2IsLargest(end - start + 1, k + 1);
    FloorLog2IsLargest(end - next + 1, k);
    NextIsAligned(start, k);
    TrailingZerosIsAlignment(next, k);
  }

  lemma NextIsAligned(start: nat, k: nat)
    requires start % Pow2(k) == 0
    ensures (start + Pow2(k)) % Pow2(k) == 0
  {
    ExactQuotient(start, Pow2(k));
    MulSuccessor(start / Pow2(k), Pow2(k));
    MultipleHasNoRemainder(start / Pow2(k) + 1, Pow2(k));
  }

  /** A multiple of 2^k that is not one of 2^(k+1) becomes one when 2^k is added. */
  lemma OddMultiple(start: nat, k: nat)
    requires start % Pow2(k) == 0
    requires start > 0 ==> TrailingZeros(start) == k
    requires start == 0 ==> k == 32
    ensures start > 0 ==> (start + Pow2(k)) % Pow2(k + 1) == 0
  {
    if start > 0 {
      TrailingZerosIsAlignment(start, k + 1);
      var p := Pow2(k);
      var q := start / p;
      ExactQuotient(start, p);
      MulSuccessor(q, p);
      var h := (q + 1) / 2;
      if q % 2 == 0 {
        MulAssociates(q / 2, 2, p);
        MultipleHasNoRemainder(q / 2, Pow2(k + 1));
      } else {
        MulAssociates(h, 2, p);
        MultipleHasNoRemainder(h, Pow2(k + 1));
      }
    }
  }

  lemma NeighbourSizes(start: nat, end: Address)
    requires start <= end && Next(start, end) <= end
    ensures AlignLimited(start, end) && AlignLimited(Next(start, end), end) ==>
      HostBits(Next(start, end), end) > HostBits(start, end)
    ensures !AlignLimited(start, end) ==>
      !AlignLimited(Next(start, end), end) && HostBits(Next(start, end), end) < HostBits(start, end)
  {
    if AlignLimited(start, end) {
      AlignLimitedGrows(start, end);
    } else {
      SizeLimitedShrinks(start, end);
    }
  }

  lemma {:induction false} ShrinkingTail(start: nat, end: Address)
    requires start <= end && !AlignLimited(start, end)
    ensures |Subnets(start, end)| <= HostBits(start, end) + 1
    decreases end + 1 - start
  {
    if Next(start, end) <= end {
      NeighbourSizes(start, end);
      ShrinkingTail(Next(start, end), end);
    }
  }

  lemma AlignmentBelow32(start: nat)
    requires 0 < start < ADDRESS_SPACE
    ensures TrailingZeros(start) <= 31
    ensures TrailingZeros(start) == 31 ==> start == 0x8000_0000
  {
    Pow2Of32();
    TrailingZerosIsAlignment(start, 32);
    TrailingZerosIsAlignment(start, 31);
  }

  lemma {:induction false} GrowingThenShrinking(start: nat, end: Address)
    requires 0 < start <= end && AlignLimited(start, end)
    ensures |Subnets(start, end)| <= if AlignBits(start) == 31 then 1 else 62 - AlignBits(start)
    decreases end + 1 - start
  {
    AlignmentBelow32(start);
    if AlignBits(start) == 31 {
      HostBitsIsLargestFit(start, end, 31);
      Pow2Of32();
    } else if Next(start, end) <= end {
      var next := Next(start, end);
      NeighbourSizes(start, end);
      AlignmentBelow32(next);
      if AlignLimited(next, end) {
        GrowingThenShrinking(next, end);
      } else {
        ShrinkingTail(next, end);
      }
    }
  }

  /** No range, not even the whole address space, needs more than 62 routes. */
  lemma AtMost62(from: Address, to: Address)
    ensures |Subnets(from, to)| <= 62
  {
    if from <= to {
      HostBitsIsLargestFit(from, to, HostBits(from, to));
      if !AlignLimited(from, to) {
        ShrinkingTail(from, to);
      } else if from > 0 {
        GrowingThenShrinking(from, to);
        AlignmentBelow32(from);
      } else {
        Pow2Of32();
        FloorLog2IsLargest(to + 1, 32);
        assert Subnets(Pow2(32), to) == [];
      }
    }
  }

  ghost predicate GrowsThenShrinks(blocks: seq<Block>, peak: nat) {
    && peak <= |blocks|
    && (forall i, j :: 0 <= i < j < peak ==> blocks[i].prefix > blocks[j].prefix)
    && (forall i, j :: peak <= i < j < |blocks| ==> blocks[i].prefix < blocks[j].prefix)
  }

  lemma PrependGrowing(b: Block, rest: seq<Block>, p: nat)
    requires GrowsThenShrinks(rest, p)
    requires p > 0 ==> b.prefix > rest[0].prefix
    ensures GrowsThenShrinks([b] + rest, p + 1)
  {
    var out := [b] + rest;
    forall i, j | 0 <= i < j < p + 1
      ensures out[i].prefix > out[j].prefix
    {
      assert out[j] == rest[j - 1];
      assert rest[0].prefix >= rest[j - 1].prefix;
      if i > 0 {
        assert out[i] == rest[i - 1];
      }
    }
    forall i, j | p + 1 <= i < j < |out|
      ensures out[i].prefix < out[j].prefix
    {
      assert out[i] == rest[i - 1] && out[j] == rest[j - 1];
    }
  }

  lemma PrependShrinking(b: Block, rest: seq<Block>)
    requires GrowsThenShrinks(rest, 0)
    requires rest != [] ==> b.prefix < rest[0].prefix
    ensures GrowsThenShrinks([b] + rest, 0)
  {
    var out := [b] + rest;
    forall i, j | 0 <= i < j < |out|
      ensures out[i].prefix < out[j].prefix
    {
      assert out[j] == rest[j - 1];
      assert rest[0].prefix <= rest[j - 1].prefix;
      if i > 0 {
        assert out[i] == rest[i - 1];
      }
    }
  }

  /** Block sizes strictly grow up to some point of the list and strictly shrink from there on. */
  lemma {:induction false} SizesGrowThenShrink(start: nat, end: Address) returns (peak: nat)
    ensures GrowsThenShrinks(Subnets(start, end), peak)
    ensures start <= end && !AlignLimited(start, end) ==> peak == 0
    ensures start <= end && AlignLimited(start, end) ==> peak > 0
    decreases end + 1 - start
  {
    peak := 0;
    if start <= end {
      HostBitsIsLargestFit(start, end, 0);
      var b, next := Block(start, 32 - HostBits(start, end)), Next(start, end);
      var rest := Subnets(next, end);
      var p := SizesGrowThenShrink(next, end);
      assert rest != [] ==> next <= end && rest[0].prefix == 32 - HostBits(next, end);
      if next <= end {
        HostBitsIsLargestFit(next, end, 0);
        NeighbourSizes(start, end);
      }
      if AlignLimited(start, end) {
        PrependGrowing(b, rest, p);
        peak := p + 1;
      } else {
        PrependShrinking(b, rest);
      }
    }
  }

  const LAST_BUT_ONE: nat := ADDRESS_SPACE - 2

  lemma PowerOfTwoAlignment(k: nat)
    ensures TrailingZeros(Pow2(k)) == k
  {
    MultipleHasNoRemainder(1, Pow2(k));
    TrailingZerosIsAlignment(Pow2(k), k);
    TrailingZerosIsAlignment(Pow2(k), k + 1);
  }

  lemma TopIsAligned(j: nat)
    requires 0 < j <= 31
    ensures 0 < Pow2(j) < ADDRESS_SPACE
    ensures (ADDRESS_SPACE - Pow2(j)) % Pow2(j) == 0
  {
    var d, m := Pow2(j), Pow2(32 - j);
    Pow2Of32();
    Pow2Monotone(j, 31);
    Pow2Sum(32 - j, j);
    MulSuccessor(m - 1, d);
    MultipleHasNoRemainder(m - 1, d);
  }

  lemma BitsNearTheTop(j: nat)
    requires 0 < j <= 31
    ensures Pow2(j) < ADDRESS_SPACE
    ensures HostBits(ADDRESS_SPACE - Pow2(j), LAST_BUT_ONE) == j - 1
  {
    TopIsAligned(j);
    TrailingZerosIsAlignment(ADDRESS_SPACE - Pow2(j), j);
    FloorLog2IsLargest(Pow2(j) - 1, j);
    FloorLog2IsLargest(Pow2(j) - 1, j - 1);
  }

  lemma {:induction false} TailNearTheTop(j: nat)
    requires j <= 31
    ensures Pow2(j) < ADDRESS_SPACE
    ensures |Subnets(ADDRESS_SPACE - Pow2(j), LAST_BUT_ONE)| == j
  {
    if j > 0 {
      BitsNearTheTop(j);
      TailNearTheTop(j - 1);
    }
  }

  lemma BitsWhileClimbing(k: nat)
    requires k < 31
    ensures Pow2(k) <= LAST_BUT_ONE
    ensures HostBits(Pow2(k), LAST_BUT_ONE) == k
  {
    Pow2Of32();
    Pow2Monotone(k, 31);
    PowerOfTwoAlignment(k);
    FloorLog2IsLargest(LAST_BUT_ONE - Pow2(k) + 1, k);
  }

  lemma {:induction false} ClimbFrom(k: nat)
    requires k <= 31
    ensures |Subnets(Pow2(k), LAST_BUT_ONE)| == 62 - k
    decreases 31 - k
  {
    if k == 31 {
      Pow2Of32();
      TailNearTheTop(31);
    } else {
      BitsWhileClimbing(k);
      ClimbFrom(k + 1);
      assert Next(Pow2(k), LAST_BUT_ONE) == Pow2(k + 1);
    }
  }

  /** The bound of 62 is reached, by 0.0.0.1 - 255.255.255.254. */
  lemma BoundIsReached()
    ensures |Subnets(1, LAST_BUT_ONE)| == 62
  {
    ClimbFrom(0);
  }
}
