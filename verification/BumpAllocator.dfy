/** baremetal/runtime/freestanding.c: the allocator of the boot heap. Sizes are unsigned
    64-bit words, and their arithmetic wraps. */
module BumpAllocator {

  const WORD := 0x1_0000_0000_0000_0000
  const HEAP := 1024 * 1024

  type Word = n: nat | n < WORD

  type Byte = b: int | 0 <= b < 256

  // ---------- rounding by a mask ----------

  /** Bitwise and, from the lowest bit up. */
  function And(a: nat, b: nat): nat {
    if a == 0 || b == 0 then 0 else And(a / 2, b / 2) * 2 + (a % 2) * (b % 2)
  }

  function Ones(k: nat): nat { if k == 0 then 0 else Ones(k - 1) * 2 + 1 }

  lemma {:induction false} AndOnes(a: nat, k: nat)
    requires a <= Ones(k)
    ensures And(a, Ones(k)) == a
    decreases k
  {
    if a != 0 { AndOnes(a / 2, k - 1); }
  }

  lemma AndHalf(a: nat, m: nat)
    ensures And(a, 2 * m) == 2 * And(a / 2, m)
  {
    if a == 0 || m == 0 {
      assert And(a / 2, m) == 0;
    } else {
      assert 2 * m / 2 == m && 2 * m % 2 == 0;
    }
  }

  lemma TenOnes()
    ensures Ones(10) == 1023
  {}

  lemma TenMore(k: nat, v: nat)
    requires Ones(k) == v
    ensures Ones(k + 10) == v * 1024 + 1023
  {
    TenOnes();
    OnesAdd(k, 10);
  }

  lemma SixtyOnes(k: nat)
    requires k == 60
    ensures Ones(k) == 0x0FFF_FFFF_FFFF_FFFF
  {
    TenOnes();
    TenMore(k - 50, 1023);
    TenMore(k - 40, 0xF_FFFF);
    TenMore(k - 30, 0x3FFF_FFFF);
    TenMore(k - 20, 0xFF_FFFF_FFFF);
    TenMore(k - 10, 0x3_FFFF_FFFF_FFFF);
  }

  lemma {:induction false} OnesAdd(j: nat, k: nat)
    ensures Ones(j + k) == Ones(j) * (Ones(k) + 1) + Ones(k)
    decreases k
  {
    if k > 0 { OnesAdd(j, k - 1); }
  }

  /** Masking with everything but the four lowest bits takes the remainder by 16 away. */
  lemma MaskDropsRemainder(x: nat)
    requires x < WORD
    ensures And(x, WORD - 16) == x - x % 16
  {
    var k := 60;
    SixtyOnes(k);
    var m := Ones(k);
    AndFourHalves(x, m);
    AndOnes(x / 16, k);
  }

  lemma AndFourHalves(x: nat, m: nat)
    ensures And(x, 16 * m) == 16 * And(x / 16, m)
  {
    var x1, x2, x3, m1, m2, m3 := x / 2, x / 4, x / 8, 2 * m, 4 * m, 8 * m;
    AndHalf(x, m3);
    AndHalf(x1, m2);
    AndHalf(x2, m1);
    AndHalf(x3, m);
    assert x1 / 2 == x2 && x2 / 2 == x3 && x3 / 2 == x / 16;
  }

  function Aligned(bytes: nat): nat { And((bytes + 15) % WORD, WORD - 16) }

  /** The least multiple of 16 that is not smaller. */
  function RoundUp(bytes: nat): nat { (bytes + 15) / 16 * 16 }

  lemma RoundUpIsLeast(bytes: nat, k: nat)
    ensures RoundUp(bytes) % 16 == 0 && bytes <= RoundUp(bytes) < bytes + 16
    ensures 16 * k >= bytes ==> RoundUp(bytes) <= 16 * k
  {}

  /** The mask rounds up, unless the sum wrapped: then it gives 0. */
  lemma AlignedIs(bytes: nat)
    requires bytes < WORD
    ensures Aligned(bytes) == if bytes <= WORD - 16 then RoundUp(bytes) else 0
  {
    MaskDropsRemainder((bytes + 15) % WORD);
    RoundUpIsLeast(bytes, 0);
  }

  // ---------- the test ----------

  /** What the code asks before it hands out a block; the difference is unsigned. */
  predicate Passes(next: nat, bytes: nat) {
    bytes != 0 && !(Aligned(bytes) < bytes) && !(next > (HEAP - Aligned(bytes)) % WORD)
  }

  predicate FitsIn(next: nat, bytes: nat) { bytes != 0 && next + RoundUp(bytes) <= HEAP }

  /** A size the test is right about: rounded up it is no larger than the whole heap, or so
      large that the rounding wraps. */
  predicate Sound(bytes: nat) { RoundUp(bytes) <= HEAP || bytes > WORD - 16 }

  /** The test answers whether the block fits for exactly the sound sizes; any other size is
      handed out although it cannot fit. */
  lemma TestIsRightExactly(next: nat, bytes: nat)
    requires next <= HEAP && bytes < WORD
    ensures (Passes(next, bytes) <==> FitsIn(next, bytes)) <==> Sound(bytes)
    ensures !Sound(bytes) ==> Passes(next, bytes)
  {
    AlignedIs(bytes);
    RoundUpIsLeast(bytes, 0);
    Unsigned(next, Aligned(bytes));
  }

  /** The unsigned difference wraps for sizes beyond the heap, and is then larger than any
      place in it. */
  lemma Unsigned(next: nat, aligned: nat)
    requires next <= HEAP && aligned <= WORD - 16
    ensures (HEAP - aligned) % WORD == if aligned <= HEAP then HEAP - aligned else WORD + HEAP - aligned
    ensures next > (HEAP - aligned) % WORD <==> aligned <= HEAP && next + aligned > HEAP
  {}

  lemma Decided(next: nat, bytes: nat)
    requires next <= HEAP && 0 < bytes < WORD
    ensures var aligned := Aligned(bytes);
      && (aligned < bytes || next > (HEAP - aligned) % WORD <==> Sound(bytes) && !FitsIn(next, bytes))
      && (FitsIn(next, bytes) || !Sound(bytes) ==> aligned == RoundUp(bytes) > 0 && aligned % 16 == 0)
  {
    TestIsRightExactly(next, bytes);
    AlignedIs(bytes);
    RoundUpIsLeast(bytes, 0);
  }

  // ---------- the heap ----------

  datatype Block = Block(start: nat, size: nat)

  function Total(blocks: seq<Block>): nat {
    if blocks == [] then 0 else Total(blocks[..|blocks| - 1]) + blocks[|blocks| - 1].size
  }

  predicate Placed(blocks: seq<Block>, i: nat)
    requires i < |blocks|
  {
    blocks[i].start == Total(blocks[..i]) && blocks[i].size > 0 && blocks[i].size % 16 == 0
  }

  /** One behind the other from the start of the heap. */
  ghost predicate Stacked(blocks: seq<Block>) { forall i :: 0 <= i < |blocks| ==> Placed(blocks, i) }

  /** Blocks in a stack are aligned, end inside it, and do not meet. */
  lemma StackedApart(blocks: seq<Block>, i: nat, j: nat)
    requires Stacked(blocks) && i <= j < |blocks|
    ensures blocks[i].start % 16 == 0 && blocks[j].start + blocks[j].size <= Total(blocks)
    ensures i < j ==> blocks[i].start + blocks[i].size <= blocks[j].start
  {
    TotalAligned(blocks, i);
    assert Placed(blocks, i) && Placed(blocks, j);
    EndsAt(blocks, j);
    TotalGrows(blocks, j + 1, |blocks|);
    assert blocks[..|blocks|] == blocks;
    if i < j {
      EndsAt(blocks, i);
      TotalGrows(blocks, i + 1, j);
    }
  }

  lemma EndsAt(blocks: seq<Block>, i: nat)
    requires Stacked(blocks) && i < |blocks|
    ensures Total(blocks[..i + 1]) == blocks[i].start + blocks[i].size
  {
    assert Placed(blocks, i) && blocks[..i + 1][..i] == blocks[..i];
  }

  lemma {:induction false} TotalAligned(blocks: seq<Block>, n: nat)
    requires Stacked(blocks) && n <= |blocks|
    ensures Total(blocks[..n]) % 16 == 0
  {
    if n > 0 {
      TotalAligned(blocks, n - 1);
      assert Placed(blocks, n - 1);
      assert blocks[..n][..n - 1] == blocks[..n - 1];
    }
  }

  lemma {:induction false} TotalGrows(blocks: seq<Block>, m: nat, n: nat)
    requires m <= n <= |blocks|
    ensures Total(blocks[..m]) <= Total(blocks[..n])
    decreases n
  {
    if m < n {
      TotalGrows(blocks, m, n - 1);
      assert blocks[..n][..n - 1] == blocks[..n - 1];
    }
  }

  class BootHeap {
    const heap: array<Byte>
    var next: nat
    /** The blocks handed out since the last reset. */
    ghost var live: seq<Block>

    ghost predicate Valid()
      reads this
    {
      heap.Length == HEAP && Stacked(live) && Total(live) == next <= HEAP
    }

    constructor ()
      ensures Valid() && live == [] && fresh(heap)
    {
      heap := new Byte[HEAP];
      next, live := 0, [];
    }

    method MemorySet(at: nat, value: int, count: nat)
      requires at + count <= heap.Length
      modifies heap
      ensures forall i :: at <= i < at + count ==> heap[i] == value % 256
      ensures heap[..at] == old(heap[..at]) && heap[at + count..] == old(heap[at + count..])
    {
      var i := 0;
      while i < count
        invariant 0 <= i <= count
        invariant forall k :: at <= k < at + i ==> heap[k] == value % 256
        invariant forall k :: 0 <= k < heap.Length && !(at <= k < at + i) ==> heap[k] == old(heap[k])
      {
        heap[at + i] := value % 256;
        i := i + 1;
      }
    }

    method Reset()
      requires Valid()
      modifies this, heap
      ensures Valid() && live == [] && next == 0 && forall i :: 0 <= i < HEAP ==> heap[i] == 0
    {
      next := 0;
      live := [];
      MemorySet(0, 0, heap.Length);
    }

    /** A block of a sound size is handed out exactly when it fits, zeroed, behind all the
        others, whose bytes stay as they are; -1 stands for no block. One of any other size
        is handed out although it ends outside the heap. */
    method Allocate(bytes: Word) returns (result: int)
      requires Valid()
      modifies this, heap
      ensures Sound(bytes) ==> Valid() && (result >= 0 <==> FitsIn(old(next), bytes))
      ensures result < 0 ==> result == -1 && next == old(next) && live == old(live) && heap[..] == old(heap[..])
      ensures result >= 0 ==> result == old(next) && next == (old(next) + RoundUp(bytes)) % WORD
      ensures result >= 0 ==> live == old(live) + [Block(result, RoundUp(bytes))]
      ensures result >= 0 ==> forall i :: result <= i < HEAP && i < result + RoundUp(bytes) ==> heap[i] == 0
      ensures !Sound(bytes) ==> result >= 0 && result + RoundUp(bytes) > HEAP
      ensures heap[..old(next)] == old(heap[..next])
    {
      hide And, Aligned, RoundUp, Placed, Stacked, Total;
      RoundUpIsLeast(bytes, 0);
      if bytes == 0 { return -1; }
      var aligned := Aligned(bytes);
      Decided(next, bytes);
      if aligned < bytes || next > (HEAP - aligned) % WORD { return -1; }
      result := next;
      next := (next + aligned) % WORD;
      // what is set to zero behind the heap is not part of this model
      MemorySet(result, 0, if result + aligned <= HEAP then aligned else HEAP - result);
      if Sound(bytes) { OneMore(live, result, aligned); }
      live := live + [Block(result, aligned)];
    }

    method Used() returns (n: nat)
      requires Valid()
      ensures n == Total(live)
    {
      return next;
    }
  }

  lemma OneMore(blocks: seq<Block>, start: nat, size: nat)
    requires Stacked(blocks) && start == Total(blocks) && size > 0 && size % 16 == 0
    ensures Stacked(blocks + [Block(start, size)]) && Total(blocks + [Block(start, size)]) == start + size
  {
    var more := blocks + [Block(start, size)];
    assert more[..|blocks|] == blocks;
    forall i | 0 <= i < |more|
      ensures Placed(more, i)
    {
      if i < |blocks| { assert Placed(blocks, i) && more[..i] == blocks[..i]; }
    }
  }

  // ---------- any run ----------

  datatype Call = Reset | Allocate(bytes: Word)

  /** The rounded sizes a run leaves handed out, when exactly the blocks that fit are. */
  function Live(calls: seq<Call>): seq<nat> {
    if calls == [] then []
    else
      var before := Live(calls[..|calls| - 1]);
      match calls[|calls| - 1]
      case Reset => []
      case Allocate(bytes) => if FitsIn(Sum(before), bytes) then before + [RoundUp(bytes)] else before
  }

  function Sum(sizes: seq<nat>): nat { if sizes == [] then 0 else Sum(sizes[..|sizes| - 1]) + sizes[|sizes| - 1] }

  ghost predicate SameSizes(blocks: seq<Block>, sizes: seq<nat>) {
    |blocks| == |sizes| && forall i :: 0 <= i < |blocks| ==> blocks[i].size == sizes[i]
  }

  lemma {:induction false} SameTotal(blocks: seq<Block>, sizes: seq<nat>)
    requires SameSizes(blocks, sizes)
    ensures Total(blocks) == Sum(sizes)
    decreases |blocks|
  {
    if blocks != [] { SameTotal(blocks[..|blocks| - 1], sizes[..|sizes| - 1]); }
  }

  predicate Harmful(c: Call) { c.Allocate? && !Sound(c.bytes) }

  /** Over any run of resets and requests, up to the first of an unsound size, what is used
      is the sum of the rounded sizes handed out since the last reset, and those blocks lie
      apart in the heap. After an unsound one a block leaves the heap; done counts the calls
      before it. */
  method Run(h: BootHeap, calls: seq<Call>) returns (used: nat, done: nat)
    requires h.Valid() && h.live == []
    modifies h, h.heap
    ensures done <= |calls| && forall i :: 0 <= i < done ==> !Harmful(calls[i])
    ensures done < |calls| ==> Harmful(calls[done]) && h.live != []
    ensures done < |calls| ==> h.live[|h.live| - 1].start + h.live[|h.live| - 1].size > HEAP
    ensures done == |calls| ==> AllApart(h.live)
    ensures done == |calls| ==> h.Valid() && SameSizes(h.live, Live(calls)) && used == Sum(Live(calls)) <= HEAP
  {
    done, used := 0, 0;
    while done < |calls|
      invariant done <= |calls| && forall i :: 0 <= i < done ==> !Harmful(calls[i])
      invariant h.Valid() && SameSizes(h.live, Live(calls[..done]))
    {
      var i := done;
      assert calls[..i + 1][..i] == calls[..i];
      SameTotal(h.live, Live(calls[..i]));
      match calls[i] {
        case Reset => h.Reset();
        case Allocate(bytes) =>
          var result := h.Allocate(bytes);
          if !Sound(bytes) { return; }
      }
      done := done + 1;
    }
    assert calls[..|calls|] == calls;
    SameTotal(h.live, Live(calls));
    used := h.Used();
    AllOfStackApart(h.live);
  }

  /** Aligned, inside the heap, and one behind the other. */
  ghost predicate AllApart(blocks: seq<Block>) {
    && (forall i, j :: 0 <= i < j < |blocks| ==> blocks[i].start + blocks[i].size <= blocks[j].start)
    && (forall i :: 0 <= i < |blocks| ==> blocks[i].start % 16 == 0 && blocks[i].start + blocks[i].size <= HEAP)
  }

  lemma AllOfStackApart(blocks: seq<Block>)
    requires Stacked(blocks) && Total(blocks) <= HEAP
    ensures AllApart(blocks)
  {
    forall i, j | 0 <= i <= j < |blocks|
      ensures i < j ==> blocks[i].start + blocks[i].size <= blocks[j].start
      ensures blocks[i].start % 16 == 0 && blocks[j].start + blocks[j].size <= HEAP
    {
      StackedApart(blocks, i, j);
    }
  }
}
