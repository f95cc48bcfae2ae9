/**
 * The bump allocators: BumpAllocator in crates/runtime/allocator.rs (the same
 * code is inlined in crates/runtime/lib.rs) and MmapAllocator in
 * src/runtime.rs. A 16 MiB region is mapped on first use; each allocation
 * rounds the cursor up to the alignment and moves it past the block; nothing
 * is ever freed. Addresses are naturals with 0 for null, and the address mmap
 * returns is a parameter. The CAS retry loop is a single step here.
 */
module Allocator {
  import opened Bytes
  import opened Syscall

  const HEAP_SIZE: nat := 16 * 1024 * 1024

  predicate IsPow2(a: nat)
    decreases a
  {
    a == 1 || (a >= 2 && a % 2 == 0 && IsPow2(a / 2))
  }

  // ---------------------------------------------------------------------------
  // align_up
  // ---------------------------------------------------------------------------

  /** align_up(x, a) = (x + a - 1) & !(a - 1), with the mask written as rounding down to a multiple of a. */
  function AlignUp(x: nat, a: nat): (r: nat)
    requires a >= 1
    ensures x <= r < x + a
  {
    var v := x + a - 1;
    v - v % a
  }

  /** align_up gives the smallest multiple of a that is at least x. */
  lemma AlignUpSpec(x: nat, a: nat)
    requires a >= 1
    ensures AlignUp(x, a) % a == 0 && x <= AlignUp(x, a) < x + a
    ensures forall m: nat :: m % a == 0 && x <= m ==> AlignUp(x, a) <= m
  {
    var q := (x + a - 1) / a;
    AlignUpQuotient(x, a);
    DivUnique(q * a, a, q);
    forall m: nat | m % a == 0 && x <= m
      ensures AlignUp(x, a) <= m
    {
      if m < q * a {
        BelowMultiple(m, a, q);
      }
    }
  }

  lemma AlignUpQuotient(x: nat, a: nat)
    requires a >= 1
    ensures AlignUp(x, a) == ((x + a - 1) / a) * a
    ensures x <= AlignUp(x, a) < x + a
  {
    var v := x + a - 1;
    assert v == (v / a) * a + v % a;
  }

  /** A multiple of a below q * a is at most (q - 1) * a. */
  lemma BelowMultiple(m: nat, a: nat, q: nat)
    requires a >= 1 && m % a == 0 && m < q * a
    ensures m + a <= q * a
  {
    var p := m / a;
    assert m == p * a + m % a;
    if p + 1 > q {
      MulLeft(q, p, a);
    } else {
      MulLeft(p + 1, q, a);
    }
  }

  /** `v & !(2^k - 1)`, bit by bit: v with its k low bits cleared. */
  function ClearLowBits(v: nat, k: nat): nat {
    if k == 0 then v else 2 * ClearLowBits(v / 2, k - 1)
  }

  /** For a = 2^k the mask of align_up is exactly the rounding AlignUp uses. */
  lemma {:induction false} ClearLowBitsRoundsDown(v: nat, k: nat)
    ensures ClearLowBits(v, k) == v - v % Pow2(k)
  {
    if k > 0 {
      ClearLowBitsRoundsDown(v / 2, k - 1);
      ModDouble(v, Pow2(k - 1));
    }
  }

  lemma ModDouble(v: nat, m: nat)
    requires m >= 1
    ensures v % (2 * m) == 2 * ((v / 2) % m) + v % 2
  {
    var q, r := (v / 2) / m, (v / 2) % m;
    assert v / 2 == q * m + r;
    assert v == q * (2 * m) + (2 * r + v % 2);
    DivUnique(v, 2 * m, q);
  }

  lemma AlignUpIsMask(x: nat, k: nat)
    ensures AlignUp(x, Pow2(k)) == ClearLowBits(x + Pow2(k) - 1, k)
  {
    ClearLowBitsRoundsDown(x + Pow2(k) - 1, k);
  }

  // ---------------------------------------------------------------------------
  // One allocation
  // ---------------------------------------------------------------------------

  datatype Bumped = Bumped(ptr: nat, cur: nat)

  /**
   * One allocation of BumpAllocator from cursor cur with limit end: size 0
   * gives the address `align` and moves nothing; otherwise the block starts
   * at cur rounded up to align, and null (0) comes back when the end address
   * overflows a usize (checked_add) or passes end.
   */
  function Bump(cur: nat, end: nat, align: nat, size: nat): (r: Bumped)
    requires align >= 1
    ensures r.cur >= cur
    ensures r.cur != cur ==> cur <= r.ptr && r.cur == r.ptr + size <= end && r.cur <= USIZE_MAX
  {
    if size == 0 then Bumped(align, cur)
    else
      var aligned := AlignUp(cur, align);
      if aligned + size > USIZE_MAX then Bumped(0, cur)
      else if aligned + size > end then Bumped(0, cur)
      else Bumped(aligned, aligned + size)
  }

  /**
   * The same allocation in MmapAllocator: an overflowing end address becomes
   * usize::MAX, which then fails the end check.
   */
  function BumpSaturating(cur: nat, end: nat, align: nat, size: nat): (r: Bumped)
    requires align >= 1
    ensures r.cur != cur ==> cur <= r.ptr && r.cur <= end
  {
    if size == 0 then Bumped(align, cur)
    else
      var aligned := AlignUp(cur, align);
      var next := if aligned + size > USIZE_MAX then USIZE_MAX else aligned + size;
      if next > end then Bumped(0, cur)
      else Bumped(aligned, next)
  }

  /**
   * A block that fits is aligned, starts at or after the cursor and less than
   * align past it, and the cursor moves to its end, which stays within the
   * heap; otherwise the result is null and the cursor stays. The cursor never
   * goes back.
   */
  lemma BumpSpec(cur: nat, end: nat, align: nat, size: nat)
    requires align >= 1 && end <= USIZE_MAX
    ensures var r := Bump(cur, end, align, size);
      && r.cur >= cur
      && (size == 0 ==> r == Bumped(align, cur))
      && (size > 0 && AlignUp(cur, align) + size <= end ==>
            && r.ptr % align == 0 && cur <= r.ptr < cur + align
            && r.cur == r.ptr + size <= end)
      && (size > 0 && AlignUp(cur, align) + size > end ==> r == Bumped(0, cur))
  {
    AlignUpSpec(cur, align);
  }

  /** Below the top of the address space both copies allocate alike. */
  lemma SaturatingAgrees(cur: nat, end: nat, align: nat, size: nat)
    requires align >= 1 && end < USIZE_MAX
    ensures BumpSaturating(cur, end, align, size) == Bump(cur, end, align, size)
  {
  }

  /**
   * Successive blocks do not overlap: a block allocated after another starts
   * at or after the first one's end.
   */
  lemma BlocksDisjoint(cur: nat, end: nat, a1: nat, s1: nat, a2: nat, s2: nat)
    requires a1 >= 1 && a2 >= 1 && end <= USIZE_MAX && s1 > 0 && s2 > 0
    requires AlignUp(cur, a1) + s1 <= end
    requires AlignUp(Bump(cur, end, a1, s1).cur, a2) + s2 <= end
    ensures var first := Bump(cur, end, a1, s1);
      var second := Bump(first.cur, end, a2, s2);
      first.ptr + s1 <= second.ptr
  {
    BumpSpec(cur, end, a1, s1);
    BumpSpec(Bump(cur, end, a1, s1).cur, end, a2, s2);
  }

  // ---------------------------------------------------------------------------
  // The heap
  // ---------------------------------------------------------------------------

  /** HEAP_START, HEAP_CUR and HEAP_END. */
  class BumpHeap {
    var start: nat
    var cur: nat
    var end: nat

    ghost predicate Valid()
      reads this
    {
      && (start == 0 ==> cur == 0 && end == 0)
      && (start != 0 ==> start <= cur <= end && end == start + HEAP_SIZE)
      && end < USIZE_MAX
    }

    constructor ()
      ensures Valid() && start == 0 && cur == 0 && end == 0
    {
      start, cur, end := 0, 0, 0;
    }

    /**
     * init_heap, with `mapped` the address mmap returned (0 for failure): the
     * region is recorded the first time a mapping succeeds, and never again.
     */
    method InitHeap(mapped: nat)
      requires Valid() && mapped + HEAP_SIZE < USIZE_MAX
      modifies this
      ensures Valid()
      ensures old(start) == 0 && mapped != 0 ==> start == mapped && cur == mapped && end == mapped + HEAP_SIZE
      ensures old(start) != 0 || mapped == 0 ==> start == old(start) && cur == old(cur) && end == old(end)
    {
      if start == 0 {
        if mapped != 0 {
          start, cur, end := mapped, mapped, mapped + HEAP_SIZE;
        }
      }
    }

    /** BumpAllocator::alloc: initialise on first use, then bump. */
    method Alloc(mapped: nat, align: nat, size: nat) returns (p: nat)
      requires Valid() && IsPow2(align) && mapped + HEAP_SIZE < USIZE_MAX
      modifies this
      ensures Valid()
      ensures old(start) == 0 && mapped != 0 ==> start == mapped && end == mapped + HEAP_SIZE
      ensures old(start) != 0 || mapped == 0 ==> start == old(start) && end == old(end)
      ensures var from := if old(start) == 0 && mapped != 0 then mapped else old(cur);
        p == Bump(from, end, align, size).ptr && cur == Bump(from, end, align, size).cur
    {
      InitHeap(mapped);
      BumpSpec(cur, end, align, size);
      if size == 0 {
        return align;
      }
      var aligned := AlignUp(cur, align);
      if aligned + size > USIZE_MAX {
        return 0;
      }
      var next := aligned + size;
      if next > end {
        return 0;
      }
      cur := next;
      return aligned;
    }

    /** MmapAllocator::alloc: the same, with the saturating end address. */
    method AllocSaturating(mapped: nat, align: nat, size: nat) returns (p: nat)
      requires Valid() && IsPow2(align) && mapped + HEAP_SIZE < USIZE_MAX
      modifies this
      ensures Valid()
      ensures old(start) == 0 && mapped != 0 ==> start == mapped && end == mapped + HEAP_SIZE
      ensures old(start) != 0 || mapped == 0 ==> start == old(start) && end == old(end)
      ensures var from := if old(start) == 0 && mapped != 0 then mapped else old(cur);
        p == Bump(from, end, align, size).ptr && cur == Bump(from, end, align, size).cur
    {
      InitHeap(mapped);
      BumpSpec(cur, end, align, size);
      SaturatingAgrees(cur, end, align, size);
      if size == 0 {
        return align;
      }
      var aligned := AlignUp(cur, align);
      var next := if aligned + size > USIZE_MAX then USIZE_MAX else aligned + size;
      if next > end {
        return 0;
      }
      cur := next;
      return aligned;
    }

    /** dealloc: a bump allocator frees nothing. */
    method Dealloc(ptr: nat, align: nat, size: nat)
      requires Valid()
      ensures Valid()
    {
    }
  }
}
