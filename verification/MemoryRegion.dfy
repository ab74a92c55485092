/** core/memory/memory_region.cpp: reserved address space whose pages are committed front to back. The
    platform's calls are parameters that say whether they succeed; the pages it has committed are kept in
    the state. */
module MemoryRegion {
  import opened Arithmetic
  import opened Exceptions

  datatype Platform = Platform(pageSize: nat, granularity: nat)

  /** `reserved` is `memory != nullptr`. */
  datatype Region = Region(maxSize: nat, currentSize: nat, reserved: bool, committed: set<nat>)

  predicate Sane(p: Platform, maxSize: nat) {
    0 < p.pageSize && maxSize + Max(p.pageSize, p.granularity) < WORD
  }

  function Pages(first: nat, count: nat): (pages: set<nat>)
    ensures forall i :: i in pages <==> first <= i < first + count
  {
    if count == 0 then {} else Pages(first, count - 1) + {first + count - 1}
  }

  /** The page count the source computes for a size. */
  function PageCount(p: Platform, size: nat): nat
    requires 0 < p.pageSize
  {
    if size == 0 then 0 else MultipleOf(size, p.pageSize)
  }

  datatype Result = Pointer | Null(code: Code)

  /** grow. */
  function Grown(p: Platform, r: Region, size: nat, reserveOk: bool, commitOk: bool): (Result, Region)
    requires 0 < p.pageSize
  {
    if !r.reserved && r.maxSize == 0 then (Null(NoError), r)
    else if !r.reserved && !reserveOk then (Null(Code.Platform), r)
    else
      var reserved := r.(reserved := true);
      var newSize := (size + r.currentSize) % WORD;
      if newSize > r.maxSize then (Null(OutOfMemory), reserved)
      else
        var current, needed := PageCount(p, r.currentSize), PageCount(p, newSize);
        if needed > current && !commitOk then (Null(Code.Platform), reserved)
        else
          (Pointer, reserved.(currentSize := newSize,
                              committed :=
                                if needed > current then r.committed + Pages(current, needed - current)
                                else r.committed))
  }

  /** claim. */
  function Claimed(p: Platform, r: Region, reserveOk: bool, commitOk: bool): (Result, Region)
    requires 0 < p.pageSize
  {
    var remaining := (r.maxSize + WORD - r.currentSize) % WORD;
    if remaining == 0 then (Null(InvalidOperation), r)
    else Grown(p, r, remaining, reserveOk, commitOk)
  }

  /** reset. */
  function Cleared(p: Platform, r: Region, release: bool): Region
    requires 0 < p.pageSize
  {
    if !r.reserved then r
    else
      var emptied := if r.currentSize > 0
                     then r.(committed := r.committed - Pages(0, MultipleOf(r.currentSize, p.pageSize)),
                             currentSize := 0)
                     else r;
      if release then emptied.(reserved := false) else emptied
  }

  /** get_minimum_size and get_reserved_size. */
  function ReservedSize(p: Platform, maxSize: nat): nat
    requires 0 < p.pageSize
  {
    if maxSize == 0 then 0 else RoundUp(maxSize, Max(p.pageSize, p.granularity))
  }

  class MemoryRegion {
    const platform: Platform
    var maxSize: nat
    var currentSize: nat
    var reserved: bool
    var committed: set<nat>

    function Now(): Region
      reads this
    {
      Region(maxSize, currentSize, reserved, committed)
    }

    constructor (platform: Platform, maxSize: nat)
      requires 0 < platform.pageSize
      ensures this.platform == platform && Now() == Region(maxSize, 0, false, {})
    {
      this.platform, this.maxSize := platform, maxSize;
      currentSize, reserved, committed := 0, false, {};
    }

    method Grow(size: nat, reserveOk: bool, commitOk: bool) returns (result: Result)
      requires 0 < platform.pageSize
      modifies this
      ensures (result, Now()) == Grown(platform, old(Now()), size, reserveOk, commitOk)
    {
      if !reserved {
        if maxSize == 0 {
          return Null(NoError);
        }
        reserved := reserveOk;
        if !reserved {
          return Null(Code.Platform);
        }
      }
      var newSize := (size + currentSize) % WORD;
      if newSize > maxSize {
        return Null(OutOfMemory);
      }
      var currentPages := if currentSize == 0 then 0 else MultipleOf(currentSize, platform.pageSize);
      var newPages := if newSize == 0 then 0 else MultipleOf(newSize, platform.pageSize);
      if newPages > currentPages {
        if !commitOk {
          return Null(Code.Platform);
        }
        committed := committed + Pages(currentPages, newPages - currentPages);
      }
      currentSize := newSize;
      return Pointer;
    }

    method Claim(reserveOk: bool, commitOk: bool) returns (result: Result)
      requires 0 < platform.pageSize
      modifies this
      ensures (result, Now()) == Claimed(platform, old(Now()), reserveOk, commitOk)
    {
      var remaining := (maxSize + WORD - currentSize) % WORD;
      if remaining == 0 {
        return Null(InvalidOperation);
      }
      result := Grow(remaining, reserveOk, commitOk);
    }

    method Reset(release: bool)
      requires 0 < platform.pageSize
      modifies this
      ensures Now() == Cleared(platform, old(Now()), release)
    {
      if reserved {
        if currentSize > 0 {
          var pages := MultipleOf(currentSize, platform.pageSize);
          committed := committed - Pages(0, pages);
          currentSize := 0;
        }
        if release {
          reserved := false;
        }
      }
    }
  }

  // ---------------------------------------------------------------- page accounting

  /** The least number of pages that hold `size` bytes. */
  function Ceiling(size: nat, pageSize: nat): nat
    requires 0 < pageSize
  {
    if size % pageSize == 0 then size / pageSize else size / pageSize + 1
  }

  lemma PageCountIsCeiling(p: Platform, size: nat)
    requires 0 < p.pageSize && size + p.pageSize < WORD
    ensures PageCount(p, size) == Ceiling(size, p.pageSize)
  {
    var m := p.pageSize;
    if size > 0 {
      var c := Ceiling(size, m);
      assert size == size / m * m + size % m;
      assert c * m == if size % m == 0 then size else size - size % m + m;
      MultipleMod(c, m);
      RoundUpExact(size, m, c * m);
    }
  }

  /** What every reachable region satisfies: the committed pages are exactly the prefix that holds the
      current size, the size is within the maximum, and nothing is committed before the reservation. */
  ghost predicate Inv(p: Platform, r: Region) {
    && Sane(p, r.maxSize) && r.currentSize <= r.maxSize
    && r.committed == Pages(0, Ceiling(r.currentSize, p.pageSize))
    && (!r.reserved ==> r.currentSize == 0)
  }

  lemma CeilingMonotone(x: nat, y: nat, m: nat)
    requires 0 < m && x <= y
    ensures Ceiling(x, m) <= Ceiling(y, m)
  {
    DivisionBounds(x, m);
    DivisionBounds(y, m);
    if x / m > y / m {
      MultiplyMonotone(y / m + 1, x / m, m);
    }
    if x / m == y / m {
      assert x == x / m * m + x % m && y == y / m * m + y % m;
    }
  }

  lemma PagesJoin(a: nat, b: nat)
    requires a <= b
    ensures Pages(0, a) + Pages(a, b - a) == Pages(0, b) && Pages(0, a) !! Pages(a, b - a)
  {}

  lemma PagesEqual(a: nat, b: nat)
    ensures Pages(0, a) == Pages(0, b) <==> a == b
  {
    if a < b {
      assert a in Pages(0, b) && a !in Pages(0, a);
    } else if b < a {
      assert b in Pages(0, a) && b !in Pages(0, b);
    }
  }

  /** Growing keeps the accounting exactly when the sum of sizes does not wrap round, or wraps to a size of
      as many pages. A wrapped sum passes the bounds check and shrinks the recorded size. */
  lemma GrowKeeps(p: Platform, r: Region, size: nat, reserveOk: bool, commitOk: bool)
    requires Inv(p, r) && size < WORD
    ensures Inv(p, Grown(p, r, size, reserveOk, commitOk).1)
            <==> size + r.currentSize < WORD
                 || Ceiling(size + r.currentSize - WORD, p.pageSize) == Ceiling(r.currentSize, p.pageSize)
  {
    hide Ceiling, PageCount, Pages;
    var newSize := (size + r.currentSize) % WORD;
    PageCountIsCeiling(p, r.currentSize);
    if newSize <= r.maxSize {
      PageCountIsCeiling(p, newSize);
      if newSize >= r.currentSize {
        CeilingMonotone(r.currentSize, newSize, p.pageSize);
        PagesJoin(Ceiling(r.currentSize, p.pageSize), Ceiling(newSize, p.pageSize));
      } else {
        CeilingMonotone(newSize, r.currentSize, p.pageSize);
        PagesEqual(Ceiling(r.currentSize, p.pageSize), Ceiling(newSize, p.pageSize));
      }
    }
  }

  /** A grow that fails changes neither the size nor a page; one that succeeds commits no page twice. */
  lemma GrowCommitsOnce(p: Platform, r: Region, size: nat, reserveOk: bool, commitOk: bool)
    requires Inv(p, r)
    ensures var (result, r') := Grown(p, r, size, reserveOk, commitOk);
            && (result.Null? ==> r'.currentSize == r.currentSize && r'.committed == r.committed)
            && (result.Pointer? ==>
                  && r'.currentSize == (size + r.currentSize) % WORD <= r.maxSize
                  && var first := PageCount(p, r.currentSize);
                  && var last := PageCount(p, r'.currentSize);
                  r.committed !! Pages(first, if last > first then last - first else 0))
  {
    PageCountIsCeiling(p, r.currentSize);
  }

  /** What the sizes come to in 64 bits. */
  function Sum(r: Region, size: nat): nat {
    if size + r.currentSize < WORD then size + r.currentSize else size + r.currentSize - WORD
  }

  /** The region is reserved, or the platform reserves it. */
  predicate Reservable(r: Region, reserveOk: bool) {
    r.reserved || (r.maxSize != 0 && reserveOk)
  }

  /** The new size takes more pages than the current one. */
  predicate NeedsPages(p: Platform, r: Region, size: nat)
    requires 0 < p.pageSize
  {
    Ceiling(Sum(r, size), p.pageSize) > Ceiling(r.currentSize, p.pageSize)
  }

  /** Growing returns memory exactly when the region is or can be reserved, the new size is at most the maximum, and the
      platform commits if more pages are needed. Otherwise it says which of these failed: nothing was asked for at
      construction, the region is too small, or the platform's own error. */
  lemma GrowSucceeds(p: Platform, r: Region, size: nat, reserveOk: bool, commitOk: bool)
    requires Inv(p, r) && size < WORD
    ensures var (result, r') := Grown(p, r, size, reserveOk, commitOk);
            var fits := Sum(r, size) <= r.maxSize;
            && (result == Pointer
                <==> Reservable(r, reserveOk) && fits && (NeedsPages(p, r, size) ==> commitOk))
            && (result == Null(NoError) <==> !r.reserved && r.maxSize == 0)
            && (result == Null(OutOfMemory) <==> Reservable(r, reserveOk) && !fits)
            && (result == Null(Code.Platform)
                <==> (!r.reserved && r.maxSize != 0 && !reserveOk)
                     || (Reservable(r, reserveOk) && fits && NeedsPages(p, r, size) && !commitOk))
            && result != Null(InvalidOperation)
            && r'.maxSize == r.maxSize && r'.reserved == Reservable(r, reserveOk)
            && r'.currentSize == (if result == Pointer then Sum(r, size) else r.currentSize)
  {
    hide PageCount, Pages, Ceiling;
    assert (size + r.currentSize) % WORD == Sum(r, size);
    PageCountIsCeiling(p, r.currentSize);
    if Sum(r, size) <= r.maxSize {
      PageCountIsCeiling(p, Sum(r, size));
    }
  }

  lemma GrowPages(p: Platform, r: Region, size: nat, reserveOk: bool, commitOk: bool)
    requires Inv(p, r) && 0 < size && size + r.currentSize <= r.maxSize
    ensures var (result, r') := Grown(p, r, size, reserveOk, commitOk);
            && result != Null(InvalidOperation)
            && (result.Pointer? ==> r'.currentSize == size + r.currentSize && r'.maxSize == r.maxSize)
  {
    hide PageCount, Pages, Ceiling;
    assert (size + r.currentSize) % WORD == size + r.currentSize;
  }

  /** Claiming never wraps; when it succeeds every page of the region is committed. */
  lemma ClaimKeeps(p: Platform, r: Region, reserveOk: bool, commitOk: bool)
    requires Inv(p, r)
    ensures var (result, r') := Claimed(p, r, reserveOk, commitOk);
            && Inv(p, r')
            && (result.Pointer? ==>
                  && r'.currentSize == r.maxSize
                  && r'.committed == Pages(0, Ceiling(r.maxSize, p.pageSize)))
            && (result == Null(InvalidOperation) <==> r.currentSize == r.maxSize)
  {
    var remaining := r.maxSize - r.currentSize;
    assert (r.maxSize + WORD - r.currentSize) % WORD == remaining;
    if remaining > 0 {
      GrowKeeps(p, r, remaining, reserveOk, commitOk);
      GrowPages(p, r, remaining, reserveOk, commitOk);
    }
  }

  /** Claiming a region with bytes left returns memory exactly when the platform grants what it needs, the reservation
      and the pages; a region with none left is left alone. */
  lemma ClaimSucceeds(p: Platform, r: Region, reserveOk: bool, commitOk: bool)
    requires Inv(p, r)
    ensures var (result, r') := Claimed(p, r, reserveOk, commitOk);
            if r.currentSize == r.maxSize then result == Null(InvalidOperation) && r' == r
            else
              && (result == Pointer
                  <==> (r.reserved || reserveOk)
                       && (Ceiling(r.maxSize, p.pageSize) > Ceiling(r.currentSize, p.pageSize) ==> commitOk))
              && (result != Pointer ==> result == Null(Code.Platform))
              && r'.maxSize == r.maxSize && r'.reserved == (r.reserved || reserveOk)
  {
    hide PageCount, Pages, Ceiling, Grown;
    var remaining := r.maxSize - r.currentSize;
    assert (r.maxSize + WORD - r.currentSize) % WORD == remaining;
    GrowSucceeds(p, r, remaining, reserveOk, commitOk);
  }

  /** Resetting decommits every page, and releases the reservation only when asked to. */
  lemma ResetKeeps(p: Platform, r: Region, release: bool)
    requires Inv(p, r)
    ensures var r' := Cleared(p, r, release);
            Inv(p, r') && r' == Region(r.maxSize, 0, r.reserved && !release, {})
  {
    PageCountIsCeiling(p, r.currentSize);
  }

  /** What is reserved is the least multiple, of the larger of page size and granularity, that holds the maximum. */
  lemma ReservedExact(p: Platform, maxSize: nat, q: nat)
    requires Sane(p, maxSize)
    ensures q == ReservedSize(p, maxSize)
            <==> q % Max(p.pageSize, p.granularity) == 0 && maxSize <= q < maxSize + Max(p.pageSize, p.granularity)
  {
    var f := Max(p.pageSize, p.granularity);
    if maxSize > 0 {
      RoundUpExact(maxSize, f, q);
    } else if q < f {
      QuotientRemainder(q, f, 0, q);
    }
  }

  /** The prefix fits in the reserved pages for every region exactly when the larger of page size and
      granularity is a whole number of pages. */
  lemma PrefixReserved(p: Platform)
    requires 0 < p.pageSize && 2 * Max(p.pageSize, p.granularity) < WORD
    ensures (forall maxSize: nat | Sane(p, maxSize) ::
               Ceiling(maxSize, p.pageSize) <= ReservedSize(p, maxSize) / p.pageSize)
            <==> Max(p.pageSize, p.granularity) % p.pageSize == 0
  {
    var f, m := Max(p.pageSize, p.granularity), p.pageSize;
    if f % m == 0 {
      forall maxSize: nat | Sane(p, maxSize)
        ensures Ceiling(maxSize, m) <= ReservedSize(p, maxSize) / m
      {
        ReservedCovers(p, maxSize);
      }
    } else {
      MultipleMod(1, f);
      RoundUpExact(f, f, f);
      assert Sane(p, f) && Ceiling(f, m) == ReservedSize(p, f) / m + 1;
    }
  }

  lemma Regroup(x: nat, y: nat, z: nat)
    ensures x * (y * z) == (x * y) * z
  {}

  lemma ReservedCovers(p: Platform, maxSize: nat)
    requires Sane(p, maxSize) && Max(p.pageSize, p.granularity) % p.pageSize == 0
    ensures Ceiling(maxSize, p.pageSize) <= ReservedSize(p, maxSize) / p.pageSize
  {
    var f, m := Max(p.pageSize, p.granularity), p.pageSize;
    if maxSize > 0 {
      var q := RoundUp(maxSize, f);
      RoundUpExact(maxSize, f, q);
      DivisionBounds(q, f);
      DivisionBounds(f, m);
      Regroup(q / f, f / m, m);
      MultipleMod(q / f * (f / m), m);
      CeilingMonotone(maxSize, q, m);
      assert Ceiling(q, m) == q / m;
    }
  }

  // ---------------------------------------------------------------- runs

  datatype Op =
    | Grow(size: nat, reserveOk: bool, commitOk: bool)
    | Claim(reserveOk: bool, commitOk: bool)
    | Reset(release: bool)

  function Next(p: Platform, r: Region, op: Op): Region
    requires 0 < p.pageSize
  {
    match op
    case Grow(size, reserveOk, commitOk) => Grown(p, r, size, reserveOk, commitOk).1
    case Claim(reserveOk, commitOk) => Claimed(p, r, reserveOk, commitOk).1
    case Reset(release) => Cleared(p, r, release)
  }

  /** What a caller can check before a step. */
  predicate Allowed(p: Platform, r: Region, op: Op)
    requires 0 < p.pageSize
  {
    op.Grow? && op.size + r.currentSize >= WORD ==>
      op.size + r.currentSize - WORD <= r.currentSize
      && Ceiling(op.size + r.currentSize - WORD, p.pageSize) == Ceiling(r.currentSize, p.pageSize)
  }

  ghost predicate IsRun(p: Platform, run: seq<Region>, ops: seq<Op>) {
    && 0 < p.pageSize && |run| == |ops| + 1
    && forall i | 0 <= i < |ops| :: (ops[i].Grow? ==> ops[i].size < WORD) && run[i + 1] == Next(p, run[i], ops[i])
  }

  /** Over any run from construction, with the platform failing whenever it likes, the committed pages are
      the prefix of the current size throughout exactly when every step is allowed. */
  lemma RunKeeps(p: Platform, run: seq<Region>, ops: seq<Op>)
    requires IsRun(p, run, ops) && run[0] == Region(run[0].maxSize, 0, false, {}) && Sane(p, run[0].maxSize)
    ensures (forall i | 0 <= i < |run| :: Inv(p, run[i])) <==> forall i | 0 <= i < |ops| :: Allowed(p, run[i], ops[i])
  {
    if forall i | 0 <= i < |run| :: Inv(p, run[i]) {
      forall i | 0 <= i < |ops|
        ensures Allowed(p, run[i], ops[i])
      {
        assert Inv(p, run[i]) && Inv(p, run[i + 1]);
        StepKeeps(p, run[i], ops[i]);
      }
    }
    if forall i | 0 <= i < |ops| :: Allowed(p, run[i], ops[i]) {
      var n := 0;
      while n < |ops|
        invariant n <= |ops|
        invariant forall i | 0 <= i <= n :: Inv(p, run[i])
      {
        StepKeeps(p, run[n], ops[n]);
        n := n + 1;
      }
    }
  }

  lemma StepKeeps(p: Platform, r: Region, op: Op)
    requires Inv(p, r) && (op.Grow? ==> op.size < WORD)
    ensures Inv(p, Next(p, r, op)) <==> Allowed(p, r, op)
  {
    match op
    case Grow(size, reserveOk, commitOk) => GrowKeeps(p, r, size, reserveOk, commitOk);
    case Claim(reserveOk, commitOk) => ClaimKeeps(p, r, reserveOk, commitOk);
    case Reset(release) => ResetKeeps(p, r, release);
  }
}
