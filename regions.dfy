/**
 * The region directory: a fixed array of 1024 region descriptors kept sorted
 * by base address, with a live prefix of `count` entries whose last one is a
 * sentinel at 0xFFFFFFFF of size 0. Regions are placed at a hint when it
 * fits, otherwise in the gap that leaves the least space over.
 */
module Regions {
  import opened Words
  import StdLib

  const Capacity: nat := 1024

  /** The region flag bits. */
  const MapAnonymous: u32 := 0x0000_0001
  const MapFile: u32 := 0x0000_0002
  const MapPrivate: u32 := 0x0000_0100
  const MapShared: u32 := 0x0000_0200
  const MapWrite: u32 := 0x0001_0000
  const MapKernel: u32 := 0x1000_0000
  const MapUser: u32 := 0x2000_0000

  /**
   * `struct vm_entry`. The file is an opaque handle, 0 standing for the null
   * pointer.
   */
  datatype Region = Region(base: u32, size: u32, flags: u32, file: nat, offset: u32, disksize: u32)

  /** The top sentinel vmm_init installs. */
  const Sentinel: Region := Region(0xFFFF_FFFF, 0, 0, 0, 0, 0)

  /** `base + size` in 32-bit pointer arithmetic. */
  function End(e: Region): u32
  {
    Wrap(e.base + e.size)
  }

  /**
   * vm_entry_cmp: -1 below the region, 1 at or above its (wrapped) end, 0
   * inside.
   */
  function Compare(key: u32, e: Region): (c: int)
    ensures c == -1 || c == 0 || c == 1
    ensures c == 0 <==> e.base <= key < End(e)
  {
    if key < e.base then -1
    else if key >= End(e) then 1
    else 0
  }

  /** Regions in increasing order, none reaching past the next one's base, none wrapping. */
  ghost predicate Ordered(s: seq<Region>)
  {
    (forall i :: 0 <= i < |s| ==> s[i].base + s[i].size < Modulus)
    && (forall i, j :: 0 <= i < j < |s| ==> s[i].base + s[i].size <= s[j].base)
  }

  /** Containment search over ordered regions is well-posed for bsearch_s. */
  lemma OrderedSortedFor(s: seq<Region>, key: u32)
    requires Ordered(s)
    ensures StdLib.SortedFor(key, s, Compare)
  {
  }

  /** In ordered regions at most one region contains an address. */
  lemma OrderedContainsOnce(s: seq<Region>, key: u32, i: nat, j: nat)
    requires Ordered(s) && i < |s| && j < |s|
    requires Compare(key, s[i]) == 0 && Compare(key, s[j]) == 0
    ensures i == j
  {
  }

  /** Any region starting at a contained key, and not empty, is the region that contains it. */
  lemma StartIsContainer(s: seq<Region>, key: u32, index: nat)
    requires Ordered(s) && index < |s| && Compare(key, s[index]) == 0
    ensures forall k :: 0 <= k < |s| && s[k].base == key && 0 < s[k].size ==> k == index
  {
    forall k | 0 <= k < |s| && s[k].base == key && 0 < s[k].size ensures k == index {
      OrderedContainsOnce(s, key, k, index);
    }
  }

  /**
   * The flag combinations add_vm_entry refuses: USER with KERNEL, SHARED with
   * PRIVATE, ANONYMOUS with FILE, and FILE without a file.
   */
  predicate FlagsAccepted(flags: u32, file: nat)
  {
    !(Has(flags, MapUser) && Has(flags, MapKernel))
    && !(Has(flags, MapShared) && Has(flags, MapPrivate))
    && !(Has(flags, MapAnonymous) && Has(flags, MapFile))
    && !(Has(flags, MapFile) && file == 0)
  }

  /**
   * The hint test at index i: for i = 0, region 0 starts above `hint + size`;
   * otherwise region i - 1 ends at or below the hint and region i starts
   * above `hint + size`. Both sums wrap at 2^32.
   */
  predicate FitsAt(s: seq<Region>, h: u32, size: u32, i: nat)
    requires i < |s|
  {
    if i == 0 then s[0].base > Wrap(h + size)
    else End(s[i - 1]) <= h && s[i].base > Wrap(h + size)
  }

  /** The first index at or after i where the hint test passes. */
  function FirstFitFrom(s: seq<Region>, h: u32, size: u32, i: nat): (r: Option<nat>)
    requires i <= |s|
    ensures r.Some? ==> i <= r.value < |s| && FitsAt(s, h, size, r.value)
    ensures r.Some? ==> forall j :: i <= j < r.value ==> !FitsAt(s, h, size, j)
    ensures r.None? ==> forall j :: i <= j < |s| ==> !FitsAt(s, h, size, j)
    decreases |s| - i
  {
    if i == |s| then None
    else if FitsAt(s, h, size, i) then Some(i)
    else FirstFitFrom(s, h, size, i + 1)
  }

  /** The free space between region i - 1 and region i, in wrapping arithmetic. */
  function Gap(s: seq<Region>, i: nat): u32
    requires 0 < i < |s|
  {
    Wrap(s[i].base - End(s[i - 1]))
  }

  /** The gap before region i is large enough for `size`. */
  predicate Qualifies(s: seq<Region>, size: u32, i: nat)
  {
    0 < i < |s| && Gap(s, i) >= size
  }

  /** The space a region of `size` leaves over in a qualifying gap. */
  function Lost(s: seq<Region>, size: u32, i: nat): u32
    requires Qualifies(s, size, i)
  {
    Gap(s, i) - size
  }

  /** The best-fit state: `best_lost_space` and `best_hint`. */
  datatype Best = Best(lost: u32, hint: u32)

  const NoBest: Best := Best(0xFFFF_FFFF, 0)

  /** One best-fit update at index i: a strictly smaller leftover replaces the best. */
  function Step(s: seq<Region>, size: u32, i: nat, b: Best): Best
    requires 0 < i < |s|
  {
    if Qualifies(s, size, i) && Lost(s, size, i) < b.lost then Best(Lost(s, size, i), End(s[i - 1]))
    else b
  }

  /** The best-fit state after the updates at indices 1 .. k - 1, starting from acc. */
  function BestUpTo(s: seq<Region>, size: u32, k: nat, acc: Best): Best
    requires k <= |s|
  {
    if k <= 1 then acc
    else Step(s, size, k - 1, BestUpTo(s, size, k - 1, acc))
  }

  /** The best-fit fold never increases the leftover and ends at or below every qualifying gap's. */
  lemma {:induction false} BestUpToBelow(s: seq<Region>, size: u32, k: nat, acc: Best)
    requires k <= |s|
    ensures BestUpTo(s, size, k, acc).lost <= acc.lost
    ensures forall i :: 1 <= i < k && Qualifies(s, size, i) ==> BestUpTo(s, size, k, acc).lost <= Lost(s, size, i)
  {
    if k > 1 {
      BestUpToBelow(s, size, k - 1, acc);
    }
  }

  /** A fold that starts at or below every leftover it will see changes nothing. */
  lemma {:induction false} BestUpToStable(s: seq<Region>, size: u32, k: nat, acc: Best)
    requires k <= |s|
    requires forall i :: 1 <= i < k && Qualifies(s, size, i) ==> acc.lost <= Lost(s, size, i)
    ensures BestUpTo(s, size, k, acc) == acc
  {
    if k > 1 {
      BestUpToStable(s, size, k - 1, acc);
    }
  }

  /**
   * The retry loop of add_vm_entry: a pass that starts from the best-fit
   * state of a full pass ends with that same state, so every pass after the
   * first retries with the same hint.
   */
  lemma RetryRepeats(s: seq<Region>, size: u32, acc: Best)
    ensures BestUpTo(s, size, |s|, BestUpTo(s, size, |s|, acc)) == BestUpTo(s, size, |s|, acc)
  {
    BestUpToBelow(s, size, |s|, acc);
    BestUpToStable(s, size, |s|, BestUpTo(s, size, |s|, acc));
  }

  /**
   * The best fit is the earliest gap with the least leftover: when the fold
   * chose a gap, it is the gap before some region j that qualifies, no
   * qualifying gap leaves less, and every earlier qualifying gap leaves more.
   */
  lemma {:induction false} BestIsEarliestLeast(s: seq<Region>, size: u32, k: nat)
    requires k <= |s|
    ensures var b := BestUpTo(s, size, k, NoBest);
      b != NoBest ==> exists j :: (1 <= j < k && Qualifies(s, size, j) && b == Best(Lost(s, size, j), End(s[j - 1]))
        && (forall i :: 1 <= i < j && Qualifies(s, size, i) ==> Lost(s, size, i) > b.lost))
  {
    BestUpToBelow(s, size, k, NoBest);
    if k > 1 {
      BestIsEarliestLeast(s, size, k - 1);
      BestUpToBelow(s, size, k - 1, NoBest);
    }
  }

  /** The directory after inserting e before position i. */
  function Insert(s: seq<Region>, i: nat, e: Region): (r: seq<Region>)
    requires i <= |s|
    ensures |r| == |s| + 1 && r[i] == e
    ensures forall j :: 0 <= j < i ==> r[j] == s[j]
    ensures forall j :: i < j < |r| ==> r[j] == s[j - 1]
  {
    s[..i] + [e] + s[i..]
  }

  /**
   * A region placed where the hint test passes keeps the directory ordered,
   * as long as `hint + size` does not wrap.
   */
  lemma InsertKeepsOrdered(s: seq<Region>, h: u32, size: u32, i: nat, e: Region)
    requires Ordered(s) && i < |s| && FitsAt(s, h, size, i)
    requires e.base == h && e.size == size && h + size < Modulus
    ensures Ordered(Insert(s, i, e))
  {
    var r := Insert(s, i, e);
    forall a, b | 0 <= a < b < |r| ensures r[a].base + r[a].size <= r[b].base {
      if a < i && b == i {
        assert s[a].base + s[a].size <= s[i - 1].base + s[i - 1].size;
      } else if a == i && b > i {
        assert s[i].base <= s[b - 1].base;
      }
    }
  }

  /**
   * As written, a hint whose end wraps past 2^32 passes the test at index 0
   * and lands before every other region, out of order.
   */
  lemma WrappedHintBreaksOrder()
    ensures var s := [Sentinel];
      FitsAt(s, 0xFFFF_F000, 0x2000, 0) && !Ordered(Insert(s, 0, Region(0xFFFF_F000, 0x2000, 0, 0, 0, 0)))
  {
    var r := Insert([Sentinel], 0, Region(0xFFFF_F000, 0x2000, 0, 0, 0, 0));
    assert r[0].base + r[0].size >= Modulus;
  }

  /** The retried hint passes the test at the chosen gap when that gap leaves space over. */
  lemma RetryFitsWithSlack(s: seq<Region>, size: u32)
    requires Ordered(s) && |s| > 0
    requires var b := BestUpTo(s, size, |s|, NoBest); b != NoBest && b.lost > 0
    ensures FirstFitFrom(s, BestUpTo(s, size, |s|, NoBest).hint, size, 0).Some?
  {
    BestIsEarliestLeast(s, size, |s|);
    var b := BestUpTo(s, size, |s|, NoBest);
    var j :| 1 <= j < |s| && Qualifies(s, size, j) && b == Best(Lost(s, size, j), End(s[j - 1]))
      && (forall i :: 1 <= i < j && Qualifies(s, size, i) ==> Lost(s, size, i) > b.lost);
    assert FitsAt(s, b.hint, size, j);
  }

  /**
   * As written, a gap that fits exactly is chosen by the best-fit test (`>=`)
   * but refused by the hint test (strict `>`), so the retry never places it.
   */
  lemma ExactFitNeverPlaced()
    ensures var s := [Region(0x1000, 0x1000, 0, 0, 0, 0), Region(0x3000, 0x1000, 0, 0, 0, 0), Sentinel];
      var b := BestUpTo(s, 0x1000, |s|, NoBest);
      b == Best(0, 0x2000) && FirstFitFrom(s, 0, 0x1000, 0).None? && FirstFitFrom(s, b.hint, 0x1000, 0).None?
  {
    var s := [Region(0x1000, 0x1000, 0, 0, 0, 0), Region(0x3000, 0x1000, 0, 0, 0, 0), Sentinel];
    assert Qualifies(s, 0x1000, 1) && Lost(s, 0x1000, 1) == 0;
    assert BestUpTo(s, 0x1000, 2, NoBest) == Best(0, 0x2000);
    assert BestUpTo(s, 0x1000, 3, NoBest) == Best(0, 0x2000);
    assert !FitsAt(s, 0, 0x1000, 0) && !FitsAt(s, 0, 0x1000, 1) && !FitsAt(s, 0, 0x1000, 2);
    assert !FitsAt(s, 0x2000, 0x1000, 0) && !FitsAt(s, 0x2000, 0x1000, 1) && !FitsAt(s, 0x2000, 0x1000, 2);
    assert FirstFitFrom(s, 0, 0x1000, 3).None?;
    assert FirstFitFrom(s, 0x2000, 0x1000, 3).None?;
  }

  /** The hint test with the bound inclusive, as the best-fit test is. */
  predicate FitsAtInclusive(s: seq<Region>, h: u32, size: u32, i: nat)
    requires i < |s|
  {
    if i == 0 then s[0].base >= h + size
    else End(s[i - 1]) <= h && s[i].base >= h + size
  }

  /**
   * With an inclusive, non-wrapping hint test, the hint chosen by the
   * best-fit pass always passes at the chosen gap, so the retry terminates.
   */
  lemma InclusiveRetryAlwaysFits(s: seq<Region>, size: u32)
    requires Ordered(s) && |s| > 0
    requires BestUpTo(s, size, |s|, NoBest) != NoBest
    ensures exists j :: 0 <= j < |s| && FitsAtInclusive(s, BestUpTo(s, size, |s|, NoBest).hint, size, j)
  {
    BestIsEarliestLeast(s, size, |s|);
    var b := BestUpTo(s, size, |s|, NoBest);
    var j :| 1 <= j < |s| && Qualifies(s, size, j) && b == Best(Lost(s, size, j), End(s[j - 1]))
      && (forall i :: 1 <= i < j && Qualifies(s, size, i) ==> Lost(s, size, i) > b.lost);
    assert FitsAtInclusive(s, b.hint, size, j);
  }

  /** The result of add_vm_entry: a returned address, or the retry loop spinning forever. */
  datatype AddResult = Returned(addr: u32) | Diverges

  /**
   * The splice index rm_vm_entry computes for the region found at index k:
   * `(vm_map - vm) / sizeof(struct vm_entry)`. The pointer difference is
   * -k, converted to a 32-bit unsigned value before the division by 24.
   */
  function SpliceIndexAsWritten(k: nat): (index: u32)
    requires k < Capacity
    ensures k == 0 ==> index == 0
  {
    Wrap(-(k as int)) / 24
  }

  /** Every region after the first gets a splice index far past the 1024-entry array. */
  lemma SpliceIndexOutOfRange(k: nat)
    requires 0 < k < Capacity
    ensures SpliceIndexAsWritten(k) >= Capacity
    ensures SpliceIndexAsWritten(1) == 178_956_970
  {
  }

  /** Copying everything after index down by one removes entry index from any prefix that holds it. */
  lemma SpliceDown(before: seq<Region>, index: nat, c: nat)
    requires index < c <= |before|
    ensures StdLib.Copied(before, index, index + 1, |before| - 1 - index)[..c - 1]
      == before[..c][..index] + before[..c][index + 1..]
  {
    var n := |before| - 1 - index;
    StdLib.CopiedFaithful(before, index, index + 1, n);
    var after := StdLib.Copied(before, index, index + 1, n);
    var want := before[..c][..index] + before[..c][index + 1..];
    forall k | 0 <= k < c - 1 ensures after[k] == want[k] {
      if k < index {
        assert want[k] == before[k];
      } else {
        assert after[k] == before[index + 1 + (k - index)];
        assert want[k] == before[k + 1];
      }
    }
  }

  class RegionMap {
    /** `vm_map[1024]`. */
    var entries: array<Region>
    /** `vm_map_size`. */
    var count: nat

    ghost predicate Valid()
      reads this, entries
    {
      entries.Length == Capacity && count <= Capacity
    }

    /** The live prefix of the directory. */
    ghost function Live(): seq<Region>
      reads this, entries
      requires Valid()
    {
      entries[..count]
    }

    /** The directory vmm_init leaves: the sentinel alone. */
    constructor ()
      ensures Valid() && fresh(entries) && Live() == [Sentinel]
    {
      entries := new Region[Capacity](_ => Region(0, 0, 0, 0, 0, 0));
      count := 1;
      new;
      entries[0] := Sentinel;
    }

    /**
     * One pass from the `check_with_hint` label: tries the hint at index 0,
     * then at each index from 1 in order, folding the best-fit update into
     * (lost, hint) at every index the hint does not fit. Reads only.
     */
    method Scan(h: u32, size: u32, acc: Best) returns (fit: Option<nat>, best: Best)
      requires Valid() && count >= 1
      ensures fit == FirstFitFrom(Live(), h, size, 0)
      ensures fit.None? ==> best == BestUpTo(Live(), size, count, acc)
    {
      ghost var s := Live();
      if entries[0].base > Wrap(h + size) {
        return Some(0), acc;
      }
      best := acc;
      var i := 1;
      while i < count
        invariant 1 <= i <= count
        invariant FirstFitFrom(s, h, size, 0) == FirstFitFrom(s, h, size, i)
        invariant best == BestUpTo(s, size, i, acc)
      {
        assert entries[i - 1] == s[i - 1] && entries[i] == s[i];
        var prevEnd := End(entries[i - 1]);
        if prevEnd <= h && entries[i].base > Wrap(h + size) {
          assert FitsAt(s, h, size, i);
          return Some(i), best;
        }
        assert FirstFitFrom(s, h, size, i) == FirstFitFrom(s, h, size, i + 1);
        ghost var next := Step(s, size, i, best);
        if Wrap(entries[i].base - prevEnd) >= size {
          var lost := Wrap(entries[i].base - prevEnd) - size;
          if lost < best.lost {
            best := Best(lost, prevEnd);
          }
        }
        assert best == next;
        i := i + 1;
      }
      return None, best;
    }

    /**
     * The `fit_with_hint` block: shifts entries i .. count - 1 up by one from
     * the top down, writes e at i and grows the directory by one.
     */
    method InsertAt(i: nat, e: Region)
      requires Valid() && i < count < Capacity
      modifies this, entries
      ensures Valid() && entries == old(entries)
      ensures count == old(count) + 1
      ensures Live() == Insert(old(Live()), i, e)
      ensures entries[count..] == old(entries[count + 1..])
    {
      ghost var a := entries[..];
      ShiftUp(i);
      entries[i] := e;
      count := count + 1;
      assert forall k :: 0 <= k < count ==> Live()[k] == Insert(a[..count - 1], i, e)[k];
    }

    /** The copy loop of InsertAt: entries i..count-1 move up one place; the rest stay. */
    method ShiftUp(i: nat)
      requires Valid() && i < count < Capacity
      modifies entries
      ensures forall k :: 0 <= k <= i ==> entries[k] == old(entries[k])
      ensures forall k :: i < k <= count ==> entries[k] == old(entries[k - 1])
      ensures forall k :: count < k < Capacity ==> entries[k] == old(entries[k])
    {
      var j := count;
      while j > i
        invariant i <= j <= count
        invariant forall k :: 0 <= k <= j ==> entries[k] == old(entries[k])
        invariant forall k :: j < k <= count ==> entries[k] == old(entries[k - 1])
        invariant forall k :: count < k < Capacity ==> entries[k] == old(entries[k])
      {
        entries[j] := entries[j - 1];
        j := j - 1;
      }
    }

    /**
     * add_vm_entry. Refused flag combinations return 0 and change nothing.
     * Otherwise the hint is rounded down to its page; if a pass with it finds
     * a place, the region goes there and the hint is returned; otherwise the
     * pass retries with the best-fit hint. If that retry finds no place
     * either, every later retry repeats it (RetryRepeats) and the C loop never
     * returns: the result is Diverges and the directory is unchanged.
     */
    method AddVmEntry(hint: u32, size: u32, flags: u32, file: nat, offset: u32, disksize: u32)
      returns (r: AddResult)
      requires Valid() && 1 <= count < Capacity
      modifies this, entries
      ensures Valid() && entries == old(entries)
      ensures !FlagsAccepted(flags, file) ==> r == Returned(0) && Live() == old(Live())
      ensures FlagsAccepted(flags, file) ==>
        var s, e := old(Live()), Region(PageBase(hint), size, flags, file, offset, disksize);
        var retry := BestUpTo(s, size, |s|, NoBest).hint;
        match FirstFitFrom(s, PageBase(hint), size, 0)
        case Some(i) => r == Returned(PageBase(hint)) && Live() == Insert(s, i, e)
        case None =>
          match FirstFitFrom(s, retry, size, 0)
          case Some(i) => r == Returned(retry) && Live() == Insert(s, i, e.(base := retry))
          case None => r == Diverges && Live() == s
    {
      if !FlagsAccepted(flags, file) {
        return Returned(0);
      }
      var h := PageBase(hint);
      var fit, best := Scan(h, size, NoBest);
      if fit.Some? {
        InsertAt(fit.value, Region(h, size, flags, file, offset, disksize));
        return Returned(h);
      }
      h := best.hint;
      fit, best := Scan(h, size, best);
      if fit.Some? {
        InsertAt(fit.value, Region(h, size, flags, file, offset, disksize));
        return Returned(h);
      }
      RetryRepeats(old(Live()), size, NoBest);
      return Diverges;
    }

    /**
     * rm_vm_entry with the splice at the index of the region found. A base
     * that no region contains, or that is not the start of its region,
     * changes nothing; so does a base at which only empty regions start,
     * since no key lies inside an empty region. The region at base 0 is kept with size 0; any other
     * region is removed by copying the entries after it down by one, and
     * the directory shrinks by one. Frames backing the region are not
     * returned to the bitmap.
     */
    method RmVmEntry(base: u32)
      requires Valid() && Ordered(Live())
      modifies this, entries
      ensures Valid() && entries == old(entries)
      ensures (forall k :: 0 <= k < old(count) ==> old(entries[k]).base != base) ==> Live() == old(Live())
      ensures (forall k :: 0 <= k < old(count) && old(entries[k]).base == base ==> old(entries[k]).size == 0) ==>
        Live() == old(Live())
      ensures forall k :: 0 <= k < old(count) && old(entries[k]).base == base && 0 < old(entries[k]).size ==>
        if base == 0 then Live() == old(Live())[k := old(entries[k]).(size := 0)]
        else Live() == old(Live())[..k] + old(Live())[k + 1..]
    {
      ghost var s := Live();
      OrderedSortedFor(s, base);
      var found := StdLib.BSearch(base, entries[..count], Compare);
      if found.None? {
        return;
      }
      var index := found.value;
      StartIsContainer(s, base, index);
      if entries[index].base != base {
        return;
      }
      if entries[index].base == 0 {
        entries[index] := entries[index].(size := 0);
      } else {
        RemoveAt(index);
      }
    }

    /**
     * The splice of rm_vm_entry at index: copies the entries from index + 1
     * to the end of the array down by one, in ascending order, and shrinks
     * the directory by one.
     */
    method RemoveAt(index: nat)
      requires Valid() && index < count
      modifies this, entries
      ensures Valid() && entries == old(entries)
      ensures count == old(count) - 1
      ensures Live() == old(Live())[..index] + old(Live())[index + 1..]
    {
      ghost var before := entries[..];
      StdLib.Copy(entries, index, index + 1, Capacity - 1 - index);
      SpliceDown(before, index, count);
      count := count - 1;
    }
  }
}
