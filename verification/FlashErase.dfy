/** `FlashIAP::erase` over sectors of different sizes. */
module FlashErase {
  import opened Prelude

  /** `MBED_FLASH_INVALID_SIZE`, the sector size reported for an address outside the flash. */
  const INVALID_SIZE: nat := 0xFFFF_FFFF

  datatype Sector = Sector(start: nat, size: nat) {
    function End(): nat {
      start + size
    }
  }

  /** Sectors lie one after the other below 2^32, each starting at a multiple of its size. */
  ghost predicate Laid(sectors: seq<Sector>) {
    && (forall i :: 0 <= i < |sectors| ==>
          sectors[i].size > 0 && sectors[i].start % sectors[i].size == 0 && sectors[i].End() < TWO_32)
    && (forall i :: 0 <= i < |sectors| - 1 ==> sectors[i].End() == sectors[i + 1].start)
  }

  lemma {:induction false} LaterStartsHigher(sectors: seq<Sector>, i: nat, j: nat)
    requires Laid(sectors) && i < j < |sectors|
    ensures sectors[i].End() <= sectors[j].start
    decreases j
  {
    if i < j - 1 {
      LaterStartsHigher(sectors, i, j - 1);
    }
  }

  predicate Inside(s: Sector, addr: nat) {
    s.start <= addr < s.End()
  }

  /** The sector an address lies in, or one past the last. */
  function Find(sectors: seq<Sector>, addr: nat): (k: nat)
    ensures k <= |sectors|
    ensures k < |sectors| ==> Inside(sectors[k], addr)
    ensures forall i :: 0 <= i < k ==> !Inside(sectors[i], addr)
  {
    if sectors == [] || Inside(sectors[0], addr) then 0 else 1 + Find(sectors[1..], addr)
  }

  lemma FindStart(sectors: seq<Sector>, k: nat)
    requires Laid(sectors) && k < |sectors|
    ensures Find(sectors, sectors[k].start) == k
  {
    var j := Find(sectors, sectors[k].start);
    if j < k {
      LaterStartsHigher(sectors, j, k);
    } else if k < j {
      assert Inside(sectors[k], sectors[k].start);
    }
  }

  /** An address aligned to the size of the sector it lies in is where that sector starts. */
  lemma AlignedIsStart(s: Sector, addr: nat)
    requires s.size > 0 && s.start % s.size == 0 && Inside(s, addr) && addr % s.size == 0
    ensures addr == s.start
  {
    ModSub(addr, s.start, s.size);
    SmallDivMod(addr - s.start, s.size);
  }

  /** The loop of `erase` from sector `i` on, with `size` bytes to go: its result, and how many
      sectors it erases. A sector is erased before the rest is checked against its size. */
  function EraseFrom(sectors: seq<Sector>, i: nat, size: nat, fails: nat -> bool): (r: (int, nat))
    requires forall k :: 0 <= k < |sectors| ==> sectors[k].size > 0
    decreases |sectors| - i
  {
    if size == 0 then (0, 0)
    else if i >= |sectors| || fails(i) then (-1, 0)
    else if size % sectors[i].size != 0 then (-1, 1)
    else
      AtLeastOne(size, sectors[i].size);
      var (result, n) := EraseFrom(sectors, i + 1, size - sectors[i].size, fails);
      (result, n + 1)
  }

  /** The whole of `erase`: result, first sector, number of sectors erased. */
  function Erase(sectors: seq<Sector>, addr: nat, size: nat, fails: nat -> bool): (r: (int, nat, nat))
    requires forall k :: 0 <= k < |sectors| ==> sectors[k].size > 0
  {
    var k := Find(sectors, addr);
    var sectorSize := if k < |sectors| then sectors[k].size else INVALID_SIZE;
    if size % sectorSize != 0 || addr % sectorSize != 0 then (-1, k, 0)
    else
      var (result, n) := EraseFrom(sectors, k, size, fails);
      (result, k, n)
  }

  // ---------------------------------------------------------------- what it erases

  /** `size` bytes from the start of sector `i` are exactly `n` whole sectors. */
  predicate Tiles(sectors: seq<Sector>, i: nat, n: nat, size: nat) {
    i + n <= |sectors| && if n == 0 then size == 0 else size == sectors[i + n - 1].End() - sectors[i].start
  }

  /** `n` sectors from `i` on that the hardware does not refuse, all but perhaps the last inside the
      range, with result 0 if and only if they tile it. */
  predicate RanTo(sectors: seq<Sector>, i: nat, size: nat, fails: nat -> bool, result: int, n: nat) {
    && i + n <= |sectors|
    && (forall k :: i <= k < i + n ==> !fails(k))
    && (result == 0 <==> Tiles(sectors, i, n, size))
    && (result != 0 ==> result == -1)
    && (n > 1 ==> sectors[i + n - 2].End() - sectors[i].start <= size)
  }

  /** The loop erases such sectors, whatever its result. */
  lemma {:induction false} ErasedRun(sectors: seq<Sector>, i: nat, size: nat, fails: nat -> bool)
    requires Laid(sectors) && i <= |sectors|
    ensures var (result, n) := EraseFrom(sectors, i, size, fails);
      RanTo(sectors, i, size, fails, result, n)
    decreases |sectors| - i
  {
    if size > 0 && i < |sectors| && !fails(i) && size % sectors[i].size == 0 {
      AtLeastOne(size, sectors[i].size);
      var (result, n) := EraseFrom(sectors, i + 1, size - sectors[i].size, fails);
      ErasedRun(sectors, i + 1, size - sectors[i].size, fails);
      RanOneMore(sectors, i, size, fails, result, n);
    } else if size > 0 && i < |sectors| && !fails(i) {
      assert size != sectors[i].size by {
        DivModUnique(sectors[i].size, sectors[i].size, 1, 0);
      }
    }
  }

  lemma RanOneMore(sectors: seq<Sector>, i: nat, size: nat, fails: nat -> bool, result: int, n: nat)
    requires Laid(sectors) && i < |sectors| && sectors[i].size <= size && !fails(i)
    requires RanTo(sectors, i + 1, size - sectors[i].size, fails, result, n)
    ensures RanTo(sectors, i, size, fails, result, n + 1)
  {
    OneSectorMore(sectors, i, n, size);
    assert n > 0 ==> sectors[i].End() == sectors[i + 1].start;
  }

  lemma OneSectorMore(sectors: seq<Sector>, i: nat, n: nat, size: nat)
    requires Laid(sectors) && i < |sectors| && sectors[i].size <= size
    ensures Tiles(sectors, i + 1, n, size - sectors[i].size) <==> Tiles(sectors, i, n + 1, size)
  {
    assert n > 0 && i + n < |sectors| ==> sectors[i].End() == sectors[i + 1].start;
  }

  lemma AtLeastOne(size: nat, s: nat)
    requires 0 < s && 0 < size && size % s == 0
    ensures s <= size
  {
    if size < s {
      SmallDivMod(size, s);
    }
  }

  /** With the end of a range in place of its size: what is left at sector `i` divides as the end
      does, because the sector starts at a multiple of its size. */
  lemma EndDivides(s: Sector, size: nat)
    requires s.size > 0 && s.start % s.size == 0
    ensures (s.start + size) % s.size == size % s.size
  {
    ModAdd(size, s.start, s.size);
    DivModRebuilds(s.start, s.size);
    ModPlusMultiple(size, s.start / s.size, s.size);
  }

  /** `end` is a multiple of the size of every sector from `i` up to `until`. */
  predicate EndFits(sectors: seq<Sector>, i: nat, until: nat, end: nat)
    requires until <= |sectors| && forall k :: 0 <= k < |sectors| ==> sectors[k].size > 0
  {
    forall k :: i <= k < until ==> end % sectors[k].size == 0
  }

  predicate NoneFails(fails: nat -> bool, i: nat, until: nat) {
    forall k :: i <= k < until ==> !fails(k)
  }

  /** The range of `size` bytes from the start of sector `i` consists of `n` sectors, and its end is
      a multiple of the size of each of them. */
  predicate Erasable(sectors: seq<Sector>, i: nat, n: nat, size: nat)
    requires forall k :: 0 <= k < |sectors| ==> sectors[k].size > 0
  {
    Tiles(sectors, i, n, size) && (n > 0 ==> EndFits(sectors, i, i + n, sectors[i].start + size))
  }

  /** The loop succeeds, with `n` sectors erased, if and only if the range is tiled by these sectors,
      its end is a multiple of the size of each, and the hardware erases all of them. */
  lemma {:induction false} LoopSucceedsIff(sectors: seq<Sector>, i: nat, n: nat, size: nat, fails: nat -> bool)
    requires Laid(sectors) && i <= |sectors|
    ensures EraseFrom(sectors, i, size, fails) == (0, n) <==>
      Erasable(sectors, i, n, size) && NoneFails(fails, i, i + n)
    decreases |sectors| - i
  {
    if n > 0 && i + n <= |sectors| {
      SizeOfTiling(sectors, i, n);
    }
    if size > 0 && i < |sectors| {
      EndDivides(sectors[i], size);
      if !fails(i) && size % sectors[i].size == 0 && n > 0 {
        AtLeastOne(size, sectors[i].size);
        LoopSucceedsIff(sectors, i + 1, n - 1, size - sectors[i].size, fails);
        OneMoreErasable(sectors, i, n - 1, size);
      }
    }
  }

  lemma SizeOfTiling(sectors: seq<Sector>, i: nat, n: nat)
    requires Laid(sectors) && 0 < n && i + n <= |sectors|
    ensures sectors[i + n - 1].End() > sectors[i].start
  {
    if n > 1 {
      LaterStartsHigher(sectors, i, i + n - 1);
    }
  }

  lemma OneMoreErasable(sectors: seq<Sector>, i: nat, n: nat, size: nat)
    requires Laid(sectors) && i < |sectors| && sectors[i].size <= size && size % sectors[i].size == 0
    ensures Erasable(sectors, i + 1, n, size - sectors[i].size) <==> Erasable(sectors, i, n + 1, size)
  {
    OneSectorMore(sectors, i, n, size);
    EndDivides(sectors[i], size);
  }

  /** With something to erase, the first check asks for the start of a sector, whose size divides that
      of the range. */
  lemma EraseFromStart(sectors: seq<Sector>, addr: nat, size: nat, fails: nat -> bool)
    requires Laid(sectors) && size > 0
    ensures var k := Find(sectors, addr);
      Erase(sectors, addr, size, fails) ==
        if k < |sectors| && addr == sectors[k].start && size % sectors[k].size == 0 then
          (EraseFrom(sectors, k, size, fails).0, k, EraseFrom(sectors, k, size, fails).1)
        else
          (-1, k, 0)
  {
    var k := Find(sectors, addr);
    if k < |sectors| && addr % sectors[k].size == 0 {
      AlignedIsStart(sectors[k], addr);
    }
  }

  /** Where `erase` of `size` bytes at `addr` succeeds: the address passes the check of its sector
      and, unless there is nothing to erase, is the start of a sector from which the range is
      erasable. */
  predicate Accepts(sectors: seq<Sector>, addr: nat, n: nat, size: nat)
    requires forall k :: 0 <= k < |sectors| ==> sectors[k].size > 0
  {
    var k := Find(sectors, addr);
    if size == 0 then
      n == 0 && addr % (if k < |sectors| then sectors[k].size else INVALID_SIZE) == 0
    else
      k < |sectors| && addr == sectors[k].start && Erasable(sectors, k, n, size)
  }

  /** `erase` returns 0, having erased the `n` sectors from the first on, if and only if it accepts
      the range as these sectors and the hardware erases all of them. */
  lemma SucceedsIff(sectors: seq<Sector>, addr: nat, n: nat, size: nat, fails: nat -> bool)
    requires Laid(sectors)
    ensures var k := Find(sectors, addr);
      Erase(sectors, addr, size, fails) == (0, k, n) <==> Accepts(sectors, addr, n, size) && NoneFails(fails, k, k + n)
  {
    if size == 0 {
      EmptyRange(sectors, addr, n, fails);
    } else {
      EraseFromStart(sectors, addr, size, fails);
      if Find(sectors, addr) < |sectors| {
        LoopSucceedsIff(sectors, Find(sectors, addr), n, size, fails);
        FirstDivides(sectors, Find(sectors, addr), n, size);
      }
    }
  }

  lemma EmptyRange(sectors: seq<Sector>, addr: nat, n: nat, fails: nat -> bool)
    requires Laid(sectors)
    ensures Erase(sectors, addr, 0, fails) == (0, Find(sectors, addr), n) <==> Accepts(sectors, addr, n, 0)
  {
    var k := Find(sectors, addr);
    SmallDivMod(0, if k < |sectors| then sectors[k].size else INVALID_SIZE);
  }

  lemma FirstDivides(sectors: seq<Sector>, i: nat, n: nat, size: nat)
    requires Laid(sectors) && i < |sectors| && size > 0
    ensures Erasable(sectors, i, n, size) ==> size % sectors[i].size == 0
  {
    EndDivides(sectors[i], size);
  }

  /** What can be said of any call: `n` sectors from `first` on are erased, none of which the hardware
      refuses, and all but perhaps the last lie inside the range, which starts where they do. */
  predicate RunFrom(sectors: seq<Sector>, first: nat, n: nat, addr: nat, size: nat, fails: nat -> bool) {
    && first + n <= |sectors|
    && NoneFails(fails, first, first + n)
    && (n > 0 ==> addr == sectors[first].start)
    && (n > 1 ==> sectors[first + n - 2].End() <= addr + size)
  }

  /** Whatever its result, `erase` erases such a run, and nothing for an empty range; otherwise it
      succeeds if and only if the run is the range. */
  lemma ErasedAsRun(sectors: seq<Sector>, addr: nat, size: nat, fails: nat -> bool)
    requires Laid(sectors)
    ensures var (result, first, n) := Erase(sectors, addr, size, fails);
      && RunFrom(sectors, first, n, addr, size, fails)
      && (result == 0 || result == -1)
      && (size == 0 ==> n == 0)
      && (size > 0 ==> (result == 0 <==> n > 0 && sectors[first + n - 1].End() == addr + size))
  {
    var k := Find(sectors, addr);
    if size > 0 {
      EraseFromStart(sectors, addr, size, fails);
      if k < |sectors| && addr == sectors[k].start {
        LoopErasesRun(sectors, k, size, fails);
      }
    }
  }

  lemma LoopErasesRun(sectors: seq<Sector>, i: nat, size: nat, fails: nat -> bool)
    requires Laid(sectors) && i < |sectors| && size > 0
    ensures var (result, n) := EraseFrom(sectors, i, size, fails);
      && RunFrom(sectors, i, n, sectors[i].start, size, fails)
      && (result == 0 || result == -1)
      && (result == 0 <==> n > 0 && sectors[i + n - 1].End() == sectors[i].start + size)
  {
    ErasedRun(sectors, i, size, fails);
  }

  /** `end` lies inside sector `j`; up to it, from sector `i` on, the hardware refuses nothing and `end`
      is a multiple of every sector size. */
  predicate EndsInsideAt(sectors: seq<Sector>, i: nat, j: nat, end: nat, fails: nat -> bool)
    requires j < |sectors| && forall k :: 0 <= k < |sectors| ==> sectors[k].size > 0
  {
    sectors[j].start < end < sectors[j].End() && NoneFails(fails, i, j + 1) && EndFits(sectors, i, j, end)
  }

  predicate EndsInside(sectors: seq<Sector>, i: nat, end: nat, fails: nat -> bool)
    requires forall k :: 0 <= k < |sectors| ==> sectors[k].size > 0
  {
    exists j :: i <= j < |sectors| && EndsInsideAt(sectors, i, j, end, fails)
  }

  predicate Overruns(sectors: seq<Sector>, first: nat, n: nat, end: nat) {
    0 < n && first + n <= |sectors| && end < sectors[first + n - 1].End()
  }

  /** The loop erases beyond the end of its range if and only if that end lies inside a sector which
      the loop reaches. */
  lemma {:induction false} LoopOverrunsIff(sectors: seq<Sector>, i: nat, size: nat, fails: nat -> bool)
    requires Laid(sectors) && i < |sectors|
    ensures Overruns(sectors, i, EraseFrom(sectors, i, size, fails).1, sectors[i].start + size)
       <==> EndsInside(sectors, i, sectors[i].start + size, fails)
    decreases |sectors| - i
  {
    EndDivides(sectors[i], size);
    if size > 0 && !fails(i) && size % sectors[i].size == 0 {
      AtLeastOne(size, sectors[i].size);
      var rest := size - sectors[i].size;
      var n := EraseFrom(sectors, i + 1, rest, fails).1;
      assert EraseFrom(sectors, i, size, fails).1 == n + 1;
      if i + 1 < |sectors| {
        LoopOverrunsIff(sectors, i + 1, rest, fails);
        assert sectors[i + 1].start + rest == sectors[i].start + size;
      }
      OverrunsLater(sectors, i, n, sectors[i].start + size, fails);
    } else {
      InsideAtMost(sectors, i, size, fails);
    }
  }

  /** Past a sector that divides the end, only the later ones matter. */
  lemma OverrunsLater(sectors: seq<Sector>, i: nat, n: nat, end: nat, fails: nat -> bool)
    requires Laid(sectors) && i < |sectors| && sectors[i].End() <= end && !fails(i) && end % sectors[i].size == 0
    requires i + 1 < |sectors| ==> (Overruns(sectors, i + 1, n, end) <==> EndsInside(sectors, i + 1, end, fails))
    ensures Overruns(sectors, i, n + 1, end) <==> EndsInside(sectors, i, end, fails)
  {
    OneMoreOverrun(sectors, i, n, end);
    InsideLater(sectors, i, end, fails);
  }

  lemma OneMoreOverrun(sectors: seq<Sector>, i: nat, n: nat, end: nat)
    requires i < |sectors| && sectors[i].End() <= end
    ensures Overruns(sectors, i, n + 1, end) <==> Overruns(sectors, i + 1, n, end)
  {
  }

  lemma InsideLater(sectors: seq<Sector>, i: nat, end: nat, fails: nat -> bool)
    requires Laid(sectors) && i < |sectors| && sectors[i].End() <= end && !fails(i) && end % sectors[i].size == 0
    ensures EndsInside(sectors, i, end, fails) <==> EndsInside(sectors, i + 1, end, fails)
  {
    if EndsInside(sectors, i, end, fails) {
      var j :| i <= j < |sectors| && EndsInsideAt(sectors, i, j, end, fails);
      StartsOneLater(sectors, i, j, end, fails);
    }
    if EndsInside(sectors, i + 1, end, fails) {
      var j :| i + 1 <= j < |sectors| && EndsInsideAt(sectors, i + 1, j, end, fails);
      StartsOneLater(sectors, i, j, end, fails);
    }
  }

  lemma StartsOneLater(sectors: seq<Sector>, i: nat, j: nat, end: nat, fails: nat -> bool)
    requires forall k :: 0 <= k < |sectors| ==> sectors[k].size > 0
    requires i <= j < |sectors| && !fails(i) && end % sectors[i].size == 0
    ensures EndsInsideAt(sectors, i, j, end, fails) == EndsInsideAt(sectors, i + 1, j, end, fails)
  {
    assert NoneFails(fails, i, j + 1) == NoneFails(fails, i + 1, j + 1);
    assert EndFits(sectors, i, j, end) == EndFits(sectors, i + 1, j, end);
  }

  /** A loop that stops at sector `i` can only end inside that one. */
  lemma InsideAtMost(sectors: seq<Sector>, i: nat, size: nat, fails: nat -> bool)
    requires Laid(sectors) && i < |sectors|
    requires size == 0 || fails(i) || (sectors[i].start + size) % sectors[i].size != 0
    ensures var end := sectors[i].start + size;
      EndsInside(sectors, i, end, fails) <==> size > 0 && !fails(i) && end < sectors[i].End()
  {
    var end := sectors[i].start + size;
    assert EndsInsideAt(sectors, i, i, end, fails) <==> size > 0 && !fails(i) && end < sectors[i].End();
    forall j | i < j < |sectors| ensures !EndsInsideAt(sectors, i, j, end, fails) {
      LaterStartsHigher(sectors, i, j);
    }
  }

  /** `erase` erases beyond `addr + size` if and only if the range starts at a sector and its end lies
      inside a later one, up to which the hardware refuses nothing and the end is a multiple of every
      sector size. */
  lemma OverrunsIff(sectors: seq<Sector>, addr: nat, size: nat, fails: nat -> bool)
    requires Laid(sectors)
    ensures var (_, first, n) := Erase(sectors, addr, size, fails);
      Overruns(sectors, first, n, addr + size) <==>
        && first < |sectors| && addr == sectors[first].start
        && (addr + size) % sectors[first].size == 0
        && EndsInside(sectors, first, addr + size, fails)
  {
    var k := Find(sectors, addr);
    if size > 0 {
      EraseFromStart(sectors, addr, size, fails);
    }
    if k < |sectors| && addr == sectors[k].start {
      LoopOverrunsIff(sectors, k, size, fails);
      EndDivides(sectors[k], size);
    }
  }

  /** A call that erases beyond its range says that it failed. */
  lemma OverrunFails(sectors: seq<Sector>, addr: nat, size: nat, fails: nat -> bool)
    requires Laid(sectors)
    ensures var (result, first, n) := Erase(sectors, addr, size, fails);
      Overruns(sectors, first, n, addr + size) ==> result == -1
  {
    ErasedAsRun(sectors, addr, size, fails);
  }

  /** The loop stops with failure after erasing `n` sectors from `i` on, short of `end`: either the last of
      them does not divide the end, or all do and the next one is refused or missing. */
  predicate StopsAfter(sectors: seq<Sector>, i: nat, n: nat, end: nat, fails: nat -> bool)
    requires i < |sectors| && forall k :: 0 <= k < |sectors| ==> sectors[k].size > 0
  {
    && sectors[i].start < end && i + n <= |sectors| && NoneFails(fails, i, i + n)
    && (if n > 0 && end % sectors[i + n - 1].size != 0 then
          EndFits(sectors, i, i + n - 1, end) && sectors[i + n - 1].start < end
        else
          && EndFits(sectors, i, i + n, end)
          && (n > 0 ==> sectors[i + n - 1].End() < end)
          && (i + n == |sectors| || fails(i + n)))
  }

  /** The loop fails after exactly `n` sectors if and only if it has to stop there: it does not stop early. */
  lemma {:induction false} LoopFailsIff(sectors: seq<Sector>, i: nat, n: nat, size: nat, fails: nat -> bool)
    requires Laid(sectors) && i < |sectors|
    ensures EraseFrom(sectors, i, size, fails) == (-1, n) <==>
      StopsAfter(sectors, i, n, sectors[i].start + size, fails)
    decreases |sectors| - i
  {
    EndDivides(sectors[i], size);
    if size > 0 && !fails(i) && size % sectors[i].size == 0 {
      AtLeastOne(size, sectors[i].size);
      var rest, end := size - sectors[i].size, sectors[i].start + size;
      if n > 0 && i + 1 < |sectors| {
        assert sectors[i + 1].start + rest == end;
        LoopFailsIff(sectors, i + 1, n - 1, rest, fails);
        StopsOneLater(sectors, i, n - 1, end, fails);
      }
    } else {
      StopsHere(sectors, i, n, size, fails);
    }
  }

  lemma StopsOneLater(sectors: seq<Sector>, i: nat, n: nat, end: nat, fails: nat -> bool)
    requires Laid(sectors) && i + 1 < |sectors| && sectors[i].End() <= end && !fails(i) && end % sectors[i].size == 0
    ensures StopsAfter(sectors, i, n + 1, end, fails) <==> StopsAfter(sectors, i + 1, n, end, fails)
  {
    assert NoneFails(fails, i, i + 1 + n) == NoneFails(fails, i + 1, i + 1 + n);
    if i + 1 + n <= |sectors| {
      assert EndFits(sectors, i, i + 1 + n, end) == EndFits(sectors, i + 1, i + 1 + n, end);
      assert EndFits(sectors, i, i + n, end) == EndFits(sectors, i + 1, i + n, end);
    }
    if 1 < n && i + n < |sectors| {
      LaterStartsHigher(sectors, i + 1, i + n);
    }
  }

  lemma StopsHere(sectors: seq<Sector>, i: nat, n: nat, size: nat, fails: nat -> bool)
    requires Laid(sectors) && i < |sectors|
    requires size == 0 || fails(i) || (sectors[i].start + size) % sectors[i].size != 0
    ensures StopsAfter(sectors, i, n, sectors[i].start + size, fails) <==>
      size > 0 && n == if fails(i) then 0 else 1
  {
    var end := sectors[i].start + size;
    if n > 0 && i + n <= |sectors| {
      assert NoneFails(fails, i, i + n) ==> !fails(i);
      assert EndFits(sectors, i, i + n, end) ==> end % sectors[i].size == 0;
      assert n > 1 && EndFits(sectors, i, i + n - 1, end) ==> end % sectors[i].size == 0;
    }
  }

  /** `erase` fails after exactly `n` sectors if and only if the first check fails and nothing is erased, or
      the loop has to stop there. */
  lemma FailsIff(sectors: seq<Sector>, addr: nat, n: nat, size: nat, fails: nat -> bool)
    requires Laid(sectors) && size > 0
    ensures var k := Find(sectors, addr);
      Erase(sectors, addr, size, fails) == (-1, k, n) <==>
        if k < |sectors| && addr == sectors[k].start && (addr + size) % sectors[k].size == 0 then
          StopsAfter(sectors, k, n, addr + size, fails)
        else
          n == 0
  {
    var k := Find(sectors, addr);
    EraseFromStart(sectors, addr, size, fails);
    if k < |sectors| && addr == sectors[k].start {
      EndDivides(sectors[k], size);
      LoopFailsIff(sectors, k, n, size, fails);
    }
  }

  /** Asked for one 16 KB and half a 64 KB sector, `erase` wipes both and then reports failure. */
  lemma FailureMayOverrun()
    ensures var sectors := [Sector(49152, 16384), Sector(65536, 65536)];
      Laid(sectors) && Erase(sectors, 49152, 49152, k => false) == (-1, 0, 2) && Overruns(sectors, 0, 2, 98304)
  {
    var sectors := [Sector(49152, 16384), Sector(65536, 65536)];
    assert Inside(sectors[0], 49152);
    assert Find(sectors, 49152) == 0;
    assert EraseFrom(sectors, 1, 32768, k => false) == (-1, 1);
  }

  /** Tiling is not enough: 64 KB and 16 KB sectors tile 80 KB, whose end is no multiple of 64 KB. */
  lemma TilingMayBeRefused(fails: nat -> bool, n: nat)
    ensures var sectors := [Sector(0, 65536), Sector(65536, 16384)];
      && Laid(sectors)
      && Tiles(sectors, 0, 2, 81920)
      && Erase(sectors, 0, 81920, fails) != (0, 0, n)
  {
    var sectors := [Sector(0, 65536), Sector(65536, 16384)];
    assert Inside(sectors[0], 0);
    SucceedsIff(sectors, 0, n, 81920, fails);
    assert 81920 % sectors[0].size != 0;
  }

  /** When each sector size in the range divides the next, as in flash whose sectors grow, tiling is
      enough. */
  lemma GrowingSectorsSuffice(sectors: seq<Sector>, i: nat, n: nat, size: nat)
    requires Laid(sectors) && Tiles(sectors, i, n, size)
    requires forall k :: i <= k < i + n - 1 ==> sectors[k + 1].size % sectors[k].size == 0
    ensures Erasable(sectors, i, n, size)
  {
    if n > 0 {
      var last := sectors[i + n - 1];
      assert sectors[i].start + size == last.start + last.size;
      EndDivides(last, last.size);
      DivModUnique(last.size, last.size, 1, 0);
      forall j | i <= j < i + n ensures last.End() % sectors[j].size == 0 {
        SmallerDividesEnd(sectors, j, i + n - 1);
      }
    }
  }

  lemma {:induction false} SmallerDividesEnd(sectors: seq<Sector>, j: nat, last: nat)
    requires Laid(sectors) && j <= last < |sectors| && sectors[last].End() % sectors[last].size == 0
    requires forall k :: j <= k < last ==> sectors[k + 1].size % sectors[k].size == 0
    ensures sectors[last].End() % sectors[j].size == 0
    decreases last - j
  {
    if j < last {
      SmallerDividesEnd(sectors, j + 1, last);
      MultipleOfMultiple(sectors[last].End(), sectors[j + 1].size, sectors[j].size);
    }
  }

  lemma MultipleOfMultiple(x: nat, m: nat, s: nat)
    requires m > 0 && s > 0 && x % m == 0 && m % s == 0
    ensures x % s == 0
  {
    DivModRebuilds(x, m);
    DivModRebuilds(m, s);
    assert x == ((x / m) * (m / s)) * s + 0 by {
      assert (x / m) * ((m / s) * s) == ((x / m) * (m / s)) * s;
    }
    DivModUnique(x, s, (x / m) * (m / s), 0);
  }

  // ---------------------------------------------------------------- the code

  /** The flash HAL: sectors, which of them refuse to be erased, and those erased so far. */
  class Flash {
    const sectors: seq<Sector>
    const fails: nat -> bool
    var erased: seq<nat>

    constructor (sectors: seq<Sector>, fails: nat -> bool)
      ensures this.sectors == sectors && this.fails == fails && erased == []
    {
      this.sectors, this.fails, erased := sectors, fails, [];
    }

    function SectorSize(addr: nat): nat {
      var k := Find(sectors, addr);
      if k < |sectors| then sectors[k].size else INVALID_SIZE
    }

    /** `flash_erase_sector`. */
    method EraseSector(addr: nat) returns (result: int)
      modifies this
      ensures var k := Find(sectors, addr);
        if k < |sectors| && !fails(k) then
          result == 0 && erased == old(erased) + [k]
        else
          result == -1 && erased == old(erased)
    {
      var k := Find(sectors, addr);
      if k < |sectors| && !fails(k) {
        erased := erased + [k];
        result := 0;
      } else {
        result := -1;
      }
    }
  }

  function Consecutive(first: nat, n: nat): seq<nat> {
    seq(n, i => first + i)
  }

  /** `after` is `before` and `n` sectors more, from `first` on. */
  ghost predicate Grew(before: seq<nat>, after: seq<nat>, first: nat, n: nat) {
    after == before + Consecutive(first, n)
  }

  lemma GrewFurther(start: seq<nat>, before: seq<nat>, after: seq<nat>, first: nat, n: nat, more: nat)
    requires Grew(start, before, first, n) && Grew(before, after, first + n, more)
    ensures Grew(start, after, first, n + more)
  {
  }

  class FlashIAP {
    const flash: Flash

    constructor (flash: Flash)
      ensures this.flash == flash
    {
      this.flash := flash;
    }

    predicate IsAlignedToSector(addr: nat, size: nat)
      requires Laid(flash.sectors)
    {
      size % flash.SectorSize(addr) == 0 && addr % flash.SectorSize(addr) == 0
    }

    method EraseRange(start: nat, length: nat) returns (result: int)
      requires Laid(flash.sectors) && start < TWO_32 && length < TWO_32
      modifies flash
      ensures var (r, first, n) := Erase(flash.sectors, start, length, flash.fails);
        result == r && flash.erased == old(flash.erased) + Consecutive(first, n)
    {
      ghost var k := Find(flash.sectors, start);
      if !IsAlignedToSector(start, length) {
        assert flash.erased == flash.erased + Consecutive(k, 0);
        return -1;
      }
      if k < |flash.sectors| {
        AlignedIsStart(flash.sectors[k], start);
      }
      result := EraseAll(start, length, k);
    }

    /** The loop, from the start of sector `k`. */
    method EraseAll(start: nat, length: nat, ghost k: nat) returns (result: int)
      requires AtSector(start, k) && length < TWO_32
      modifies flash
      ensures var (r, n) := EraseFrom(flash.sectors, k, length, flash.fails);
        result == r && flash.erased == old(flash.erased) + Consecutive(k, n)
    {
      var addr: nat, size: nat := start, length;
      result := 0;
      ghost var n: nat, began := 0, flash.erased;
      while size != 0
        invariant result == 0 && Progress(began, k, length, addr, n, size)
        decreases size
      {
        var nextAddr, nextSize;
        result, nextAddr, nextSize := EraseNext(began, k, length, addr, n, size);
        if result != 0 {
          return;
        }
        addr, size, n := nextAddr, nextSize, n + 1;
      }
    }

    /** After `n` rounds of the loop. */
    ghost predicate Progress(began: seq<nat>, k: nat, length: nat, addr: nat, n: nat, size: nat)
      reads flash
    {
      && AtSector(addr, k + n) && size < TWO_32
      && Grew(began, flash.erased, k, n)
      && Rest(k, length) == (Rest(k + n, size).0, Rest(k + n, size).1 + n)
    }

    method EraseNext(ghost began: seq<nat>, ghost k: nat, ghost length: nat, addr: nat, ghost n: nat, size: nat)
      returns (result: int, nextAddr: nat, nextSize: nat)
      requires 0 < size && Progress(began, k, length, addr, n, size)
      modifies flash
      ensures result == 0 ==> nextSize < size && Progress(began, k, length, nextAddr, n + 1, nextSize)
      ensures result != 0 ==> Rest(k, length).0 == result && Grew(began, flash.erased, k, Rest(k, length).1)
    {
      ghost var before, more := flash.erased, 0;
      result, nextAddr, nextSize, more := EraseOne(addr, size, k + n);
      GrewFurther(began, before, flash.erased, k, n, more);
    }

    ghost predicate AtSector(addr: nat, i: nat) {
      && Laid(flash.sectors) && i <= |flash.sectors|
      && Find(flash.sectors, addr) == i
      && (i < |flash.sectors| ==> addr == flash.sectors[i].start)
    }

    ghost function Rest(i: nat, size: nat): (int, nat)
      requires Laid(flash.sectors)
    {
      EraseFrom(flash.sectors, i, size, flash.fails)
    }

    /** One round of the loop, at the start of sector `i`. */
    method EraseOne(addr: nat, size: nat, ghost i: nat)
      returns (result: int, nextAddr: nat, nextSize: nat, ghost more: nat)
      requires 0 < size < TWO_32 && AtSector(addr, i)
      modifies flash
      ensures Grew(old(flash.erased), flash.erased, i, more)
      ensures result != 0 ==> result == -1 && Rest(i, size) == (-1, more)
      ensures result == 0 ==>
        && more == 1 && nextSize < size && AtSector(nextAddr, i + 1)
        && Rest(i, size) == (Rest(i + 1, nextSize).0, Rest(i + 1, nextSize).1 + 1)
    {
      nextAddr, nextSize, more := addr, size, 0;
      result := flash.EraseSector(addr);
      if result != 0 {
        return -1, addr, size, 0;
      }
      more := 1;
      var currentSectorSize := flash.SectorSize(addr);
      if !IsAlignedToSector(addr, size) {
        return -1, addr, size, 1;
      }
      AtLeastOne(size, currentSectorSize);
      NextSector(flash.sectors, i);
      FitsU32(flash.sectors[i].End());
      nextSize := size - currentSectorSize;
      nextAddr := U32(addr + currentSectorSize);
      assert nextAddr == flash.sectors[i].End();
    }
  }

  /** The end of a sector is the start of the next, or outside the flash. */
  lemma NextSector(sectors: seq<Sector>, k: nat)
    requires Laid(sectors) && k < |sectors|
    ensures Find(sectors, sectors[k].End()) == k + 1
  {
    if k + 1 < |sectors| {
      FindStart(sectors, k + 1);
    } else {
      var j := Find(sectors, sectors[k].End());
      if j < k {
        LaterStartsHigher(sectors, j, k);
      }
    }
  }
}
