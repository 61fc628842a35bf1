/** Merging leaf pages during compaction: `__bam_merge_pages` moves everything at once,
  * `__bam_merge_records` moves a number of whole records one slot at a time. */
module PageMerge {
  import opened Bytes
  import opened SlottedPage
  import opened PageOps
  import opened PageSplit

  // ---- All at once ----

  function Rebased(inp: seq<int>, n: int): (r: seq<int>)
    ensures |r| == |inp|
    ensures forall k :: 0 <= k < |r| ==> r[k] == inp[k] - n
  {
    seq(|inp|, k requires 0 <= k < |inp| => inp[k] - n)
  }

  /** `pg` with all of `npg` behind it. */
  function Merged(pg: Image, npg: Image): Image {
    pg.(inp := pg.inp + Rebased(npg.inp, pg.size - pg.hoffset),
        hoffset := pg.hoffset - (npg.size - npg.hoffset),
        heap := pg.heap + npg.heap)
  }

  function Emptied(npg: Image): Image {
    npg.(inp := [], hoffset := npg.size, heap := [])
  }

  /** The bulk copy of `__bam_merge_pages`. */
  method MergePages(pg: Page, npg: Page)
    requires pg != npg && pg.Img().Valid() && npg.Img().Valid()
    modifies pg`inp, pg`hoffset, pg`heap, npg`inp, npg`hoffset, npg`heap
    ensures pg.Img() == Merged(old(pg.Img()), old(npg.Img()))
    ensures npg.Img() == Emptied(old(npg.Img()))
  {
    var len := npg.size - npg.hoffset;
    ghost var inp := pg.inp;
    var i := 0;
    while i < |npg.inp|
      invariant 0 <= i <= |npg.inp|
      invariant pg.inp == inp + Rebased(npg.inp[..i], pg.size - pg.hoffset)
      invariant pg.Img() == old(pg.Img()).(inp := pg.inp) && npg.Img() == old(npg.Img())
    {
      RebasedNext(npg.inp, i, pg.size - pg.hoffset);
      pg.inp := pg.inp + [npg.inp[i] - (pg.size - pg.hoffset)];
      i := i + 1;
    }
    assert npg.inp[..i] == npg.inp;
    pg.heap := pg.heap + npg.heap;
    pg.hoffset := pg.hoffset - len;
    npg.inp, npg.hoffset, npg.heap := [], npg.hoffset + len, [];
    EmptyHoffset(old(npg.Img()));
  }

  lemma RebasedNext(inp: seq<int>, i: nat, n: int)
    requires i < |inp|
    ensures Rebased(inp[..i + 1], n) == Rebased(inp[..i], n) + [inp[i] - n]
  {
  }

  lemma EmptyHoffset(g: Image)
    ensures g.hoffset + (g.size - g.hoffset) == g.size
  {
  }

  lemma DepthOfSum(a: seq<Item>, b: seq<Item>, j: nat)
    requires j < |a| + |b|
    ensures Depth(a + b, j) == if j < |a| then Depth(a, j) else Total(a) + Depth(b, j - |a|)
  {
    if j < |a| {
      assert (a + b)[..j + 1] == a[..j + 1];
    } else {
      assert (a + b)[..j + 1] == a + b[..j - |a| + 1];
      TotalAppend(a, b[..j - |a| + 1]);
    }
  }

  /** Item numbers behind those of another page. */
  ghost function Raised(refs: seq<int>, n: nat): (r: seq<int>)
    ensures |r| == |refs|
    ensures forall k :: 0 <= k < |r| ==> r[k] == refs[k] + n
  {
    seq(|refs|, k requires 0 <= k < |refs| => refs[k] + n)
  }

  /** Every copied offset is rebased to the item it stood for. */
  lemma MergedRefs(pg: Image, npg: Image, rp: seq<int>, rn: seq<int>)
    requires RefersTo(pg.inp, pg.size, pg.heap, rp) && RefersTo(npg.inp, npg.size, npg.heap, rn)
    requires pg.size == npg.size && pg.hoffset == pg.size - Total(pg.heap)
    ensures RefersTo(Merged(pg, npg).inp, pg.size, pg.heap + npg.heap, rp + Raised(rn, |pg.heap|))
  {
    hide Total, Depth;
    var m, r := Merged(pg, npg), rp + Raised(rn, |pg.heap|);
    forall k | 0 <= k < |r|
      ensures 0 <= r[k] < |m.heap| && m.inp[k] == m.size - Depth(m.heap, r[k])
    {
      DepthOfSum(pg.heap, npg.heap, r[k]);
    }
  }

  lemma JoinedOnto(a: seq<int>, b: seq<int>, m: nat, n: nat)
    requires Onto(a, m) && Onto(b, n)
    ensures Onto(a + Raised(b, m), m + n)
  {
    var r := a + Raised(b, m);
    forall j | 0 <= j < m + n
      ensures j in r
    {
      if j < m {
        assert j in a;
      } else {
        assert j - m in b;
        var k :| 0 <= k < |b| && b[k] == j - m;
        assert r[|a| + k] == j;
      }
    }
  }

  /** No data is lost or reordered, and the same keys share their item. */
  lemma MergeConserves(pg: Image, npg: Image)
    requires pg.Valid() && npg.Valid() && DupSets(pg) && DupSets(npg)
    requires pg.size == npg.size && pg.kind == npg.kind && OnStride(pg.kind, |pg.inp|)
    requires npg.size - SIZEOF_PAGE - npg.FreeSpace() <= pg.FreeSpace()
    ensures var m := Merged(pg, npg);
            m.Valid() && Slots(m) == Slots(pg) + Slots(npg) && DupSets(m)
    ensures Emptied(npg).Valid() && Slots(Emptied(npg)) == []
  {
    hide Find, Depth, Total, DupSets;
    var m, rp, rn := Merged(pg, npg), Refs(pg), Refs(npg);
    RefsOf(pg);
    RefsOf(npg);
    MergedRefs(pg, npg, rp, rn);
    JoinedOnto(rp, rn, |pg.heap|, |npg.heap|);
    TotalAppend(pg.heap, npg.heap);
    var r := rp + Raised(rn, |pg.heap|);
    ValidFromRefs(m, r);
    assert Slots(m) == Slots(pg) + Slots(npg);
    MergedDupSets(pg, npg);
    NothingLeft(npg);
  }

  lemma NothingLeft(npg: Image)
    requires npg.Valid()
    ensures Emptied(npg).Valid() && Slots(Emptied(npg)) == []
  {
    OntoNothing(0);
  }

  /** The offsets that were copied lie below those that were there. */
  lemma TwoAreas(pg: Image, npg: Image)
    requires pg.Valid() && npg.Valid() && pg.size == npg.size
    ensures forall i :: 0 <= i < |pg.inp| ==> pg.inp[i] >= pg.hoffset
    ensures forall k :: 0 <= k < |npg.inp| ==> npg.inp[k] < npg.size
  {
    hide Find, Depth, Total, Size;
    RefsOf(pg);
    RefsOf(npg);
    forall i | 0 <= i < |pg.inp|
      ensures pg.inp[i] >= pg.hoffset
    {
      DepthBelowTotal(pg.heap, Refs(pg)[i]);
    }
    forall k | 0 <= k < |npg.inp|
      ensures npg.inp[k] < npg.size
    {
      DepthBelowTotal(npg.heap, Refs(npg)[k]);
      SizePositive(npg.heap[Refs(npg)[k]]);
    }
  }

  lemma MergedDupSets(pg: Image, npg: Image)
    requires pg.Valid() && npg.Valid() && DupSets(pg) && DupSets(npg)
    requires pg.size == npg.size && pg.kind == npg.kind && OnStride(pg.kind, |pg.inp|)
    ensures DupSets(Merged(pg, npg))
  {
    hide Find, Depth, Total, Onto, Refs, Merged, Image.Valid;
    var m := Merged(pg, npg);
    forall i, j | 0 <= i < j < |m.inp| && m.inp[i] == m.inp[j]
      ensures m.kind == LBtree && i % 2 == 0 && j % 2 == 0
      ensures forall k :: i <= k <= j && k % 2 == 0 ==> m.inp[k] == m.inp[i]
    {
      MergedShare(pg, npg, i, j);
    }
  }

  lemma MergedShare(pg: Image, npg: Image, i: nat, j: nat)
    requires pg.Valid() && npg.Valid() && DupSets(pg) && DupSets(npg)
    requires pg.size == npg.size && pg.kind == npg.kind && OnStride(pg.kind, |pg.inp|)
    requires i < j < |Merged(pg, npg).inp| && Merged(pg, npg).inp[i] == Merged(pg, npg).inp[j]
    ensures pg.kind == LBtree && i % 2 == 0 && j % 2 == 0
    ensures forall k :: i <= k <= j && k % 2 == 0 ==> Merged(pg, npg).inp[k] == Merged(pg, npg).inp[i]
    ensures Merged(pg, npg).kind == pg.kind
  {
    hide Find, Depth, Total, Onto, Refs, DupSets, Image.Valid;
    TwoAreas(pg, npg);
    var m, n := Merged(pg, npg), |pg.inp|;
    if j < n {
      SameOffset(pg, i, j);
    } else {
      SameOffset(npg, i - n, j - n);
      forall k | i <= k <= j && k % 2 == 0
        ensures m.inp[k] == m.inp[i]
      {
        assert npg.inp[k - n] == npg.inp[i - n];
      }
    }
  }

  lemma SameOffset(g: Image, i: nat, j: nat)
    requires DupSets(g) && i < j < |g.inp| && g.inp[i] == g.inp[j]
    ensures g.kind == LBtree && i % 2 == 0 && j % 2 == 0
    ensures forall k :: i <= k <= j && k % 2 == 0 ==> g.inp[k] == g.inp[i]
  {
  }

  // ---- One slot at a time ----

  /** Room that the first `j` slots take on another page: an index each, and an item unless a
    * key repeats the one before it. */
  ghost function MoveCost(npg: Image, j: nat): nat
    requires npg.Valid() && j <= |npg.inp|
  {
    if j == 0 then 0
    else MoveCost(npg, j - 1) + 2 + if Repeats(npg, 0, j - 1) then 0 else Size(npg.Slot(j - 1))
  }

  /** The target's slots share items as they did on the two pages, and never across. */
  ghost predicate JoinedRefs(rg: seq<int>, rp: seq<int>, rn: seq<int>, j: nat) {
    && j <= |rn| && |rg| == |rp| + j
    && (forall a, b :: 0 <= a < |rp| && 0 <= b < |rp| ==> (rg[a] == rg[b] <==> rp[a] == rp[b]))
    && (forall a, b :: 0 <= a < |rp| <= b < |rg| ==> rg[a] != rg[b])
    && (forall a, b :: |rp| <= a < |rg| && |rp| <= b < |rg| ==> (rg[a] == rg[b] <==> rn[a - |rp|] == rn[b - |rp|]))
  }

  /** `j` slots have moved from `npg` to `pg`. */
  ghost predicate Filled(pg: Image, npg: Image, g: Image, j: nat)
    requires pg.Valid() && npg.Valid() && j <= |npg.inp|
  {
    && g.Valid() && g == pg.(inp := g.inp, hoffset := g.hoffset, heap := g.heap)
    && Slots(g) == Slots(pg) + Slots(npg)[..j]
    && JoinedRefs(Refs(g), Refs(pg), Refs(npg), j)
    && g.FreeSpace() == pg.FreeSpace() - MoveCost(npg, j)
  }

  ghost predicate Drained(npg: Image, h: Image, j: nat)
    requires npg.Valid() && j <= |npg.inp|
  {
    && h.Valid() && h == npg.(inp := h.inp, hoffset := h.hoffset, heap := h.heap)
    && Slots(h) == Slots(npg)[j..]
    && SameRefs(Refs(h), Refs(npg), j)
  }

  lemma JoinedNew(rg: seq<int>, rp: seq<int>, rn: seq<int>, j: nat, x: int)
    requires JoinedRefs(rg, rp, rn, j) && j < |rn|
    requires forall a :: 0 <= a < |rg| ==> rg[a] != x
    requires forall a :: 0 <= a < j ==> rn[a] != rn[j]
    ensures JoinedRefs(Insert(rg, |rg|, x), rp, rn, j + 1)
  {
  }

  lemma JoinedRepeat(rg: seq<int>, rp: seq<int>, rn: seq<int>, j: nat)
    requires JoinedRefs(rg, rp, rn, j) && 2 <= j < |rn| && rn[j] == rn[j - 2]
    ensures |rg| >= 2 && JoinedRefs(Insert(rg, |rg|, rg[|rg| - 2]), rp, rn, j + 1)
  {
    var r, n := Insert(rg, |rg|, rg[|rg| - 2]), |rg|;
    forall b | |rp| <= b < n
      ensures r[n] == r[b] <==> rn[j] == rn[b - |rp|]
    {
      assert rg[n - 2] == rg[b] <==> rn[j - 2] == rn[b - |rp|];
    }
  }

  lemma PrefixNext(pg: seq<Item>, npg: seq<Item>, j: nat)
    requires j < |npg|
    ensures pg + npg[..j + 1] == Insert(pg + npg[..j], |pg| + j, npg[j])
  {
  }

  /** A slot whose key does not repeat the one before it takes its item along. */
  lemma FillNew(pg: Image, npg: Image, g: Image, j: nat)
    requires pg.Valid() && npg.Valid() && DupSets(npg) && j < |npg.inp| && Filled(pg, npg, g, j)
    requires !Repeats(npg, 0, j) && MoveCost(npg, j + 1) <= pg.FreeSpace()
    ensures Filled(pg, npg, Put(g, |g.inp|, npg.Slot(j)), j + 1)
    ensures Size(npg.Slot(j)) <= g.FreeSpace()
  {
    hide Find, Depth, Total, Size, DupSets, Repeats, JoinedRefs, Onto, Slots;
    PutSlots(g, |g.inp|, npg.Slot(j));
    NewRef(npg, 0, j);
    RefsOf(g);
    JoinedNew(Refs(g), Refs(pg), Refs(npg), j, |g.heap|);
    PrefixNext(Slots(pg), Slots(npg), j);
  }

  /** A key that repeats the one before it moves as an index only. */
  lemma FillRepeat(pg: Image, npg: Image, g: Image, j: nat)
    requires pg.Valid() && npg.Valid() && j < |npg.inp| && Filled(pg, npg, g, j)
    requires Repeats(npg, 0, j) && MoveCost(npg, j + 1) <= pg.FreeSpace()
    ensures |g.inp| >= 2 && Filled(pg, npg, Adjusted(g, |g.inp|, |g.inp| - P_INDX, true), j + 1)
  {
    hide Find, Depth, Total, Size, JoinedRefs, Onto, Slots, Repeats;
    SameRef(npg, 0, j);
    JoinedRepeat(Refs(g), Refs(pg), Refs(npg), j);
    AdjustedSlots(g, |g.inp|, |g.inp| - P_INDX);
    assert Slots(g)[|g.inp| - 2] == Slots(npg)[j - 2] == Slots(npg)[j];
    PrefixNext(Slots(pg), Slots(npg), j);
  }

  /** Whether the first slot's item is still needed by the next key. */
  predicate NeededNext(h: Image) {
    h.kind == LBtree && |h.inp| % 2 == 0 && |h.inp| > 2 && h.inp[0] == h.inp[2]
  }

  lemma RestNext(s: seq<Item>, j: nat)
    requires j < |s|
    ensures s[j + 1..] == Remove(s[j..], 0)
  {
  }

  lemma DrainShared(npg: Image, h: Image, j: nat)
    requires npg.Valid() && j < |npg.inp| && Drained(npg, h, j) && NeededNext(h)
    ensures Drained(npg, Adjusted(h, 0, O_INDX, false), j + 1)
  {
    hide Find, Depth, Total, Size, Onto, Slots;
    assert h.Shared(0);
    UnadjustedSlots(h, 0, O_INDX);
    RestNext(Slots(npg), j);
  }

  /** The item goes with the slot when no other key needs it. */
  lemma DrainLast(npg: Image, h: Image, j: nat)
    requires npg.Valid() && DupSets(npg) && OnStride(npg.kind, |npg.inp|) && j < |npg.inp| && Drained(npg, h, j)
    requires !NeededNext(h)
    ensures h.inp != [] && Drained(npg, Drop(h, 0), j + 1)
  {
    hide Find, Depth, Total, Size, Onto, Slots, DupSets;
    NotShared(npg, h, j);
    DropSlots(h, 0);
    RestNext(Slots(npg), j);
    DroppedRefs(Refs(h), Refs(npg), j);
  }

  lemma NotShared(npg: Image, h: Image, j: nat)
    requires npg.Valid() && DupSets(npg) && OnStride(npg.kind, |npg.inp|) && j < |npg.inp| && Drained(npg, h, j)
    requires !NeededNext(h)
    ensures !h.Shared(0) && h.inp != []
    ensures forall k :: 0 < k < |h.inp| ==> Refs(h)[k] != Refs(h)[0]
  {
    hide Find, Depth, Total, Onto, Slots;
    RefsOf(npg);
    RefsOf(h);
    forall k | 0 < k < |h.inp|
      ensures Refs(h)[k] != Refs(h)[0] && h.inp[k] != h.inp[0]
    {
      OffsetsDecide(h.inp, h.size, h.heap, Refs(h), 0, k);
      OffsetsDecide(npg.inp, npg.size, npg.heap, Refs(npg), j, j + k);
      if npg.inp[j] == npg.inp[j + k] {
        SameOffset(npg, j, j + k);
        OffsetsDecide(npg.inp, npg.size, npg.heap, Refs(npg), j, j + 2);
        OffsetsDecide(h.inp, h.size, h.heap, Refs(h), 0, 2);
      }
    }
  }

  lemma DroppedRefs(rh: seq<int>, rn: seq<int>, j: nat)
    requires SameRefs(rh, rn, j) && |rh| > 0 && j + |rh| == |rn|
    requires forall k :: 0 < k < |rh| ==> rh[k] != rh[0]
    ensures SameRefs(Remove(Renumber(rh, rh[0]), 0), rn, j + 1)
  {
    var r := Remove(Renumber(rh, rh[0]), 0);
    forall a, b | 0 <= a < |r| && 0 <= b < |r|
      ensures r[a] == r[b] <==> rn[j + 1 + a] == rn[j + 1 + b]
    {
      assert rh[a + 1] == rh[b + 1] <==> rn[j + (a + 1)] == rn[j + (b + 1)];
    }
  }

  /** The key that comes next repeats one that has moved already. */
  predicate Pending(npg: Image, j: nat)
    requires j <= |npg.inp|
  {
    npg.kind == LBtree &&
    if j % 2 == 0 then j < |npg.inp| && Repeats(npg, 0, j)
    else j + 1 < |npg.inp| && Repeats(npg, 0, j + 1)
  }

  /** What the flags of the loop tell about slot `j`, the first one left. */
  lemma NextKey(npg: Image, h: Image, j: nat)
    requires npg.Valid() && DupSets(npg) && j < |npg.inp| && Drained(npg, h, j) && OnStride(npg.kind, |npg.inp|)
    ensures |h.inp| == |npg.inp| - j && h.kind == npg.kind && h.Valid()
    ensures NeededNext(h) <==> |h.inp| % 2 == 0 && |h.inp| > 2 && h.inp[0] == h.inp[2]
    ensures NeededNext(h) <==> npg.kind == LBtree && j % 2 == 0 && j + 2 < |npg.inp| && Repeats(npg, 0, j + 2)
    ensures Slots(h)[0] == Slots(npg)[j]
  {
    hide Find, Depth, Total, Onto, Slots;
    RefsOf(npg);
    RefsOf(h);
    if j + 2 < |npg.inp| {
      OffsetsDecide(h.inp, h.size, h.heap, Refs(h), 0, 2);
      OffsetsDecide(npg.inp, npg.size, npg.heap, Refs(npg), j, j + 2);
    }
  }

  /** The duplicate flags, for a page with `numEnt` slots left. */
  method NextFlags(numEnt: nat, sameAsNext: bool, isDup0: bool, firstDup0: bool, nextDup0: bool)
    returns (isDup: bool, firstDup: bool, nextDup: bool)
    requires isDup0 == nextDup0
    ensures numEnt % 2 == 1 ==> isDup == nextDup == nextDup0
    ensures numEnt % 2 == 0 ==> nextDup == sameAsNext && (isDup && !firstDup <==> nextDup0)
                                && (isDup <==> nextDup0 || sameAsNext)
  {
    isDup, firstDup, nextDup := isDup0, firstDup0, nextDup0;
    if numEnt % 2 == 0 {
      if sameAsNext {
        if !isDup {
          firstDup, isDup := true, true;
        } else {
          firstDup := false;
        }
        nextDup := true;
      } else if nextDup {
        isDup, firstDup, nextDup := true, false, false;
      } else {
        isDup := false;
      }
    }
  }

  /** The end of the page being filled gets slot `j` of the other one. */
  method Append(pg: Page, npg: Page, copies: bool, ghost p0: Image, ghost n0: Image, ghost j: nat)
    requires pg != npg && p0.Valid() && n0.Valid() && DupSets(n0) && j < |n0.inp|
    requires Filled(p0, n0, pg.Img(), j) && npg.Img().Valid() && npg.inp != [] && npg.Img().Slot(0) == n0.Slot(j)
    requires copies == Repeats(n0, 0, j) && MoveCost(n0, j + 1) <= p0.FreeSpace()
    modifies pg
    ensures Filled(p0, n0, pg.Img(), j + 1)
  {
    hide Find, Depth, Total, Size, Slots, DupSets, Filled, MoveCost, Put, Adjusted, Onto, Repeats;
    var pind := |pg.inp|;
    if copies {
      FillRepeat(p0, n0, pg.Img(), j);
      pg.AdjIndx(pind, pind - P_INDX, true);
    } else {
      FillNew(p0, n0, pg.Img(), j);
      var ok := pg.PItem(pind, npg.Img().Slot(0));
    }
  }

  /** The first slot of the page being emptied goes. */
  method TakeFirst(npg: Page, needed: bool, ghost n0: Image, ghost j: nat)
    requires n0.Valid() && DupSets(n0) && OnStride(n0.kind, |n0.inp|) && j < |n0.inp|
    requires Drained(n0, npg.Img(), j) && npg.Img().Valid() && npg.inp != [] && needed == NeededNext(npg.Img())
    modifies npg
    ensures Drained(n0, npg.Img(), j + 1)
  {
    hide Find, Depth, Total, Size, DupSets, Drained, Drop, Adjusted, Onto;
    if needed {
      DrainShared(n0, npg.Img(), j);
      npg.AdjIndx(0, O_INDX, false);
    } else {
      DrainLast(n0, npg.Img(), j);
      npg.DItem(0, Size(npg.Img().Slot(0)));
    }
  }

  lemma FilledLength(pg: Image, npg: Image, g: Image, j: nat)
    requires pg.Valid() && npg.Valid() && j <= |npg.inp| && Filled(pg, npg, g, j)
    ensures |g.inp| == |pg.inp| + j
  {
  }

  /** One round of the loop of `__bam_merge_records`: the first slot of `npg` moves to the
    * end of `pg`. */
  method MoveSlot(pg: Page, npg: Page, isDup0: bool, firstDup0: bool, nextDup0: bool,
                  ghost p0: Image, ghost n0: Image, ghost j: nat)
    returns (isDup: bool, firstDup: bool, nextDup: bool)
    requires pg != npg && p0.Valid() && n0.Valid() && DupSets(n0) && j < |n0.inp|
    requires p0.kind == n0.kind && OnStride(p0.kind, |p0.inp|) && OnStride(n0.kind, |n0.inp|)
    requires Filled(p0, n0, pg.Img(), j) && Drained(n0, npg.Img(), j)
    requires MoveCost(n0, j + 1) <= p0.FreeSpace()
    requires isDup0 == nextDup0 == Pending(n0, j)
    modifies pg, npg
    ensures Filled(p0, n0, pg.Img(), j + 1) && Drained(n0, npg.Img(), j + 1)
    ensures isDup == nextDup == Pending(n0, j + 1)
  {
    hide Find, Depth, Total, Size, Slots, DupSets, Filled, Drained, MoveCost, Put, Drop, Adjusted, Onto;
    NextKey(n0, npg.Img(), j);
    FilledLength(p0, n0, pg.Img(), j);
    var pind, nent := |pg.inp|, |npg.inp|;
    var needed := nent % 2 == 0 && nent > 2 && npg.inp[0] == npg.inp[2];
    isDup, firstDup, nextDup := NextFlags(nent, needed, isDup0, firstDup0, nextDup0);
    var copies := isDup && !firstDup && pind % 2 == 0;
    if copies && !nextDup {
      isDup := false;
    }
    Append(pg, npg, copies, p0, n0, j);
    TakeFirst(npg, nextDup && nent % 2 == 0, n0, j);
  }

  /** The loop of `__bam_merge_records`, for a number of slots that fit and end with a whole
    * duplicate set. */
  method MoveRecords(pg: Page, npg: Page, indx: nat)
    requires pg != npg && pg.Img().Valid() && npg.Img().Valid() && DupSets(pg.Img()) && DupSets(npg.Img())
    requires pg.kind == npg.kind && OnStride(pg.kind, |pg.inp|) && OnStride(npg.kind, |npg.inp|)
    requires Boundary(npg.Img(), indx) && indx > 0 && MoveCost(npg.Img(), indx) <= pg.Img().FreeSpace()
    modifies pg, npg
    ensures Filled(old(pg.Img()), old(npg.Img()), pg.Img(), indx) && DupSets(pg.Img())
    ensures Drained(old(npg.Img()), npg.Img(), indx) && DupSets(npg.Img())
  {
    hide Find, Depth, Total, Size, DupSets, Filled, Drained, MoveCost, Pending, Onto, Slots, Boundary;
    ghost var p0, n0 := pg.Img(), npg.Img();
    Begin(p0, n0, indx);
    var isDup, firstDup, nextDup := false, false, false;
    var left := indx;
    while left != 0
      invariant 0 <= left <= indx
      invariant Filled(p0, n0, pg.Img(), indx - left) && Drained(n0, npg.Img(), indx - left)
      invariant isDup == nextDup == Pending(n0, indx - left)
    {
      CostGrows(n0, indx - left + 1, indx);
      isDup, firstDup, nextDup := MoveSlot(pg, npg, isDup, firstDup, nextDup, p0, n0, indx - left);
      left := left - 1;
    }
    FilledDupSets(p0, n0, pg.Img(), indx);
    DrainedDupSets(n0, npg.Img(), indx);
  }

  /** Between records, and not within a duplicate set. */
  predicate Boundary(npg: Image, indx: nat) {
    indx <= |npg.inp| && OnStride(npg.kind, indx) && (indx < |npg.inp| ==> !Repeats(npg, 0, indx))
  }

  lemma Begin(pg: Image, npg: Image, indx: nat)
    requires pg.Valid() && npg.Valid() && Boundary(npg, indx)
    ensures Filled(pg, npg, pg, 0) && Drained(npg, npg, 0) && !Pending(npg, 0)
    ensures indx <= |npg.inp| && OnStride(npg.kind, indx)
  {
    assert Slots(pg) + Slots(npg)[..0] == Slots(pg);
    assert Slots(npg)[0..] == Slots(npg);
  }

  lemma {:induction false} CostGrows(npg: Image, i: nat, j: nat)
    requires npg.Valid() && i <= j <= |npg.inp|
    ensures MoveCost(npg, i) + 2 * (j - i) <= MoveCost(npg, j)
    decreases j
  {
    hide Find, Depth, Total, Size, Onto, Repeats;
    if i < j {
      CostGrows(npg, i, j - 1);
    }
  }

  lemma DrainedDupSets(npg: Image, h: Image, j: nat)
    requires npg.Valid() && DupSets(npg) && j <= |npg.inp| && Drained(npg, h, j) && OnStride(npg.kind, j)
    ensures DupSets(h)
  {
    hide Find, Depth, Total, Onto, DupSets;
    SameOffsets(npg, h, j, |h.inp|);
    SameSharing(npg, h, j, |h.inp|);
  }

  lemma FilledDupSets(pg: Image, npg: Image, g: Image, j: nat)
    requires pg.Valid() && npg.Valid() && DupSets(pg) && DupSets(npg) && j <= |npg.inp| && Filled(pg, npg, g, j)
    requires pg.kind == npg.kind && OnStride(pg.kind, |pg.inp|)
    ensures DupSets(g)
  {
    hide Find, Depth, Total, Onto, DupSets, Filled, JoinedRefs;
    FilledOffsets(pg, npg, g, j);
    JoinedSharing(pg, npg, g, j);
  }

  /** Offsets are shared as item numbers are. */
  ghost predicate SharedAlike(inp: seq<int>, refs: seq<int>) {
    |inp| == |refs| && forall a, b :: 0 <= a < |inp| && 0 <= b < |inp| ==> (inp[a] == inp[b] <==> refs[a] == refs[b])
  }

  lemma OffsetsLikeRefs(g: Image)
    requires g.Valid()
    ensures SharedAlike(g.inp, Refs(g))
  {
    hide Find, Depth, Total, Onto;
    RefsOf(g);
    forall a, b | 0 <= a < |g.inp| && 0 <= b < |g.inp|
      ensures g.inp[a] == g.inp[b] <==> Refs(g)[a] == Refs(g)[b]
    {
      OffsetsDecide(g.inp, g.size, g.heap, Refs(g), a, b);
    }
  }

  lemma FilledOffsets(pg: Image, npg: Image, g: Image, j: nat)
    requires pg.Valid() && npg.Valid() && j <= |npg.inp| && Filled(pg, npg, g, j)
    ensures JoinedRefs(g.inp, pg.inp, npg.inp, j) && g.kind == pg.kind
  {
    hide Find, Depth, Total, Onto, Slots, Refs;
    OffsetsLikeRefs(pg);
    OffsetsLikeRefs(npg);
    OffsetsLikeRefs(g);
  }

  lemma JoinedSharing(pg: Image, npg: Image, g: Image, j: nat)
    requires DupSets(pg) && DupSets(npg) && JoinedRefs(g.inp, pg.inp, npg.inp, j) && g.kind == pg.kind
    requires pg.kind == npg.kind && OnStride(pg.kind, |pg.inp|)
    ensures DupSets(g)
  {
    hide DupSets;
    var n := |pg.inp|;
    forall a, b | 0 <= a < b < |g.inp| && g.inp[a] == g.inp[b]
      ensures g.kind == LBtree && a % 2 == 0 && b % 2 == 0
      ensures forall k :: a <= k <= b && k % 2 == 0 ==> g.inp[k] == g.inp[a]
    {
      JoinedShare(pg, npg, g, j, a, b);
    }
    SharesAll(g);
  }

  lemma SharesAll(g: Image)
    requires forall a, b :: 0 <= a < b < |g.inp| && g.inp[a] == g.inp[b] ==>
               && g.kind == LBtree && a % 2 == 0 && b % 2 == 0
               && forall k :: a <= k <= b && k % 2 == 0 ==> g.inp[k] == g.inp[a]
    ensures DupSets(g)
  {
  }

  lemma JoinedShare(pg: Image, npg: Image, g: Image, j: nat, a: nat, b: nat)
    requires DupSets(pg) && DupSets(npg) && JoinedRefs(g.inp, pg.inp, npg.inp, j) && g.kind == pg.kind
    requires pg.kind == npg.kind && OnStride(pg.kind, |pg.inp|)
    requires a < b < |g.inp| && g.inp[a] == g.inp[b]
    ensures g.kind == LBtree && a % 2 == 0 && b % 2 == 0
    ensures forall k :: a <= k <= b && k % 2 == 0 ==> g.inp[k] == g.inp[a]
  {
    hide DupSets, JoinedRefs;
    NeverAcross(pg, npg, g, j, a, b);
    if b < |pg.inp| {
      SameOffset(pg, a, b);
      AlikeInFront(g.inp, pg.inp, npg.inp, j, a, b);
    } else {
      SameOffset(npg, a - |pg.inp|, b - |pg.inp|);
      AlikeBehind(g.inp, pg.inp, npg.inp, j, a, b);
    }
  }

  lemma AlikeInFront(rg: seq<int>, rp: seq<int>, rn: seq<int>, j: nat, a: nat, b: nat)
    requires JoinedRefs(rg, rp, rn, j) && a < b < |rp|
    requires forall k :: a <= k <= b && k % 2 == 0 ==> rp[k] == rp[a]
    ensures b < |rg| && forall k :: a <= k <= b && k % 2 == 0 ==> rg[k] == rg[a]
  {
  }

  lemma AlikeBehind(rg: seq<int>, rp: seq<int>, rn: seq<int>, j: nat, a: nat, b: nat)
    requires JoinedRefs(rg, rp, rn, j) && |rp| <= a < b < |rg| && |rp| % 2 == 0
    requires b - |rp| < |rn| && forall k :: a - |rp| <= k <= b - |rp| && k % 2 == 0 ==> rn[k] == rn[a - |rp|]
    ensures forall k :: a <= k <= b && k % 2 == 0 ==> rg[k] == rg[a]
  {
    forall k | a <= k <= b && k % 2 == 0
      ensures rg[k] == rg[a]
    {
      assert rn[k - |rp|] == rn[a - |rp|];
    }
  }

  lemma NeverAcross(pg: Image, npg: Image, g: Image, j: nat, a: nat, b: nat)
    requires JoinedRefs(g.inp, pg.inp, npg.inp, j) && a < b < |g.inp| && g.inp[a] == g.inp[b]
    ensures if b < |pg.inp| then pg.inp[a] == pg.inp[b]
            else a >= |pg.inp| && b - |pg.inp| < |npg.inp| && npg.inp[a - |pg.inp|] == npg.inp[b - |pg.inp|]
    ensures |g.inp| == |pg.inp| + j
  {
  }

  // ---- How many slots to move ----

  function Sub32(a: int, b: int): int {
    (a - b) % 0x1_0000_0000
  }

  lemma Sub32Is(a: int, b: int)
    requires a - b <= MAX_PGSIZE && b - a <= MAX_PGSIZE
    ensures Sub32(a, b) == if a < b then a - b + 0x1_0000_0000 else a - b
  {
  }

  function ItemPSize(item: Item): int {
    Size(item) + 2
  }

  /** The size of the record at `indx`, with all its duplicates, and its number of slots. */
  method SetSize(npg: Image, indx: nat) returns (size: nat, n: nat)
    requires npg.Valid() && DupSets(npg) && OnStride(npg.kind, |npg.inp|)
    requires Boundary(npg, indx) && indx < |npg.inp|
    ensures n > 0 && Boundary(npg, indx + n) && size == MoveCost(npg, indx + n) - MoveCost(npg, indx)
    ensures forall c :: indx < c < indx + n ==> !Boundary(npg, c)
  {
    hide Find, Depth, Total, Size, DupSets, MoveCost, Repeats, Onto, Boundary;
    CostOfSlots(npg, indx);
    size := ItemPSize(npg.Slot(indx));
    n := 1;
    if npg.kind == LBtree {
      size := size + ItemPSize(npg.Slot(indx + 1));
      size, n := SkipDuplicates(npg, indx, size);
    }
    SetEnd(npg, indx, n);
  }

  /** The rest of the duplicate set at `indx`: each further duplicate takes an index for its
    * key, and its data. */
  method SkipDuplicates(npg: Image, indx: nat, size0: nat) returns (size: nat, n: nat)
    requires npg.Valid() && npg.kind == LBtree && OnStride(npg.kind, |npg.inp|)
    requires indx % 2 == 0 && indx + 2 <= |npg.inp| && size0 == MoveCost(npg, indx + 2) - MoveCost(npg, indx)
    ensures n >= 2 && n % 2 == 0 && indx + n <= |npg.inp|
    ensures size == MoveCost(npg, indx + n) - MoveCost(npg, indx)
    ensures forall c :: indx < c < indx + n && c % 2 == 0 ==> npg.inp[c] == npg.inp[indx]
    ensures npg.inp[indx + n - 2] == npg.inp[indx]
    ensures indx + n < |npg.inp| ==> npg.inp[indx] != npg.inp[indx + n]
  {
    hide Find, Depth, Total, Size, MoveCost, Onto, Image.Valid;
    size, n := size0, 2;
    while indx + n < |npg.inp| && npg.inp[indx] == npg.inp[indx + n]
      invariant n >= 2 && n % 2 == 0 && indx + n <= |npg.inp|
      invariant forall c :: indx < c < indx + n && c % 2 == 0 ==> npg.inp[c] == npg.inp[indx]
      invariant npg.inp[indx + n - 2] == npg.inp[indx]
      invariant size == MoveCost(npg, indx + n) - MoveCost(npg, indx)
    {
      CostOfPair(npg, indx + n);
      size := size + 2;
      n := n + 1;
      size := size + ItemPSize(npg.Slot(indx + n));
      n := n + 1;
    }
  }

  lemma CostOfSlots(npg: Image, indx: nat)
    requires npg.Valid() && OnStride(npg.kind, |npg.inp|) && Boundary(npg, indx) && indx < |npg.inp|
    ensures OnStride(npg.kind, indx)
    ensures npg.kind == LBtree ==>
              && indx + 2 <= |npg.inp|
              && MoveCost(npg, indx + 2) == MoveCost(npg, indx) + ItemPSize(npg.Slot(indx)) + ItemPSize(npg.Slot(indx + 1))
    ensures npg.kind != LBtree ==> MoveCost(npg, indx + 1) == MoveCost(npg, indx) + ItemPSize(npg.Slot(indx))
  {
    hide Find, Depth, Total, Size, Onto;
    assert MoveCost(npg, indx + 1) == MoveCost(npg, indx) + 2 + Size(npg.Slot(indx));
  }

  /** A further duplicate takes an index for its key and room for its data. */
  lemma CostOfPair(npg: Image, at: nat)
    requires npg.Valid() && npg.kind == LBtree && OnStride(npg.kind, |npg.inp|)
    requires 2 <= at < |npg.inp| && at % 2 == 0 && npg.inp[at] == npg.inp[at - 2]
    ensures at + 2 <= |npg.inp| && npg.Ref(at + 1) >= 0
    ensures MoveCost(npg, at + 2) == MoveCost(npg, at) + 2 + ItemPSize(npg.Slot(at + 1))
  {
    hide Find, Depth, Total, Size, Onto;
    assert MoveCost(npg, at + 1) == MoveCost(npg, at) + 2;
  }

  lemma SetEnd(npg: Image, indx: nat, n: nat)
    requires Boundary(npg, indx) && indx + n <= |npg.inp| && OnStride(npg.kind, n) && n > 0
    requires npg.kind == LBtree && indx + n < |npg.inp| ==>
               npg.inp[indx] != npg.inp[indx + n] && npg.inp[indx + n - 2] == npg.inp[indx]
    requires npg.kind == LBtree ==> forall c :: indx < c < indx + n && c % 2 == 0 ==> npg.inp[c] == npg.inp[indx]
    requires npg.kind != LBtree ==> n == 1
    ensures Boundary(npg, indx + n)
    ensures forall c :: indx < c < indx + n ==> !Boundary(npg, c)
  {
    forall c | indx < c < indx + n
      ensures !Boundary(npg, c)
    {
      if npg.kind == LBtree && c % 2 == 0 {
        assert npg.inp[c - 2] == npg.inp[indx];
      }
    }
  }

  /** How far the room left is from the goal. */
  function Off(room: int, goal: int): int {
    if room < goal then goal - room else room - goal
  }

  /** The room left on the target when the slots before `c` have moved, if they fit. */
  ghost predicate Movable(free: int, npg: Image, c: nat)
    requires npg.Valid()
  {
    Boundary(npg, c) && MoveCost(npg, c) <= free
  }

  /** No number of whole records comes closer to the goal, and no smaller one as close. */
  ghost predicate Closest(free: int, factor: nat, npg: Image, indx: nat)
    requires npg.Valid() && indx <= |npg.inp|
  {
    forall c: nat | Movable(free, npg, c) ::
      && Off(free - MoveCost(npg, indx), factor) <= Off(free - MoveCost(npg, c), factor)
      && (c < indx ==> Off(free - MoveCost(npg, indx), factor) < Off(free - MoveCost(npg, c), factor))
  }

  /** The first record with its duplicates, or nothing if it does not fit. */
  ghost predicate FirstSet(free: int, npg: Image, indx: nat)
    requires npg.Valid()
  {
    && (forall c :: 0 < c < indx ==> !Boundary(npg, c))
    && (indx == 0 ==> forall c: nat | Movable(free, npg, c) :: c == 0)
  }

  /** The first loop of `__bam_merge_records`: as many whole records as bring the free space of
    * the page that is being filled closest to the goal of `factor` bytes, and never more than
    * fit.  A page that is past its goal from the start gets one more record nevertheless, as
    * the distance to the goal is computed without a sign. */
  method ChooseCount(free: int, factor: nat, npg: Image) returns (indx: nat)
    requires npg.Valid() && DupSets(npg) && OnStride(npg.kind, |npg.inp|)
    requires 0 <= free <= MAX_PGSIZE && factor <= MAX_PGSIZE
    ensures Boundary(npg, indx) && Movable(free, npg, indx)
    ensures if free < factor then FirstSet(free, npg, indx) else Closest(free, factor, npg, indx)
  {
    hide Find, Depth, Total, DupSets, MoveCost, Size, Onto, Boundary, Closest, FirstSet;
    indx := 0;
    CostOfNone(npg);
    var freespace := free;
    while indx < |npg.inp|
      invariant Boundary(npg, indx) && indx <= |npg.inp|
      invariant freespace == free - MoveCost(npg, indx) && freespace >= 0
      invariant indx > 0 ==> freespace >= factor
    {
      var size, n := SetSize(npg, indx);
      BoundaryInside(npg, indx + n);
      if freespace < size {
        StopsShort(free, factor, npg, indx, indx + n);
        return;
      }
      if freespace - size < factor {
        if Sub32(freespace, factor) > Sub32(factor, freespace - size) {
          GoesPast(free, factor, npg, indx, indx + n);
          indx := indx + n;
        } else {
          StaysAhead(free, factor, npg, indx, indx + n);
        }
        return;
      }
      freespace := freespace - size;
      indx := indx + n;
    }
    TakesAll(free, factor, npg, indx);
  }

  lemma CostOfNone(npg: Image)
    requires npg.Valid()
    ensures MoveCost(npg, 0) == 0 && Boundary(npg, 0)
  {
  }

  lemma BoundaryInside(npg: Image, c: nat)
    requires Boundary(npg, c)
    ensures c <= |npg.inp|
  {
  }

  lemma Costs(npg: Image, b: nat, e: nat, c: nat)
    requires npg.Valid() && b < e <= |npg.inp| && c <= |npg.inp| && (c <= b || c >= e)
    ensures c < b ==> MoveCost(npg, c) < MoveCost(npg, b)
    ensures c >= e ==> MoveCost(npg, e) <= MoveCost(npg, c)
    ensures MoveCost(npg, b) < MoveCost(npg, e)
  {
    hide MoveCost, Find, Depth, Total, Size, Onto;
    CostGrows(npg, b, e);
    if c < b {
      CostGrows(npg, c, b);
    } else if c >= e {
      CostGrows(npg, e, c);
    }
  }

  /** The next set does not fit. */
  lemma StopsShort(free: int, factor: nat, npg: Image, b: nat, e: nat)
    requires npg.Valid() && b < e && Boundary(npg, b) && Boundary(npg, e)
    requires forall c :: b < c < e ==> !Boundary(npg, c)
    requires MoveCost(npg, b) <= free < MoveCost(npg, e) && (b > 0 ==> free - MoveCost(npg, b) >= factor)
    ensures b <= |npg.inp| && if free < factor then FirstSet(free, npg, b) else Closest(free, factor, npg, b)
  {
    hide MoveCost, Find, Depth, Total, Size, Onto, Repeats;
    CostGrows(npg, 0, b);
    forall c: nat | Movable(free, npg, c)
      ensures c <= b && (c < b ==> MoveCost(npg, c) < MoveCost(npg, b))
    {
      Costs(npg, b, e, c);
    }
    CostOfNone(npg);
  }

  /** The next set would bring the page closer to its goal, or the page is past it already. */
  lemma GoesPast(free: int, factor: nat, npg: Image, b: nat, e: nat)
    requires npg.Valid() && b < e && Boundary(npg, b) && Boundary(npg, e)
    requires forall c :: b < c < e ==> !Boundary(npg, c)
    requires 0 <= free <= MAX_PGSIZE && factor <= MAX_PGSIZE
    requires MoveCost(npg, e) <= free && (b > 0 ==> free - MoveCost(npg, b) >= factor)
    requires free - MoveCost(npg, e) < factor
    requires Sub32(free - MoveCost(npg, b), factor) > Sub32(factor, free - MoveCost(npg, e))
    ensures e <= |npg.inp| && if free < factor then FirstSet(free, npg, e) else Closest(free, factor, npg, e)
  {
    hide MoveCost, Find, Depth, Total, Size, Onto, Repeats, Sub32, Image.Valid;
    CostGrows(npg, b, e);
    Sub32Is(free - MoveCost(npg, b), factor);
    Sub32Is(factor, free - MoveCost(npg, e));
    CostOfNone(npg);
    CostGrows(npg, 0, b);
    if free >= factor {
      forall c: nat | Movable(free, npg, c)
        ensures c <= b ==> MoveCost(npg, c) <= MoveCost(npg, b)
        ensures c > b ==> c >= e && MoveCost(npg, e) <= MoveCost(npg, c)
      {
        Costs(npg, b, e, c);
      }
    }
  }

  /** The page is close enough to its goal. */
  lemma StaysAhead(free: int, factor: nat, npg: Image, b: nat, e: nat)
    requires npg.Valid() && b < e && Boundary(npg, b) && Boundary(npg, e)
    requires forall c :: b < c < e ==> !Boundary(npg, c)
    requires 0 <= free <= MAX_PGSIZE && factor <= MAX_PGSIZE
    requires MoveCost(npg, e) <= free && (b > 0 ==> free - MoveCost(npg, b) >= factor)
    requires free - MoveCost(npg, e) < factor
    requires Sub32(free - MoveCost(npg, b), factor) <= Sub32(factor, free - MoveCost(npg, e))
    ensures free >= factor && b <= |npg.inp| && Closest(free, factor, npg, b)
  {
    hide MoveCost, Find, Depth, Total, Size, Onto, Repeats, Sub32, Image.Valid;
    CostGrows(npg, b, e);
    Sub32Is(free - MoveCost(npg, b), factor);
    Sub32Is(factor, free - MoveCost(npg, e));
    CostOfNone(npg);
    CostGrows(npg, 0, b);
    forall c: nat | Movable(free, npg, c)
      ensures c < b ==> MoveCost(npg, c) < MoveCost(npg, b)
      ensures c > b ==> c >= e && MoveCost(npg, e) <= MoveCost(npg, c)
    {
      Costs(npg, b, e, c);
    }
  }

  /** Everything fits without passing the goal. */
  lemma TakesAll(free: int, factor: nat, npg: Image, b: nat)
    requires npg.Valid() && b == |npg.inp| && MoveCost(npg, b) <= free
    requires b > 0 ==> free - MoveCost(npg, b) >= factor
    ensures if free < factor then FirstSet(free, npg, b) else Closest(free, factor, npg, b)
  {
    hide MoveCost, Find, Depth, Total, Size, Onto, Repeats;
    CostOfNone(npg);
    CostGrows(npg, 0, b);
    forall c: nat | Movable(free, npg, c)
      ensures c < b ==> MoveCost(npg, c) < MoveCost(npg, b)
    {
      CostGrows(npg, c, b);
    }
  }

  // ---- `__bam_merge` ----

  /** What all the slots of a page would take on another one is what they take on theirs. */
  lemma WholeCost(npg: Image)
    requires npg.Valid() && DupSets(npg)
    ensures MoveCost(npg, |npg.inp|) == npg.size - SIZEOF_PAGE - npg.FreeSpace()
  {
    hide Find, Depth, Total, DupSets, SumOf, RefSet, Onto;
    CostIsSum(npg, |npg.inp|);
    AllReferred(npg);
    SumOfAll(npg.heap, RefSet(npg, 0, |npg.inp|));
  }

  lemma {:induction false} CostIsSum(npg: Image, j: nat)
    requires npg.Valid() && DupSets(npg) && j <= |npg.inp|
    ensures MoveCost(npg, j) == 2 * j + SumOf(npg.heap, RefSet(npg, 0, j))
  {
    hide Find, Depth, Total, DupSets, SumOf, RefSet, Onto, Repeats;
    if j == 0 {
      EmptySum(npg.heap, RefSet(npg, 0, 0));
      NoRefs(npg);
    } else {
      CostIsSum(npg, j - 1);
      RefSetNext(npg, 0, j - 1);
      if Repeats(npg, 0, j - 1) {
        SameRef(npg, 0, j - 1);
      } else {
        NewRef(npg, 0, j - 1);
        SumGrows(npg.heap, RefSet(npg, 0, j - 1), Refs(npg)[j - 1]);
      }
    }
  }

  lemma NoRefs(npg: Image)
    ensures RefSet(npg, 0, 0) == {}
  {
  }

  lemma {:induction false} EmptySum(heap: seq<Item>, s: set<int>)
    ensures SumOf(heap, {}) == 0
  {
    if heap != [] {
      EmptySum(heap[..|heap| - 1], s);
    }
  }

  lemma AllReferred(npg: Image)
    requires npg.Valid()
    ensures forall j :: 0 <= j < |npg.heap| ==> j in RefSet(npg, 0, |npg.inp|)
  {
    hide Find, Depth, Total;
    forall j | 0 <= j < |npg.heap|
      ensures j in RefSet(npg, 0, |npg.inp|)
    {
      assert j in Refs(npg);
    }
  }

  lemma {:induction false} SumOfAll(heap: seq<Item>, s: set<int>)
    requires forall j :: 0 <= j < |heap| ==> j in s
    ensures SumOf(heap, s) == Total(heap)
  {
    if heap != [] {
      SumOfAll(heap[..|heap| - 1], s);
    }
  }

  /** A leading part of the records of one page has moved to the end of another. */
  ghost predicate PartMoved(pg: Image, npg: Image, pg': Image, npg': Image, k: nat)
    requires pg.Valid() && npg.Valid()
  {
    && pg'.Valid() && npg'.Valid() && DupSets(pg') && DupSets(npg')
    && Boundary(npg, k)
    && Slots(pg') == Slots(pg) + Slots(npg)[..k] && Slots(npg') == Slots(npg)[k..]
  }

  // ---- The key that would come to stand first ----

  /** What merging reads of the pages above: the place of the page below its parent, the number
    * of entries there, the length of the second key there, and the room for a key on the pages
    * up to the one where it is stored. */
  datatype Above = Above(indx: nat, entries: nat, nextLen: nat, room: int)

  predicate Keyed(kind: Kind) {
    kind == LBtree || kind == LDup
  }

  /** A page whose removal would change the key of its parent. */
  predicate Leftmost(kind: Kind, above: Above) {
    Keyed(kind) && above.indx == 0 && above.entries != 1
  }

  /** BINTERNAL_SIZE. */
  function EntrySize(len: nat): nat {
    Align4(len + 12)
  }

  lemma EntrySizeIs(pgno: nat, nrecs: int, key: seq<byte>)
    ensures EntrySize(|key|) == Size(Child(pgno, nrecs, key))
  {
  }

  /** The whole page may go: no key has to move up, or there is room for it. */
  predicate EndFits(above: Above) {
    above.indx != 0 || above.entries == 1 || EntrySize(above.nextLen) + 2 <= above.room
  }

  function KeyLen(item: Item): nat {
    match item
    case KeyData(_, data) => |data|
    case _ => 0
  }

  /** The pages above have room for the key at `i`, whole or, if keys are truncated, for as much
    * as separates it from the one before. */
  predicate KeyFits(npg: Image, i: nat, room: int, pfx: bool)
    requires npg.Valid() && i < |npg.inp|
  {
    || i == 0
    || EntrySize(KeyLen(npg.Slot(i))) < room
    || (pfx && i >= Stride(npg.kind) && npg.Slot(i).KeyData? && npg.Slot(i - Stride(npg.kind)).KeyData?
        && EntrySize(SeparatorLength(npg.Slot(i - Stride(npg.kind)).data, npg.Slot(i).data)) + 2 < room)
  }

  /** The last place between records, up to `start`, whose key fits. */
  ghost predicate LastFitting(npg: Image, start: nat, room: int, pfx: bool, k: nat)
    requires npg.Valid() && start < |npg.inp|
  {
    && Boundary(npg, k) && k <= start && KeyFits(npg, k, room, pfx)
    && forall j: nat | k < j <= start && Boundary(npg, j) :: !KeyFits(npg, j, room, pfx)
  }

  /** The beginning of the duplicate set at `i`. */
  method SetStart(npg: Image, i: nat) returns (indx: nat)
    requires npg.Valid() && i < |npg.inp| && OnStride(npg.kind, i)
    ensures Boundary(npg, indx) && indx <= i && forall j :: indx < j <= i ==> !Boundary(npg, j)
    ensures npg.inp[indx] == npg.inp[i]
  {
    hide Image.Valid;
    indx := i;
    while indx != 0 && npg.kind == LBtree && npg.inp[indx] == npg.inp[indx - P_INDX]
      invariant indx <= i && OnStride(npg.kind, indx) && npg.inp[indx] == npg.inp[i]
      invariant forall j :: indx < j <= i ==> !Boundary(npg, j)
    {
      indx := indx - P_INDX;
    }
  }

  lemma SameKey(npg: Image, i: nat, j: nat)
    requires npg.Valid() && i < |npg.inp| && j < |npg.inp| && npg.inp[i] == npg.inp[j]
    ensures npg.Slot(i) == npg.Slot(j)
  {
  }

  /** The search of `__bam_merge_records` for a key that the pages above can take. */
  method FittingPlace(npg: Image, start: nat, room: int, pfx: bool) returns (indx: nat)
    requires npg.Valid() && DupSets(npg) && start < |npg.inp| && OnStride(npg.kind, start)
    ensures LastFitting(npg, start, room, pfx, indx)
  {
    hide Find, Depth, Total, Onto, DupSets, Boundary, SeparatorLength;
    indx := SetStart(npg, start);
    while indx != 0 && EntrySize(KeyLen(npg.Slot(indx))) >= room
      invariant Boundary(npg, indx) && indx <= start
      invariant forall j: nat | indx < j <= start && Boundary(npg, j) :: !KeyFits(npg, j, room, pfx)
    {
      BoundaryStride(npg, indx);
      var before := indx - Stride(npg.kind);
      if pfx && npg.Slot(indx).KeyData? && npg.Slot(before).KeyData? {
        var nksize := DefPfx(npg.Slot(before).data, npg.Slot(indx).data);
        if EntrySize(nksize) + 2 < room {
          return;
        }
      }
      ghost var was := indx;
      indx := SetStart(npg, before);
      NoneBetween(npg, before, was);
    }
  }

  lemma BoundaryStride(npg: Image, indx: nat)
    requires Boundary(npg, indx) && indx < |npg.inp|
    ensures OnStride(npg.kind, indx) && (indx != 0 ==> indx >= Stride(npg.kind) && OnStride(npg.kind, indx - Stride(npg.kind)))
  {
  }

  lemma NoneBetween(npg: Image, before: nat, indx: nat)
    requires before + Stride(npg.kind) == indx && OnStride(npg.kind, indx)
    ensures forall j :: before < j < indx ==> !Boundary(npg, j)
  {
  }

  /** `__bam_merge_records`: `c` is the number of slots that brings the page being filled closest
    * to its goal.  Fewer go if the pages above have no room for the key that would then stand
    * first. */
  method MergeRecords(pg: Page, npg: Page, factor: nat, above: Above, pfx: bool)
    returns (emptied: bool, ghost k: nat, ghost c: nat)
    requires pg != npg && pg.Img().Valid() && npg.Img().Valid() && DupSets(pg.Img()) && DupSets(npg.Img())
    requires pg.size == npg.size <= MAX_PGSIZE && factor <= MAX_PGSIZE
    requires pg.kind == npg.kind && OnStride(pg.kind, |pg.inp|) && OnStride(npg.kind, |npg.inp|)
    requires npg.inp != []
    modifies pg, npg
    ensures PartMoved(old(pg.Img()), old(npg.Img()), pg.Img(), npg.Img(), k)
    ensures emptied <==> k == |old(npg.inp)|
    ensures Wanted(old(pg.Img()), old(npg.Img()), factor, c)
    ensures GoUpTo(old(npg.Img()), above, pfx, c, k)
  {
    hide Find, Depth, Total, Size, DupSets, Filled, Drained, MoveCost, Onto, Slots, Boundary, FirstSet, Closest, Merged, Emptied, KeyFits, LastFitting, Wanted;
    ghost var p0, n0 := pg.Img(), npg.Img();
    FreeRange(p0);
    var indx := ChooseCount(pg.Img().FreeSpace(), factor, npg.Img());
    c := indx;
    BoundaryInside(n0, indx);
    WantedIs(p0, n0, factor, c);
    if indx == |npg.inp|
       && ((npg.kind != LBtree && npg.kind != LDup) || above.indx != 0 || above.entries == 1
           || EntrySize(above.nextLen) + 2 <= above.room) {
      WholeCost(n0);
      MergeConserves(p0, n0);
      MergePages(pg, npg);
      AllMoved(p0, n0);
      return true, indx, c;
    }
    if indx != 0 && (npg.kind == LBtree || npg.kind == LDup) {
      indx := KeyedPlace(npg.Img(), indx, above.room, pfx);
      CostGrows(n0, indx, c);
    }
    k := indx;
    if indx == 0 {
      NoneMoved(p0, n0);
      return false, 0, c;
    }
    MoveRecords(pg, npg, indx);
    SomeMoved(p0, n0, pg.Img(), npg.Img(), indx);
    return false, indx, c;
  }

  /** How many records the goal asks for. */
  ghost predicate Wanted(pg: Image, npg: Image, factor: nat, c: nat)
    requires pg.Valid() && npg.Valid()
  {
    && Movable(pg.FreeSpace(), npg, c) && c <= |npg.inp|
    && if pg.FreeSpace() < factor then FirstSet(pg.FreeSpace(), npg, c) else Closest(pg.FreeSpace(), factor, npg, c)
  }

  lemma WantedIs(pg: Image, npg: Image, factor: nat, c: nat)
    requires pg.Valid() && npg.Valid() && Movable(pg.FreeSpace(), npg, c) && c <= |npg.inp|
    requires if pg.FreeSpace() < factor then FirstSet(pg.FreeSpace(), npg, c) else Closest(pg.FreeSpace(), factor, npg, c)
    ensures Wanted(pg, npg, factor, c)
  {
    hide FirstSet, Closest, Movable, Image.Valid;
  }

  /** All that is wanted goes if no key has to be stored or there is room for it; else as much as
    * leaves a key that fits. */
  ghost predicate GoUpTo(npg: Image, above: Above, pfx: bool, c: nat, k: nat)
    requires npg.Valid()
  {
    if c == 0 || !Keyed(npg.kind) || (c == |npg.inp| && EndFits(above)) then k == c
    else
      var start: int := if c == |npg.inp| then c - Stride(npg.kind) else c;
      0 <= start < |npg.inp| && LastFitting(npg, start, above.room, pfx, k)
  }

  method KeyedPlace(npg: Image, c: nat, room: int, pfx: bool) returns (indx: nat)
    requires npg.Valid() && DupSets(npg) && OnStride(npg.kind, |npg.inp|) && Boundary(npg, c) && 0 < c <= |npg.inp|
    ensures var start := if c == |npg.inp| then c - Stride(npg.kind) else c;
            0 <= start < |npg.inp| && LastFitting(npg, start, room, pfx, indx)
    ensures Boundary(npg, indx) && indx < |npg.inp| && indx <= c
  {
    hide Find, Depth, Total, Onto, DupSets, Image.Valid, KeyFits;
    indx := FittingPlace(npg, if c == |npg.inp| then c - Stride(npg.kind) else c, room, pfx);
  }

  lemma FreeRange(g: Image)
    requires g.Valid()
    ensures 0 <= g.FreeSpace() <= g.size
  {
    hide Find, Depth, Onto;
  }

  lemma AllMoved(pg: Image, npg: Image)
    requires pg.Valid() && npg.Valid() && Boundary(npg, |npg.inp|)
    requires var m := Merged(pg, npg); m.Valid() && Slots(m) == Slots(pg) + Slots(npg) && DupSets(m)
    requires Emptied(npg).Valid() && Slots(Emptied(npg)) == []
    ensures PartMoved(pg, npg, Merged(pg, npg), Emptied(npg), |npg.inp|)
  {
    hide Find, Depth, Total, Onto, Merged, Slots, Boundary, Image.Valid;
    assert Slots(npg)[..|npg.inp|] == Slots(npg) && Slots(npg)[|npg.inp|..] == [];
    NoneShared(Emptied(npg));
  }

  lemma NoneShared(g: Image)
    requires g.inp == []
    ensures DupSets(g)
  {
  }

  lemma NoneMoved(pg: Image, npg: Image)
    requires pg.Valid() && npg.Valid() && DupSets(pg) && DupSets(npg) && Boundary(npg, 0)
    ensures PartMoved(pg, npg, pg, npg, 0)
  {
    hide Find, Depth, Total, Onto, Slots, Boundary, DupSets, Image.Valid;
    assert Slots(pg) + Slots(npg)[..0] == Slots(pg) && Slots(npg)[0..] == Slots(npg);
  }

  lemma SomeMoved(pg: Image, npg: Image, pg': Image, npg': Image, k: nat)
    requires pg.Valid() && npg.Valid() && Boundary(npg, k) && k <= |npg.inp|
    requires Filled(pg, npg, pg', k) && DupSets(pg') && Drained(npg, npg', k) && DupSets(npg')
    ensures PartMoved(pg, npg, pg', npg', k)
  {
    hide Find, Depth, Total, Onto, Slots, Boundary, DupSets, Image.Valid, JoinedRefs, SameRefs, MoveCost;
  }

  /** A page is not appended as a whole if that would leave less than `factor` bytes free, or
    * if it is the leftmost one below a parent with other pages. */
  predicate Singly(pg: Image, npg: Image, factor: nat, above: Above) {
    && npg.inp != []
    && (Leftmost(npg.kind, above) || pg.FreeSpace() - (npg.size - SIZEOF_PAGE - npg.FreeSpace()) < factor)
  }

  /** `__bam_merge`: a page is appended as a whole or record by record.  Either way the records
    * of the two pages stay what they were, in order. */
  method Merge(pg: Page, npg: Page, factor: nat, above: Above, pfx: bool)
    returns (emptied: bool, ghost k: nat, ghost c: nat)
    requires pg != npg && pg.Img().Valid() && npg.Img().Valid() && DupSets(pg.Img()) && DupSets(npg.Img())
    requires pg.size == npg.size <= MAX_PGSIZE && factor <= MAX_PGSIZE
    requires pg.kind == npg.kind && OnStride(pg.kind, |pg.inp|) && OnStride(npg.kind, |npg.inp|)
    modifies pg, npg
    ensures PartMoved(old(pg.Img()), old(npg.Img()), pg.Img(), npg.Img(), k)
    ensures emptied <==> k == |old(npg.inp)|
    ensures Slots(pg.Img()) + Slots(npg.Img()) == old(Slots(pg.Img())) + old(Slots(npg.Img()))
    ensures !old(Singly(pg.Img(), npg.Img(), factor, above)) ==> k == |old(npg.inp)|
    ensures old(Singly(pg.Img(), npg.Img(), factor, above)) ==>
              Wanted(old(pg.Img()), old(npg.Img()), factor, c) && GoUpTo(old(npg.Img()), above, pfx, c, k)
  {
    hide Find, Depth, Total, Size, DupSets, MoveCost, Onto, Slots, Boundary, Merged, Emptied, Wanted, GoUpTo;
    ghost var p0, n0 := pg.Img(), npg.Img();
    if npg.inp != []
       && (((npg.kind == LBtree || npg.kind == LDup) && above.indx == 0 && above.entries != 1)
           || pg.Img().FreeSpace() - (npg.size - SIZEOF_PAGE - npg.Img().FreeSpace()) < factor) {
      emptied, k, c := MergeRecords(pg, npg, factor, above, pfx);
    } else {
      if npg.inp == [] {
        EmptyTakesNothing(p0, n0);
      }
      MergeConserves(p0, n0);
      MergePages(pg, npg);
      WholeBoundary(n0);
      AllMoved(p0, n0);
      emptied, k, c := true, |n0.inp|, 0;
    }
    PartsJoin(p0, n0, pg.Img(), npg.Img(), k);
  }

  lemma EmptyTakesNothing(pg: Image, npg: Image)
    requires pg.Valid() && npg.Valid() && npg.inp == []
    ensures npg.size - SIZEOF_PAGE - npg.FreeSpace() <= pg.FreeSpace()
  {
    NoSlots(npg);
    FreeRange(pg);
  }

  lemma WholeBoundary(npg: Image)
    requires OnStride(npg.kind, |npg.inp|)
    ensures Boundary(npg, |npg.inp|)
  {
  }

  lemma PartsJoin(pg: Image, npg: Image, pg': Image, npg': Image, k: nat)
    requires pg.Valid() && npg.Valid() && PartMoved(pg, npg, pg', npg', k)
    ensures Slots(pg') + Slots(npg') == Slots(pg) + Slots(npg)
  {
    hide Find, Depth, Total, Onto, DupSets, Image.Valid, Slots, Boundary;
    BoundaryInside(npg, k);
    TakenApart(Slots(pg), Slots(npg), k);
  }

  lemma TakenApart(a: seq<Item>, b: seq<Item>, k: nat)
    requires k <= |b|
    ensures a + b[..k] + b[k..] == a + b
  {
  }
}
