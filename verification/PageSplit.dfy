/** Splitting the contents of a page: `__bam_copy` and `__bam_psplit`. */
module PageSplit {
  import opened Bytes
  import opened SlottedPage
  import opened PageOps

  /** The distance between places at which a page can be split. */
  function Stride(kind: Kind): nat {
    if kind == LBtree then P_INDX else O_INDX
  }

  /** The first key of a right-hand internal page is never used and is not copied. */
  function CopiedItem(kind: Kind, item: Item, first: bool): (r: Item)
    ensures Size(r) <= Size(item)
    ensures kind != IBtree || !first ==> r == item
    ensures item.Child? || item.BigChild? ==> (r.Child? || r.BigChild?) && r.pgno == item.pgno && r.nrecs == item.nrecs
  {
    if kind == IBtree && first then
      match item
      case Child(pgno, nrecs, _) => Child(pgno, nrecs, [])
      case BigChild(pgno, nrecs, _, _) => Child(pgno, nrecs, [])
      case _ => item
    else item
  }

  /** The slots `nxt` to `nxt + k` of `pp`, as copied. */
  ghost function CopiedSlots(pp: Image, nxt: nat, k: nat): (s: seq<Item>)
    requires pp.Valid() && nxt + k <= |pp.inp|
    ensures |s| == k
    ensures forall i :: 0 <= i < k ==> s[i] == CopiedItem(pp.kind, pp.Slot(nxt + i), i == 0 && nxt != 0)
  {
    seq(k, i requires 0 <= i < k => CopiedItem(pp.kind, pp.Slot(nxt + i), i == 0 && nxt != 0))
  }

  /** Whether slot `off` of the copy only repeats the offset of the key before it. */
  predicate Repeats(pp: Image, nxt: nat, off: nat)
    requires nxt + off < |pp.inp|
  {
    pp.kind == LBtree && off != 0 && (nxt + off) % 2 == 0 && nxt + off >= 2
    && pp.inp[nxt + off] == pp.inp[nxt + off - P_INDX]
  }

  /** `__bam_copy` onto an empty page, `k` slots. */
  ghost function Copied(pp: Image, cp: Image, nxt: nat, k: nat): (c: Image)
    requires pp.Valid() && nxt + k <= |pp.inp| && (pp.kind == LBtree ==> nxt % 2 == 0)
    requires cp.inp == []
    ensures |c.inp| == k
  {
    if k == 0 then cp
    else
      var c, off := Copied(pp, cp, nxt, k - 1), k - 1;
      if Repeats(pp, nxt, off) then Adjusted(c, off, off - P_INDX, true)
      else Put(c, off, CopiedItem(pp.kind, pp.Slot(nxt + off), off == 0 && nxt != 0))
  }

  // ---- Space: the items of some slots are among those of the page ----

  function SumOf(heap: seq<Item>, s: set<int>): nat {
    if heap == [] then 0
    else
      var n := |heap| - 1;
      SumOf(heap[..n], s) + if n in s then Size(heap[n]) else 0
  }

  lemma {:induction false} SumGrows(heap: seq<Item>, s: set<int>, j: int)
    requires 0 <= j < |heap| && j !in s
    ensures SumOf(heap, s + {j}) == SumOf(heap, s) + Size(heap[j])
  {
    var n := |heap| - 1;
    if j == n {
      SumIgnores(heap[..n], s, j);
    } else {
      SumGrows(heap[..n], s, j);
    }
  }

  lemma {:induction false} SumIgnores(heap: seq<Item>, s: set<int>, j: int)
    requires j >= |heap|
    ensures SumOf(heap, s + {j}) == SumOf(heap, s)
  {
    if heap != [] {
      SumIgnores(heap[..|heap| - 1], s, j);
    }
  }

  lemma {:induction false} SumWithin(heap: seq<Item>, s: set<int>)
    ensures SumOf(heap, s) <= Total(heap)
  {
    if heap != [] {
      SumWithin(heap[..|heap| - 1], s);
    }
  }

  ghost function RefSet(pp: Image, nxt: nat, k: nat): set<int>
    requires nxt + k <= |pp.inp|
  {
    set i | nxt <= i < nxt + k :: Refs(pp)[i]
  }

  // ---- The copy holds what was copied ----

  /** A key that does not repeat the one before it was not copied yet. */
  lemma NewOffset(pp: Image, nxt: nat, off: nat, i: nat)
    requires DupSets(pp) && nxt + off < |pp.inp| && (pp.kind == LBtree ==> nxt % 2 == 0)
    requires !Repeats(pp, nxt, off) && nxt <= i < nxt + off
    ensures pp.inp[i] != pp.inp[nxt + off]
  {
    var at := nxt + off;
    assert pp.inp[i] == pp.inp[at] ==> i % 2 == 0 && at % 2 == 0;
    assert pp.inp[i] == pp.inp[at] && i < at - 2 ==> pp.inp[at - 2] == pp.inp[i];
  }

  lemma NewRef(pp: Image, nxt: nat, off: nat)
    requires pp.Valid() && DupSets(pp) && nxt + off < |pp.inp| && (pp.kind == LBtree ==> nxt % 2 == 0)
    requires !Repeats(pp, nxt, off)
    ensures forall i :: nxt <= i < nxt + off ==> Refs(pp)[i] != Refs(pp)[nxt + off]
    ensures Refs(pp)[nxt + off] !in RefSet(pp, nxt, off)
  {
    hide Find, Depth, Total, DupSets;
    RefsOf(pp);
    forall i | nxt <= i < nxt + off
      ensures Refs(pp)[i] != Refs(pp)[nxt + off]
    {
      NewOffset(pp, nxt, off, i);
      OffsetsDecide(pp.inp, pp.size, pp.heap, Refs(pp), i, nxt + off);
    }
  }

  lemma RefSetNext(pp: Image, nxt: nat, off: nat)
    requires nxt + off < |pp.inp|
    ensures RefSet(pp, nxt, off + 1) == RefSet(pp, nxt, off) + {Refs(pp)[nxt + off]}
  {
  }

  /** Two slots of the copy share their item when they did on the page. */
  ghost predicate SameRefs(rc: seq<int>, rp: seq<int>, nxt: nat) {
    && nxt + |rc| <= |rp|
    && forall i, j :: 0 <= i < |rc| && 0 <= j < |rc| ==> (rc[i] == rc[j] <==> rp[nxt + i] == rp[nxt + j])
  }

  lemma SameRefsNew(rc: seq<int>, rp: seq<int>, nxt: nat, x: int)
    requires SameRefs(rc, rp, nxt) && nxt + |rc| < |rp|
    requires forall i :: 0 <= i < |rc| ==> rc[i] != x
    requires forall i :: nxt <= i < nxt + |rc| ==> rp[i] != rp[nxt + |rc|]
    ensures SameRefs(Insert(rc, |rc|, x), rp, nxt)
  {
  }

  lemma SameRefsRepeat(rc: seq<int>, rp: seq<int>, nxt: nat)
    requires SameRefs(rc, rp, nxt) && nxt + |rc| < |rp| && |rc| >= 2
    requires rp[nxt + |rc| - 2] == rp[nxt + |rc|]
    ensures SameRefs(Insert(rc, |rc|, rc[|rc| - 2]), rp, nxt)
  {
    var r, n := Insert(rc, |rc|, rc[|rc| - 2]), |rc|;
    forall i | 0 <= i < n
      ensures r[i] == r[n] <==> rp[nxt + i] == rp[nxt + n]
    {
      assert rc[i] == rc[n - 2] <==> rp[nxt + i] == rp[nxt + n - 2];
    }
  }

  ghost predicate CopyState(pp: Image, c: Image, nxt: nat, k: nat)
    requires pp.Valid() && nxt + k <= |pp.inp|
  {
    && c.Valid() && |c.inp| == k
    && c.size == pp.size && c.kind == pp.kind
    && Slots(c) == CopiedSlots(pp, nxt, k)
    && Total(c.heap) <= SumOf(pp.heap, RefSet(pp, nxt, k))
    && SameRefs(Refs(c), Refs(pp), nxt)
  }

  /** The room on the copy is at least the room on the page. */
  lemma CopyFits(pp: Image, c: Image, nxt: nat, k: nat)
    requires pp.Valid() && nxt + k < |pp.inp| && CopyState(pp, c, nxt, k)
    requires Refs(pp)[nxt + k] !in RefSet(pp, nxt, k)
    ensures Size(pp.Slot(nxt + k)) + 2 <= c.FreeSpace()
    ensures Total(c.heap) + Size(pp.Slot(nxt + k)) <= SumOf(pp.heap, RefSet(pp, nxt, k) + {Refs(pp)[nxt + k]})
  {
    hide SameRefs, Size, Find;
    SumGrows(pp.heap, RefSet(pp, nxt, k), Refs(pp)[nxt + k]);
    SumWithin(pp.heap, RefSet(pp, nxt, k) + {Refs(pp)[nxt + k]});
  }

  lemma CopiedSlotsNext(pp: Image, nxt: nat, k: nat)
    requires pp.Valid() && nxt + k < |pp.inp|
    ensures CopiedSlots(pp, nxt, k + 1)
         == Insert(CopiedSlots(pp, nxt, k), k, CopiedItem(pp.kind, pp.Slot(nxt + k), k == 0 && nxt != 0))
  {
    hide CopiedItem, Find, Depth, Total;
  }

  lemma CopyNew(pp: Image, c: Image, nxt: nat, k: nat)
    requires pp.Valid() && DupSets(pp) && nxt + k < |pp.inp| && (pp.kind == LBtree ==> nxt % 2 == 0)
    requires CopyState(pp, c, nxt, k) && !Repeats(pp, nxt, k)
    ensures CopyState(pp, Put(c, k, CopiedItem(pp.kind, pp.Slot(nxt + k), k == 0 && nxt != 0)), nxt, k + 1)
  {
    hide Size, Find, Depth, Total, DupSets, Repeats, SumOf, RefSet, CopiedItem, SameRefs, Slots, Onto, CopiedSlots;
    var item := CopiedItem(pp.kind, pp.Slot(nxt + k), k == 0 && nxt != 0);
    RefsOf(c);
    NewRef(pp, nxt, k);
    RefSetNext(pp, nxt, k);
    CopyFits(pp, c, nxt, k);
    PutSlots(c, k, item);
    SameRefsNew(Refs(c), Refs(pp), nxt, |c.heap|);
    DepthAppended(c.heap, item, |c.heap|);
    CopiedSlotsNext(pp, nxt, k);
  }

  lemma CopyRepeat(pp: Image, c: Image, nxt: nat, k: nat)
    requires pp.Valid() && nxt + k < |pp.inp| && (pp.kind == LBtree ==> nxt % 2 == 0)
    requires CopyState(pp, c, nxt, k) && Repeats(pp, nxt, k)
    ensures CopyState(pp, Adjusted(c, k, k - P_INDX, true), nxt, k + 1)
  {
    hide Size, Find, Depth, Total, SumOf, RefSet, SameRefs, Slots, Onto, CopiedSlots;
    SameRef(pp, nxt, k);
    RefSetNext(pp, nxt, k);
    SumWithin(pp.heap, RefSet(pp, nxt, k));
    AdjustedSlots(c, k, k - P_INDX);
    SameRefsRepeat(Refs(c), Refs(pp), nxt);
    CopiedSlotsNext(pp, nxt, k);
    assert Slots(c)[k - 2] == CopiedSlots(pp, nxt, k)[k - 2] == pp.Slot(nxt + k);
  }

  lemma SameRef(pp: Image, nxt: nat, k: nat)
    requires pp.Valid() && nxt + k < |pp.inp| && (pp.kind == LBtree ==> nxt % 2 == 0)
    requires Repeats(pp, nxt, k)
    ensures k >= 2 && Refs(pp)[nxt + k - 2] == Refs(pp)[nxt + k]
    ensures RefSet(pp, nxt, k) + {Refs(pp)[nxt + k]} == RefSet(pp, nxt, k)
  {
    hide Find, Depth, Total;
    RefsOf(pp);
    OffsetsDecide(pp.inp, pp.size, pp.heap, Refs(pp), nxt + k, nxt + k - 2);
    assert Refs(pp)[nxt + k - 2] in RefSet(pp, nxt, k);
  }

  lemma CopyNone(pp: Image, cp: Image, nxt: nat)
    requires pp.Valid() && nxt <= |pp.inp|
    requires cp == Fresh(pp.size, cp.lsn, cp.pgno, cp.prev, cp.next, cp.level, pp.kind)
    ensures CopyState(pp, cp, nxt, 0)
  {
    OntoNothing(0);
    assert Slots(cp) == CopiedSlots(pp, nxt, 0);
  }

  lemma {:induction false} CopiedStates(pp: Image, cp: Image, nxt: nat, k: nat)
    requires pp.Valid() && DupSets(pp) && nxt + k <= |pp.inp| && (pp.kind == LBtree ==> nxt % 2 == 0)
    requires cp == Fresh(pp.size, cp.lsn, cp.pgno, cp.prev, cp.next, cp.level, pp.kind)
    ensures CopyState(pp, Copied(pp, cp, nxt, k), nxt, k)
  {
    hide CopyState, DupSets, Repeats, Put, Adjusted, CopiedItem, Find, Depth, Total, Onto, Refs, Image.Valid;
    if k == 0 {
      CopyNone(pp, cp, nxt);
    } else {
      CopiedStates(pp, cp, nxt, k - 1);
      var c := Copied(pp, cp, nxt, k - 1);
      if Repeats(pp, nxt, k - 1) {
        CopyRepeat(pp, c, nxt, k - 1);
      } else {
        CopyNew(pp, c, nxt, k - 1);
      }
    }
  }

  lemma {:induction false} CopiedFrame(pp: Image, cp: Image, nxt: nat, k: nat)
    requires pp.Valid() && nxt + k <= |pp.inp| && (pp.kind == LBtree ==> nxt % 2 == 0) && cp.inp == []
    ensures var c := Copied(pp, cp, nxt, k);
            c == cp.(inp := c.inp, hoffset := c.hoffset, heap := c.heap)
  {
    hide Repeats, CopiedItem, Find, Depth, Total, Onto, Refs, Size, Image.Valid;
    if k > 0 {
      CopiedFrame(pp, cp, nxt, k - 1);
    }
  }

  /** A copied run of slots is a valid page that holds what the slots held, in order, and in
    * which the same key slots share their item. */
  lemma CopyConserves(pp: Image, cp: Image, nxt: nat, k: nat)
    requires pp.Valid() && DupSets(pp) && nxt + k <= |pp.inp| && (pp.kind == LBtree ==> nxt % 2 == 0)
    requires cp == Fresh(pp.size, cp.lsn, cp.pgno, cp.prev, cp.next, cp.level, pp.kind)
    ensures var c := Copied(pp, cp, nxt, k);
            && c.Valid() && DupSets(c)
            && Slots(c) == CopiedSlots(pp, nxt, k)
            && c == cp.(inp := c.inp, hoffset := c.hoffset, heap := c.heap)
            && forall i, j :: 0 <= i < k && 0 <= j < k ==> (c.inp[i] == c.inp[j] <==> pp.inp[nxt + i] == pp.inp[nxt + j])
  {
    hide Find, Depth, Total, SumOf, RefSet, SameRefs, Copied, DupSets, Slots, CopiedSlots, Onto;
    CopiedStates(pp, cp, nxt, k);
    CopiedFrame(pp, cp, nxt, k);
    SameOffsets(pp, Copied(pp, cp, nxt, k), nxt, k);
    SameSharing(pp, Copied(pp, cp, nxt, k), nxt, k);
  }

  lemma SameOffsets(pp: Image, c: Image, nxt: nat, k: nat)
    requires pp.Valid() && c.Valid() && nxt + k <= |pp.inp| && |c.inp| == k
    requires SameRefs(Refs(c), Refs(pp), nxt)
    ensures forall i, j :: 0 <= i < k && 0 <= j < k ==> (c.inp[i] == c.inp[j] <==> pp.inp[nxt + i] == pp.inp[nxt + j])
  {
    hide Find, Depth, Total, Onto;
    RefsOf(c);
    RefsOf(pp);
    forall i, j | 0 <= i < k && 0 <= j < k
      ensures c.inp[i] == c.inp[j] <==> pp.inp[nxt + i] == pp.inp[nxt + j]
    {
      OffsetsDecide(c.inp, c.size, c.heap, Refs(c), i, j);
      OffsetsDecide(pp.inp, pp.size, pp.heap, Refs(pp), nxt + i, nxt + j);
    }
  }

  lemma SameSharing(pp: Image, c: Image, nxt: nat, k: nat)
    requires DupSets(pp) && nxt + k <= |pp.inp| && |c.inp| == k && c.kind == pp.kind
    requires pp.kind == LBtree ==> nxt % 2 == 0
    requires forall i, j :: 0 <= i < k && 0 <= j < k ==> (c.inp[i] == c.inp[j] <==> pp.inp[nxt + i] == pp.inp[nxt + j])
    ensures DupSets(c)
  {
    forall i, j | 0 <= i < j < k && c.inp[i] == c.inp[j]
      ensures c.kind == LBtree && i % 2 == 0 && j % 2 == 0
      ensures forall m :: i <= m <= j && m % 2 == 0 ==> c.inp[m] == c.inp[i]
    {
      assert pp.inp[nxt + i] == pp.inp[nxt + j];
      forall m | i <= m <= j && m % 2 == 0
        ensures c.inp[m] == c.inp[i]
      {
        assert pp.inp[nxt + m] == pp.inp[nxt + i];
      }
    }
  }

  /** One round of the copy loop. */
  method CopySlot(pp: Page, cp: Page, nxt: nat, off: nat)
    requires pp != cp && pp.Img().Valid() && nxt + off < |pp.inp| && (pp.kind == LBtree ==> nxt % 2 == 0)
    requires off == |cp.inp|
    modifies cp`inp, cp`hoffset, cp`heap
    ensures cp.Img() == if Repeats(pp.Img(), nxt, off) then Adjusted(old(cp.Img()), off, off - P_INDX, true)
                        else Put(old(cp.Img()), off,
                                 CopiedItem(pp.kind, pp.Img().Slot(nxt + off), off == 0 && nxt != 0))
  {
    hide Find, Total, Depth, Size, CopiedItem;
    assert cp.inp[..off] == cp.inp && cp.inp[off..] == [];
    if Repeats(pp.Img(), nxt, off) {
      cp.inp := cp.inp + [cp.inp[off - P_INDX]];
    } else {
      var item := CopiedItem(pp.kind, pp.Img().Slot(nxt + off), off == 0 && nxt != 0);
      cp.hoffset := cp.hoffset - Size(item);
      cp.inp := cp.inp + [cp.hoffset];
      cp.heap := cp.heap + [item];
    }
  }

  /** `__bam_copy`. */
  method Copy(pp: Page, cp: Page, nxt: nat, stop: nat)
    requires pp != cp && pp.Img().Valid() && nxt <= stop <= |pp.inp| && (pp.kind == LBtree ==> nxt % 2 == 0)
    requires cp.inp == []
    modifies cp`inp, cp`hoffset, cp`heap
    ensures cp.Img() == Copied(pp.Img(), old(cp.Img()), nxt, stop - nxt)
  {
    hide Find, Total, Depth, Size, CopiedItem, Put, Adjusted, Repeats;
    var at, off := nxt, 0;
    while at < stop
      invariant nxt <= at <= stop && off == at - nxt
      invariant cp.Img() == Copied(pp.Img(), old(cp.Img()), nxt, off)
    {
      CopySlot(pp, cp, nxt, off);
      at, off := at + 1, off + 1;
    }
  }

  // ---- `__bam_psplit` ----

  /** Key slots of leaf pages that are not overflow references; B_TYPE(type) == B_KEYDATA. */
  predicate Plain(item: Item) {
    item.KeyData? || item.Child?
  }

  /** Leaf pages of a btree hold keys and data in pairs. */
  predicate OnStride(kind: Kind, i: int) {
    kind == LBtree ==> i % 2 == 0
  }

  /** A place at which a page may be divided. */
  ghost predicate SplitPoint(g: Image, split: nat) {
    && 0 < split < |g.inp| && OnStride(g.kind, split)
    && (g.kind == LBtree ==> g.inp[split] != g.inp[split - P_INDX])
  }

  predicate Aligned(g: Image, i: int) {
    Stride(g.kind) <= i <= |g.inp| - Stride(g.kind) && OnStride(g.kind, i)
  }

  /** At least two records, keys and data in pairs. */
  predicate TwoRecords(g: Image) {
    |g.inp| >= 2 * Stride(g.kind) && OnStride(g.kind, |g.inp|)
  }

  /** Bytes of the first `off` slots; an item shared by several keys counts for each of them. */
  ghost function BytesBefore(g: Image, off: nat): nat
    requires g.Valid() && off <= |g.inp|
  {
    if off == 0 then 0 else BytesBefore(g, off - 1) + Size(g.Slot(off - 1))
  }

  /** The first place with half the bytes of the page before it, or the last place of all. */
  ghost predicate HalfPlace(g: Image, off: nat)
    requires g.Valid()
  {
    var half := (g.size - g.hoffset) / 2;
    && Aligned(g, off)
    && (off < |g.inp| - Stride(g.kind) ==> BytesBefore(g, off) >= half)
    && forall i :: Aligned(g, i) && i < off ==> BytesBefore(g, i) < half
  }

  /** Where `__bam_psplit` starts looking: an append or a prepend moves a single record. */
  ghost predicate FirstPlace(g: Image, indx: nat, off: nat)
    requires g.Valid()
  {
    if g.next == 0 && indx >= |g.inp| - Stride(g.kind) then off == |g.inp| - Stride(g.kind)
    else if g.prev == 0 && indx == 0 then off == Stride(g.kind)
    else HalfPlace(g, off)
  }

  method HalfPoint(pp: Page) returns (off: nat)
    requires pp.Img().Valid() && TwoRecords(pp.Img())
    ensures HalfPlace(pp.Img(), off)
  {
    hide Find, Depth, Total, Size, Onto, BytesBefore;
    var adjust := Stride(pp.kind);
    var top := |pp.inp| - adjust;
    var half := (pp.size - pp.hoffset) / 2;
    SomeBytes(pp.Img());
    NoBytes(pp.Img());
    var nbytes := 0;
    off := 0;
    while off < top && nbytes < half
      invariant off <= top && OnStride(pp.kind, off)
      invariant nbytes == BytesBefore(pp.Img(), off)
      invariant forall i :: Aligned(pp.Img(), i) && i < off ==> BytesBefore(pp.Img(), i) < half
    {
      MoreBytes(pp.Img(), off);
      nbytes := nbytes + Size(pp.Img().Slot(off));
      off := off + 1;
      if pp.kind == LBtree {
        MoreBytes(pp.Img(), off);
        nbytes := nbytes + Size(pp.Img().Slot(off));
        off := off + 1;
      }
    }
  }

  lemma SomeBytes(g: Image)
    requires g.Valid() && |g.inp| > 0
    ensures (g.size - g.hoffset) / 2 > 0
  {
    DepthBelowTotal(g.heap, g.Ref(0));
  }

  lemma NoBytes(g: Image)
    requires g.Valid()
    ensures BytesBefore(g, 0) == 0
  {
  }

  lemma MoreBytes(g: Image, off: nat)
    requires g.Valid() && off < |g.inp|
    ensures BytesBefore(g, off + 1) == BytesBefore(g, off) + Size(g.Slot(off))
  {
  }

  method FirstChoice(pp: Page, indx: nat) returns (off: nat)
    requires pp.Img().Valid() && TwoRecords(pp.Img())
    ensures FirstPlace(pp.Img(), indx, off) && Aligned(pp.Img(), off)
  {
    hide Find, Depth, Total, Size, Onto, BytesBefore;
    var adjust := Stride(pp.kind);
    off := 0;
    if pp.next == 0 && indx >= |pp.inp| - adjust {
      off := |pp.inp| - adjust;
    } else if pp.prev == 0 && indx == 0 {
      off := adjust;
    }
    if off == 0 {
      off := HalfPoint(pp);
    }
  }

  // ---- A key that can be promoted ----

  /** `cnt` places to the right of a place. */
  function Steps(kind: Kind, cnt: nat): nat {
    if kind == LBtree then 2 * cnt else cnt
  }

  /** No key that could be promoted as it is within `cnt` places of `splitp`. */
  ghost predicate NoPlainNear(g: Image, splitp: nat, cnt: nat)
    requires g.Valid()
  {
    forall i :: Aligned(g, i) && splitp - Steps(g.kind, cnt) < i < splitp + Steps(g.kind, cnt) ==> !Plain(g.Slot(i))
  }

  lemma NextPlace(g: Image, splitp: nat, cnt: nat)
    requires g.Valid() && Aligned(g, splitp) && TwoRecords(g) && NoPlainNear(g, splitp, cnt) && cnt > 0
    requires var off := splitp + Steps(g.kind, cnt); off < |g.inp| ==> !Plain(g.Slot(off))
    requires var off := splitp - Steps(g.kind, cnt); off > 0 ==> !Plain(g.Slot(off))
    ensures NoPlainNear(g, splitp, cnt + 1)
  {
    hide Find, Depth, Total, Onto, Plain, Steps;
    forall i | Aligned(g, i) && splitp - Steps(g.kind, cnt + 1) < i < splitp + Steps(g.kind, cnt + 1)
      ensures !Plain(g.Slot(i))
    {
      Neighbours(g.kind, splitp, cnt, i);
    }
  }

  lemma Neighbours(kind: Kind, splitp: int, cnt: nat, i: int)
    requires OnStride(kind, splitp) && OnStride(kind, i)
    requires splitp - Steps(kind, cnt + 1) < i < splitp + Steps(kind, cnt + 1)
    ensures i == splitp + Steps(kind, cnt) || i == splitp - Steps(kind, cnt)
         || splitp - Steps(kind, cnt) < i < splitp + Steps(kind, cnt)
  {
  }

  /** Places whose key can be promoted at a distance of `cnt`: the right one counts first. */
  ghost predicate PlainAt(g: Image, splitp: nat, cnt: nat, split: nat)
    requires g.Valid()
  {
    var right := splitp + Steps(g.kind, cnt);
    if right < |g.inp| && Plain(g.Slot(right)) then split == right
    else split == splitp - Steps(g.kind, cnt) && 0 < split < |g.inp| && Plain(g.Slot(split))
  }

  /** The place nearest to `splitp`, and at most three places away, whose key is no reference
    * to an overflow item; `splitp` itself if there is none. */
  ghost predicate KeyPlace(g: Image, splitp: nat, split: nat)
    requires g.Valid() && splitp < |g.inp|
  {
    if g.kind == LRecno || g.kind == IRecno || Plain(g.Slot(splitp)) then split == splitp
    else
      || (split == splitp && NoPlainNear(g, splitp, 4))
      || exists cnt :: 1 <= cnt <= 3 && NoPlainNear(g, splitp, cnt) && PlainAt(g, splitp, cnt, split)
  }

  method AvoidBigKey(pp: Page, splitp: nat) returns (split: nat)
    requires pp.Img().Valid() && TwoRecords(pp.Img()) && Aligned(pp.Img(), splitp)
    ensures Aligned(pp.Img(), split) && KeyPlace(pp.Img(), splitp, split)
  {
    hide Find, Depth, Total, Onto, Plain;
    var g := pp.Img();
    if g.kind == LRecno || g.kind == IRecno || Plain(g.Slot(splitp)) {
      return splitp;
    }
    assert NoPlainNear(g, splitp, 1);
    for cnt := 1 to 4
      invariant NoPlainNear(g, splitp, cnt)
    {
      var off := splitp + Steps(g.kind, cnt);
      if off < |g.inp| && Plain(g.Slot(off)) {
        assert PlainAt(g, splitp, cnt, off);
        return off;
      }
      if splitp > Steps(g.kind, cnt) {
        off := splitp - Steps(g.kind, cnt);
        if Plain(g.Slot(off)) {
          assert PlainAt(g, splitp, cnt, off);
          return off;
        }
      }
      NextPlace(g, splitp, cnt);
    }
    return splitp;
  }

  // ---- The end of a duplicate set ----

  /** db_indx_t holds 16 bits. */
  const MAX_PGSIZE: nat := 0x1_0000

  function Indx(x: int): nat {
    x % 0x1_0000
  }

  lemma IndxIs(x: int)
    requires 0 <= x < 0x2_0000
    ensures Indx(x) == if x < 0x1_0000 then x else x - 0x1_0000
    ensures x % 2 == 0 ==> Indx(x) % 2 == 0
  {
  }

  lemma IndxEven(x: int)
    requires x % 2 == 0
    ensures Indx(x) % 2 == 0
  {
  }

  /** The index table of a page is far shorter than an index can count. */
  lemma IndexRoom(g: Image)
    requires g.Valid() && g.size <= MAX_PGSIZE
    ensures |g.inp| < 0x8000 - 12
  {
    hide Find, Onto, Total;
  }

  /** A key behind the first that is no duplicate of the key at `splitp`. */
  predicate Differs(g: Image, splitp: nat, i: nat)
    requires splitp < |g.inp|
  {
    Aligned(g, i) && g.inp[i] != g.inp[splitp]
  }

  /** Two different keys behind the first. */
  ghost predicate TwoKeys(g: Image) {
    exists i: nat, j: nat | Aligned(g, i) && Aligned(g, j) :: g.inp[i] != g.inp[j]
  }

  /** All the keys of the page are one duplicate set. */
  ghost predicate OneKey(g: Image) {
    forall i: nat | i < |g.inp| && i % 2 == 0 :: g.inp[i] == g.inp[0]
  }

  /** Round `cnt` of the search for the end of the duplicate set at `splitp` finds one, at the
    * place to the right or at the place to the left. */
  predicate ExitRight(g: Image, splitp: nat, cnt: nat)
    requires splitp < |g.inp|
  {
    var off := Indx(splitp + cnt * P_INDX);
    off < |g.inp| && g.inp[splitp] != g.inp[off]
  }

  predicate ExitLeft(g: Image, splitp: nat, cnt: nat)
    requires splitp < |g.inp|
  {
    splitp > Indx(cnt * P_INDX) && g.inp[splitp] != g.inp[splitp - Indx(cnt * P_INDX)]
  }

  predicate Exit(g: Image, splitp: nat, cnt: nat)
    requires splitp < |g.inp|
  {
    ExitRight(g, splitp, cnt) || ExitLeft(g, splitp, cnt)
  }

  /** The split point of the round that finds an end. */
  function Edge(g: Image, splitp: nat, cnt: nat): nat
    requires splitp < |g.inp|
  {
    if ExitRight(g, splitp, cnt) then Indx(splitp + cnt * P_INDX)
    else if splitp > Indx(cnt * P_INDX) then splitp - Indx(cnt * P_INDX) + P_INDX
    else splitp
  }

  /** The first round that finds an end. */
  ghost predicate FirstExit(g: Image, splitp: nat, cnt: nat)
    requires splitp < |g.inp|
  {
    cnt >= 1 && Exit(g, splitp, cnt) && forall c: nat | 1 <= c < cnt :: !Exit(g, splitp, c)
  }

  /** As long as no index wraps, a round looks at the two places at its distance. */
  lemma NearRound(g: Image, splitp: nat, cnt: nat)
    requires splitp < |g.inp| < 0x8000 && 2 * cnt <= |g.inp|
    ensures ExitRight(g, splitp, cnt) <==> splitp + 2 * cnt < |g.inp| && g.inp[splitp] != g.inp[splitp + 2 * cnt]
    ensures ExitLeft(g, splitp, cnt) <==> splitp > 2 * cnt && g.inp[splitp] != g.inp[splitp - 2 * cnt]
    ensures Edge(g, splitp, cnt) == if ExitRight(g, splitp, cnt) then splitp + 2 * cnt
                                    else if splitp > 2 * cnt then splitp - 2 * cnt + 2 else splitp
  {
    IndxIs(splitp + 2 * cnt);
    IndxIs(2 * cnt);
  }

  /** The index wraps to the first key. */
  function WrapRound(splitp: nat): nat
    requires splitp < 0x8000
  {
    (0x1_0000 - splitp) / 2
  }

  lemma WrapExit(g: Image, splitp: nat)
    requires g.kind == LBtree && TwoRecords(g) && Aligned(g, splitp) && |g.inp| < 0x8000
    requires g.inp[splitp] != g.inp[0]
    ensures WrapRound(splitp) >= 1 && Exit(g, splitp, WrapRound(splitp))
  {
    assert splitp + WrapRound(splitp) * P_INDX == 0x1_0000;
    IndxIs(0x1_0000);
    assert ExitRight(g, splitp, WrapRound(splitp));
  }

  /** A key behind the first that differs is found before any index wraps. */
  lemma DiffersExit(g: Image, splitp: nat, i: nat) returns (cnt: nat)
    requires g.kind == LBtree && TwoRecords(g) && Aligned(g, splitp) && |g.inp| < 0x8000 && Differs(g, splitp, i)
    ensures cnt >= 1 && 2 * cnt < |g.inp| && Exit(g, splitp, cnt)
  {
    cnt := if i > splitp then (i - splitp) / 2 else (splitp - i) / 2;
    assert i == splitp + 2 * cnt || i == splitp - 2 * cnt;
    NearRound(g, splitp, cnt);
  }

  /** Whatever round finds an end finds another key. */
  lemma ExitOther(g: Image, splitp: nat, cnt: nat) returns (i: nat)
    requires g.kind == LBtree && TwoRecords(g) && Aligned(g, splitp) && |g.inp| < 0x8000 && Exit(g, splitp, cnt)
    ensures i < |g.inp| && i % 2 == 0 && g.inp[i] != g.inp[splitp]
    ensures i == 0 ==> Edge(g, splitp, cnt) == 0
  {
    hide Indx;
    IndxEven(splitp + cnt * P_INDX);
    IndxEven(cnt * P_INDX);
    if ExitRight(g, splitp, cnt) {
      i := Indx(splitp + cnt * P_INDX);
    } else {
      i := splitp - Indx(cnt * P_INDX);
    }
  }

  /** The search ends exactly when the page holds another key: when all its keys are one
    * duplicate set it runs forever.  The source relies on a duplicate set never taking more than
    * about a quarter of a page. */
  lemma EndsIff(g: Image, splitp: nat)
    requires g.kind == LBtree && TwoRecords(g) && Aligned(g, splitp) && |g.inp| < 0x8000
    ensures (exists cnt: nat :: cnt >= 1 && Exit(g, splitp, cnt)) <==> !OneKey(g)
  {
    hide Exit, Edge, Differs;
    if cnt: nat :| cnt >= 1 && Exit(g, splitp, cnt) {
      var i := ExitOther(g, splitp, cnt);
    }
    if !OneKey(g) {
      var cnt := SomeExit(g, splitp);
    }
  }

  lemma SomeExit(g: Image, splitp: nat) returns (cnt: nat)
    requires g.kind == LBtree && TwoRecords(g) && Aligned(g, splitp) && |g.inp| < 0x8000 && !OneKey(g)
    ensures cnt >= 1 && Exit(g, splitp, cnt)
  {
    hide Exit, Edge;
    if g.inp[0] != g.inp[splitp] {
      cnt := WrapRound(splitp);
      WrapExit(g, splitp);
    } else {
      var i: nat :| i < |g.inp| && i % 2 == 0 && g.inp[i] != g.inp[0];
      assert Differs(g, splitp, i);
      cnt := DiffersExit(g, splitp, i);
    }
  }

  /** The keys up to `cnt` places from `splitp` are its duplicates. */
  ghost predicate Settled(g: Image, splitp: nat, cnt: nat)
    requires g.kind == LBtree && Aligned(g, splitp)
  {
    forall i :: Aligned(g, i) && splitp - 2 * cnt < i < splitp + 2 * cnt ==> g.inp[i] == g.inp[splitp]
  }

  /** The end of the duplicate set at `splitp` at a distance of `cnt`, the right one first. */
  ghost predicate EdgeAt(g: Image, splitp: nat, cnt: nat, split: nat)
    requires g.kind == LBtree && Aligned(g, splitp)
  {
    if splitp + 2 * cnt < |g.inp| && g.inp[splitp + 2 * cnt] != g.inp[splitp] then split == splitp + 2 * cnt
    else splitp > 2 * cnt && g.inp[splitp - 2 * cnt] != g.inp[splitp] && split == splitp - 2 * cnt + 2
  }

  /** Where the search ends.  If some key behind the first is not in the set: at the end of the
    * set nearest to `splitp`, the right one first.  If only the first key is not: at 0. */
  ghost predicate SetEdge(g: Image, splitp: nat, split: nat)
    requires g.kind == LBtree && Aligned(g, splitp)
  {
    if g.inp[splitp] != g.inp[splitp - P_INDX] then split == splitp
    else if exists i: nat :: Differs(g, splitp, i) then
      exists cnt: nat :: 1 <= cnt && Settled(g, splitp, cnt) && EdgeAt(g, splitp, cnt, split)
    else split == 0
  }

  lemma QuietSettles(g: Image, splitp: nat, cnt: nat)
    requires g.kind == LBtree && TwoRecords(g) && Aligned(g, splitp) && |g.inp| < 0x8000 && 2 * cnt < |g.inp|
    requires forall c: nat | 1 <= c < cnt :: !Exit(g, splitp, c)
    ensures Settled(g, splitp, cnt)
  {
    hide Exit, ExitLeft, ExitRight, Edge;
    forall i | Aligned(g, i) && splitp - 2 * cnt < i < splitp + 2 * cnt
      ensures g.inp[i] == g.inp[splitp]
    {
      var c: nat := if i > splitp then (i - splitp) / 2 else (splitp - i) / 2;
      assert i == splitp + 2 * c || i == splitp - 2 * c;
      if c >= 1 {
        QuietRound(g, splitp, c);
      }
    }
  }

  lemma QuietRound(g: Image, splitp: nat, c: nat)
    requires splitp < |g.inp| < 0x8000 && 2 * c <= |g.inp| && !Exit(g, splitp, c)
    ensures splitp + 2 * c < |g.inp| ==> g.inp[splitp + 2 * c] == g.inp[splitp]
    ensures splitp > 2 * c ==> g.inp[splitp - 2 * c] == g.inp[splitp]
  {
    NearRound(g, splitp, c);
  }

  /** The round that ends the search finds the nearest end of the set, or the first key. */
  lemma EdgeFound(g: Image, splitp: nat, cnt: nat)
    requires g.kind == LBtree && TwoRecords(g) && Aligned(g, splitp) && |g.inp| < 0x8000
    requires g.inp[splitp] == g.inp[splitp - P_INDX] && FirstExit(g, splitp, cnt)
    ensures SetEdge(g, splitp, Edge(g, splitp, cnt))
  {
    hide Exit, ExitLeft, ExitRight, Edge, Settled, EdgeAt, Differs;
    if i: nat :| Differs(g, splitp, i) {
      var c := DiffersExit(g, splitp, i);
      assert cnt <= c;
      QuietSettles(g, splitp, cnt);
      NearEdge(g, splitp, cnt);
    } else {
      var i := ExitOther(g, splitp, cnt);
      if i > 0 {
        OtherDiffers(g, splitp, i);
      }
    }
  }

  lemma OtherDiffers(g: Image, splitp: nat, i: nat)
    requires g.kind == LBtree && TwoRecords(g) && Aligned(g, splitp)
    requires 0 < i < |g.inp| && i % 2 == 0 && g.inp[i] != g.inp[splitp]
    ensures Differs(g, splitp, i)
  {
  }

  lemma NearEdge(g: Image, splitp: nat, cnt: nat)
    requires g.kind == LBtree && Aligned(g, splitp) && |g.inp| < 0x8000 && 2 * cnt < |g.inp| && Exit(g, splitp, cnt)
    ensures EdgeAt(g, splitp, cnt, Edge(g, splitp, cnt))
  {
    NearRound(g, splitp, cnt);
  }

  /** An end of the set, other than 0, is a place at which the page may be divided. */
  lemma EdgeDivides(g: Image, splitp: nat, split: nat)
    requires g.kind == LBtree && TwoRecords(g) && Aligned(g, splitp) && SetEdge(g, splitp, split)
    ensures if g.inp[splitp] != g.inp[splitp - P_INDX] || exists i: nat :: Differs(g, splitp, i)
            then Aligned(g, split) && g.inp[split] != g.inp[split - P_INDX] else split == 0
  {
    hide Settled, EdgeAt, Differs;
    if g.inp[splitp] == g.inp[splitp - P_INDX] && exists i: nat :: Differs(g, splitp, i) {
      var cnt: nat :| 1 <= cnt && Settled(g, splitp, cnt) && EdgeAt(g, splitp, cnt, split);
      EdgeAtDivides(g, splitp, cnt, split);
    }
  }

  lemma EdgeAtDivides(g: Image, splitp: nat, cnt: nat, split: nat)
    requires g.kind == LBtree && TwoRecords(g) && Aligned(g, splitp) && g.inp[splitp] == g.inp[splitp - P_INDX]
    requires 1 <= cnt && Settled(g, splitp, cnt) && EdgeAt(g, splitp, cnt, split)
    ensures Aligned(g, split) && g.inp[split] != g.inp[split - P_INDX]
  {
    hide Settled;
    SettledAt(g, splitp, cnt, cnt - 1);
  }

  lemma SettledAt(g: Image, splitp: nat, cnt: nat, c: nat)
    requires g.kind == LBtree && TwoRecords(g) && Aligned(g, splitp) && Settled(g, splitp, cnt) && c < cnt
    ensures splitp + 2 * c <= |g.inp| - 2 ==> g.inp[splitp + 2 * c] == g.inp[splitp]
    ensures splitp - 2 * c >= 2 ==> g.inp[splitp - 2 * c] == g.inp[splitp]
  {
    assert splitp + 2 * c <= |g.inp| - 2 ==> Aligned(g, splitp + 2 * c);
    assert splitp - 2 * c >= 2 ==> Aligned(g, splitp - 2 * c);
  }

  method AvoidDuplicates(g: Image, splitp: nat) returns (split: nat)
    requires g.kind == LBtree && TwoRecords(g) && Aligned(g, splitp) && |g.inp| < 0x8000
    requires !OneKey(g)
    ensures SetEdge(g, splitp, split)
  {
    hide SetEdge, Exit, ExitLeft, ExitRight, Edge, Indx, OneKey;
    if g.inp[splitp] != g.inp[splitp - P_INDX] {
      NoEdge(g, splitp);
      return splitp;
    }
    ghost var last := SomeExit(g, splitp);
    var cnt := 1;
    while true
      invariant 1 <= cnt <= last
      invariant forall c: nat | 1 <= c < cnt :: !Exit(g, splitp, c)
      decreases last - cnt
    {
      RoundIs(g, splitp, cnt);
      var off := Indx(splitp + cnt * P_INDX);
      if off < |g.inp| && g.inp[splitp] != g.inp[off] {
        EdgeFound(g, splitp, cnt);
        return off;
      }
      if splitp > Indx(cnt * P_INDX) {
        off := splitp - Indx(cnt * P_INDX);
        if g.inp[splitp] != g.inp[off] {
          EdgeFound(g, splitp, cnt);
          return off + P_INDX;
        }
      }
      cnt := cnt + 1;
    }
  }

  lemma RoundIs(g: Image, splitp: nat, cnt: nat)
    requires splitp < |g.inp|
    ensures var right, step := Indx(splitp + cnt * P_INDX), Indx(cnt * P_INDX);
            var r := right < |g.inp| && g.inp[splitp] != g.inp[right];
            var l := splitp > step && g.inp[splitp] != g.inp[splitp - step];
            && (Exit(g, splitp, cnt) <==> r || l)
            && (r ==> Edge(g, splitp, cnt) == right)
            && (!r && l ==> Edge(g, splitp, cnt) == splitp - step + P_INDX)
  {
    hide Indx;
  }

  lemma NoEdge(g: Image, splitp: nat)
    requires g.kind == LBtree && TwoRecords(g) && Aligned(g, splitp) && g.inp[splitp] != g.inp[splitp - P_INDX]
    ensures SetEdge(g, splitp, splitp)
  {
  }

  // ---- The whole choice ----

  /** How the split point comes about: a first choice, then a key that can be promoted, then the
    * end of a duplicate set. */
  ghost predicate Chosen(g: Image, indx: nat, off: nat, splitp: nat, split: nat)
    requires g.Valid()
  {
    && Aligned(g, off) && FirstPlace(g, indx, off)
    && Aligned(g, splitp) && KeyPlace(g, off, splitp)
    && if g.kind == LBtree then SetEdge(g, splitp, split) else split == splitp
  }

  /** The page can be divided: it holds two different keys behind the first, or the first
    * choice is to move all but the first record, whose key then differs. */
  ghost predicate Divisible(g: Image, indx: nat)
    requires g.Valid()
  {
    g.kind == LBtree ==> TwoKeys(g) || FirstPlace(g, indx, P_INDX)
  }

  /** A leaf is divided wherever the insertion is to be exactly when two keys behind the first
    * differ, or half of its bytes come before the second key and, on the last leaf, there are only
    * two records. */
  lemma AlwaysDivisible(g: Image)
    requires g.Valid() && TwoRecords(g) && g.kind == LBtree
    ensures (forall indx: nat :: Divisible(g, indx))
       <==> TwoKeys(g) || (HalfPlace(g, P_INDX) && (g.next == 0 ==> |g.inp| == 2 * P_INDX))
  {
    hide Find, Depth, Total, Onto, TwoKeys, BytesBefore, Refs;
    if !TwoKeys(g) && forall indx: nat :: Divisible(g, indx) {
      assert Divisible(g, |g.inp|) && Divisible(g, 1);
    }
  }

  lemma HalfOnce(g: Image, i: nat, j: nat)
    requires g.Valid() && TwoRecords(g) && HalfPlace(g, i) && HalfPlace(g, j)
    ensures i == j
  {
    hide Find, Depth, Total, Onto, BytesBefore, Refs;
  }

  /** There is one first choice. */
  lemma FirstOnce(g: Image, indx: nat, i: nat, j: nat)
    requires g.Valid() && TwoRecords(g) && FirstPlace(g, indx, i) && FirstPlace(g, indx, j)
    ensures i == j
  {
    hide HalfPlace, Image.Valid;
    if HalfPlace(g, i) && HalfPlace(g, j) {
      HalfOnce(g, i, j);
    }
  }

  /** Keys that are all the same are all promoted alike, so there is no better place. */
  lemma SameKeyPlace(g: Image, off: nat, splitp: nat)
    requires g.Valid() && g.kind == LBtree && TwoRecords(g) && Aligned(g, off) && KeyPlace(g, off, splitp)
    requires forall i: nat, j: nat | Aligned(g, i) && Aligned(g, j) :: g.inp[i] == g.inp[j]
    ensures splitp == off
  {
    hide Find, Depth, Total, Onto, Plain, NoPlainNear, Refs;
    if splitp != off {
      var cnt :| 1 <= cnt <= 3 && NoPlainNear(g, off, cnt) && PlainAt(g, off, cnt, splitp);
    }
  }

  /** The chosen place divides the page exactly when the page can be divided; if not, only the
    * first key differs from the others and the choice is 0, an empty left page. */
  lemma ChosenDivides(g: Image, indx: nat, off: nat, splitp: nat, split: nat)
    requires g.Valid() && TwoRecords(g) && Chosen(g, indx, off, splitp, split)
    requires g.kind == LBtree ==> !OneKey(g)
    ensures SplitPoint(g, split) <==> Divisible(g, indx)
    ensures !Divisible(g, indx) ==> split == 0
  {
    hide Find, Depth, Total, Onto, FirstPlace, KeyPlace, SetEdge, Differs, OneKey, TwoKeys, Refs;
    if g.kind == LBtree {
      EdgeDivides(g, splitp, split);
      if TwoKeys(g) {
        TwoKeysDiffer(g, splitp);
      } else {
        KeysAlike(g, splitp);
        SameKeyPlace(g, off, splitp);
        if FirstPlace(g, indx, P_INDX) {
          FirstOnce(g, indx, off, P_INDX);
        }
      }
    }
  }

  lemma TwoKeysDiffer(g: Image, splitp: nat)
    requires g.kind == LBtree && TwoRecords(g) && Aligned(g, splitp) && TwoKeys(g)
    ensures exists i: nat :: Differs(g, splitp, i)
  {
    var i: nat, j: nat :| Aligned(g, i) && Aligned(g, j) && g.inp[i] != g.inp[j];
    assert Differs(g, splitp, i) || Differs(g, splitp, j);
  }

  lemma KeysAlike(g: Image, splitp: nat)
    requires g.kind == LBtree && TwoRecords(g) && Aligned(g, splitp) && !TwoKeys(g) && !OneKey(g)
    ensures forall i: nat, j: nat | Aligned(g, i) && Aligned(g, j) :: g.inp[i] == g.inp[j]
    ensures !exists i: nat :: Differs(g, splitp, i)
    ensures g.inp[splitp] == g.inp[splitp - P_INDX] <==> splitp != P_INDX
  {
    assert Aligned(g, P_INDX);
    if g.inp[0] == g.inp[P_INDX] {
      forall i: nat | i < |g.inp| && i % 2 == 0
        ensures g.inp[i] == g.inp[0]
      {
        assert i > 0 ==> Aligned(g, i);
      }
    }
    assert splitp != P_INDX ==> Aligned(g, splitp - P_INDX);
  }

  /** `__bam_psplit`: `indx` is the place of the insertion that made the page overflow. */
  method PSplit(pp: Page, indx: nat, lp: Page, rp: Page) returns (split: nat, ghost off: nat, ghost splitp: nat)
    requires pp != lp && pp != rp && lp != rp
    requires pp.Img().Valid() && DupSets(pp.Img()) && TwoRecords(pp.Img()) && pp.size <= MAX_PGSIZE
    requires pp.kind == LBtree ==> !OneKey(pp.Img())
    requires lp.inp == [] && rp.inp == []
    modifies lp`inp, lp`hoffset, lp`heap, rp`inp, rp`hoffset, rp`heap
    ensures Chosen(pp.Img(), indx, off, splitp, split)
    ensures SplitPoint(pp.Img(), split) <==> Divisible(pp.Img(), indx)
    ensures !Divisible(pp.Img(), indx) ==> split == 0
    ensures split <= |pp.inp| && OnStride(pp.kind, split)
    ensures lp.Img() == Copied(pp.Img(), old(lp.Img()), 0, split)
    ensures rp.Img() == Copied(pp.Img(), old(rp.Img()), split, |pp.inp| - split)
  {
    hide Find, Depth, Total, DupSets, Copied, Onto, FirstPlace, KeyPlace, Size, SetEdge, OneKey, TwoKeys, Divisible;
    IndexRoom(pp.Img());
    var start := FirstChoice(pp, indx);
    split := AvoidBigKey(pp, start);
    off, splitp := start, split;
    if pp.kind == LBtree {
      split := AvoidDuplicates(pp.Img(), split);
    }
    ChosenDivides(pp.Img(), indx, off, splitp, split);
    Copy(pp, lp, 0, split);
    Copy(pp, rp, split, |pp.inp|);
  }

  // ---- A page that is not divided ----

  /** The records of a page: one key by itself, and three duplicates that together take less than
    * a quarter of the page. */
  function LoneKey(a: seq<byte>, b: seq<byte>, d: seq<byte>): Image {
    var g0 := Fresh(512, 0, 1, 0, 0, 1, LBtree);
    var g1 := Put(Put(g0, 0, KeyData(false, a)), 1, KeyData(false, a));
    var g2 := Put(Put(g1, 2, KeyData(false, b)), 3, KeyData(false, d));
    var g3 := Put(g2.(inp := g2.inp + [g2.inp[2]]), 5, KeyData(false, d));
    Put(g3.(inp := g3.inp + [g3.inp[2]]), 7, KeyData(false, d))
  }

  lemma LoneKeyOffsets(a: seq<byte>, b: seq<byte>, d: seq<byte>)
    requires |a| == 111 && |b| == 10 && |d| == 24
    ensures LoneKey(a, b, d).inp == [396, 280, 264, 236, 264, 208, 264, 180]
    ensures LoneKey(a, b, d).hoffset == 180 && LoneKey(a, b, d).FreeSpace() == 138
  {
  }

  lemma EmptyPage(size: nat, lsn: nat, pgno: nat, prev: int, next: int, level: nat, kind: Kind)
    requires size >= SIZEOF_PAGE
    ensures Fresh(size, lsn, pgno, prev, next, level, kind).Valid()
  {
    OntoNothing(0);
  }

  /** Appending a record of a 111-byte key and 111 bytes of data does not fit, and the split that
    * makes room for it leaves the left page empty although no duplicate set takes a quarter of
    * the page. */
  lemma EmptyLeftPage(a: seq<byte>, b: seq<byte>, d: seq<byte>, off: nat, splitp: nat, split: nat)
    requires |a| == 111 && |b| == 10 && |d| == 24
    ensures var g := LoneKey(a, b, d);
            && g.Valid() && DupSets(g) && TwoRecords(g) && !OneKey(g) && !Divisible(g, 8)
            && Size(KeyData(false, b)) + 3 * (Size(KeyData(false, d)) + 2 * 2) < g.size / 4
            && g.FreeSpace() < 2 * (Size(KeyData(false, a)) + 2)
            && (Chosen(g, 8, off, splitp, split) ==> split == 0)
  {
    hide Find, Depth, Total, Onto, FirstPlace, KeyPlace, SetEdge, OneKey, TwoKeys, Refs, Put, Image.Valid, LoneKey;
    var g := LoneKey(a, b, d);
    LoneKeyValid(a, b, d);
    LoneKeyOffsets(a, b, d);
    LoneKeyShape(a, b, d);
    if Chosen(g, 8, off, splitp, split) {
      ChosenDivides(g, 8, off, splitp, split);
    }
  }

  lemma LoneKeyShape(a: seq<byte>, b: seq<byte>, d: seq<byte>)
    requires |a| == 111 && |b| == 10 && |d| == 24
    requires LoneKey(a, b, d).Valid() && LoneKey(a, b, d).inp == [396, 280, 264, 236, 264, 208, 264, 180]
    ensures var g := LoneKey(a, b, d);
            DupSets(g) && TwoRecords(g) && !OneKey(g) && !Divisible(g, 8) && g.size == 512
  {
    hide Find, Depth, Total, Onto, Refs, Image.Valid, HalfPlace, Size;
    var g := LoneKey(a, b, d);
    assert g.kind == LBtree && g.next == 0 && g.size == 512;
    hide LoneKey;
    LoneKeyDups(g);
    assert g.inp[2] != g.inp[0];
  }

  lemma LoneKeyDups(g: Image)
    requires g.kind == LBtree && g.inp == [396, 280, 264, 236, 264, 208, 264, 180]
    ensures DupSets(g)
  {
    forall i, j | 0 <= i < j < |g.inp| && g.inp[i] == g.inp[j]
      ensures i % 2 == 0 && j % 2 == 0 && forall k :: i <= k <= j && k % 2 == 0 ==> g.inp[k] == g.inp[i]
    {
    }
  }

  lemma LoneKeyValid(a: seq<byte>, b: seq<byte>, d: seq<byte>)
    requires |a| == 111 && |b| == 10 && |d| == 24
    ensures LoneKey(a, b, d).Valid()
  {
    hide Find, Depth, Total, Onto, Refs, Image.Valid;
    EmptyPage(512, 0, 1, 0, 0, 1, LBtree);
    var g0 := Fresh(512, 0, 1, 0, 0, 1, LBtree);
    PutSlots(g0, 0, KeyData(false, a));
    var g1 := Put(g0, 0, KeyData(false, a));
    PutSlots(g1, 1, KeyData(false, a));
    g1 := Put(g1, 1, KeyData(false, a));
    PutSlots(g1, 2, KeyData(false, b));
    var g2 := Put(g1, 2, KeyData(false, b));
    PutSlots(g2, 3, KeyData(false, d));
    g2 := Put(g2, 3, KeyData(false, d));
    AdjustedSlots(g2, 4, 2);
    var g3 := Adjusted(g2, 4, 2, true);
    assert g3 == g2.(inp := g2.inp + [g2.inp[2]]);
    PutSlots(g3, 5, KeyData(false, d));
    g3 := Put(g3, 5, KeyData(false, d));
    AdjustedSlots(g3, 6, 2);
    var g4 := Adjusted(g3, 6, 2, true);
    assert g4 == g3.(inp := g3.inp + [g3.inp[2]]);
    PutSlots(g4, 7, KeyData(false, d));
  }

  /** The two new pages together hold the records of the page, in order, but for the first
    * key of a right-hand internal page; no duplicate set is divided. */
  lemma SplitConserves(pp: Image, lp: Image, rp: Image, split: nat)
    requires pp.Valid() && DupSets(pp) && SplitPoint(pp, split)
    requires lp == Fresh(pp.size, lp.lsn, lp.pgno, lp.prev, lp.next, lp.level, pp.kind)
    requires rp == Fresh(pp.size, rp.lsn, rp.pgno, rp.prev, rp.next, rp.level, pp.kind)
    ensures var left, right := Copied(pp, lp, 0, split), Copied(pp, rp, split, |pp.inp| - split);
            && left.Valid() && right.Valid() && DupSets(left) && DupSets(right)
            && Slots(left) + [Slots(pp)[split]] + Slots(right)[1..] == Slots(pp)
            && Slots(right)[0] == CopiedItem(pp.kind, Slots(pp)[split], true)
            && forall i, j :: 0 <= i < split <= j < |pp.inp| ==> pp.inp[i] != pp.inp[j]
  {
    hide Find, Depth, Total, Copied, CopiedItem, Onto;
    CopyConserves(pp, lp, 0, split);
    CopyConserves(pp, rp, split, |pp.inp| - split);
    forall i, j | 0 <= i < split <= j < |pp.inp|
      ensures pp.inp[i] != pp.inp[j]
    {
      NotAcross(pp, split, i, j);
    }
    WholeCopied(pp, split);
  }

  lemma NotAcross(g: Image, split: nat, i: nat, j: nat)
    requires DupSets(g) && SplitPoint(g, split) && i < split <= j < |g.inp|
    ensures g.inp[i] != g.inp[j]
  {
    if g.kind == LBtree && i % 2 == 0 && g.inp[i] == g.inp[j] {
      hide DupSets;
      SharedBetween(g, i, j, split);
      SharedBetween(g, i, j, split - 2);
      assert false;
    }
  }

  lemma SharedBetween(g: Image, i: nat, j: nat, k: nat)
    requires DupSets(g) && i < j < |g.inp| && g.inp[i] == g.inp[j] && i <= k <= j && k % 2 == 0
    ensures g.inp[k] == g.inp[i]
  {
  }

  lemma WholeCopied(pp: Image, split: nat)
    requires pp.Valid() && 0 < split < |pp.inp|
    ensures CopiedSlots(pp, 0, split) + [Slots(pp)[split]] + CopiedSlots(pp, split, |pp.inp| - split)[1..] == Slots(pp)
    ensures CopiedSlots(pp, split, |pp.inp| - split)[0] == CopiedItem(pp.kind, Slots(pp)[split], true)
  {
    hide Find, Depth, Total, Onto;
    var a, b := CopiedSlots(pp, 0, split), CopiedSlots(pp, split, |pp.inp| - split);
    forall k | 0 <= k < |pp.inp|
      ensures (a + [Slots(pp)[split]] + b[1..])[k] == Slots(pp)[k]
    {
    }
  }
}
