/** What a page of bytes stands for in a tree: its records or entries.  A split point of the
  * page is a place that divides the records, the copied halves are the halves of the tree's
  * split, and the total over the page is the number of live records. */
module PageRecords {
  import opened SlottedPage
  import opened PageOps
  import opened PageSplit
  import opened Recovery
  import B = BtreeShape
  import R = BtreeRoot
  import O = BtreeOps
  import C = BtreeCounts
  import M = PageMerge

  /** Pairs of plain keys and data. */
  ghost predicate PlainPairs(slots: seq<Item>) {
    |slots| % 2 == 0 && forall i :: 0 <= i < |slots| ==> slots[i].KeyData?
  }

  ghost predicate PlainEntries(slots: seq<Item>) {
    forall i :: 0 <= i < |slots| ==> slots[i].Child?
  }

  /** The deleted flag of a record is that of its data. */
  ghost function RecordsOf(slots: seq<Item>): (recs: seq<B.Rec>)
    requires PlainPairs(slots)
    ensures |recs| == |slots| / 2
    ensures forall i :: 0 <= i < |recs| ==>
              recs[i] == B.Rec(slots[2 * i].data, slots[2 * i + 1].data, slots[2 * i + 1].deleted)
  {
    seq(|slots| / 2, i requires 0 <= i < |slots| / 2 =>
      B.Rec(slots[2 * i].data, slots[2 * i + 1].data, slots[2 * i + 1].deleted))
  }

  ghost function EntriesOf(slots: seq<Item>): (ents: seq<B.Entry>)
    requires PlainEntries(slots)
    ensures |ents| == |slots|
    ensures forall i :: 0 <= i < |ents| ==> ents[i] == B.Entry(slots[i].key, slots[i].pgno, slots[i].nrecs)
  {
    seq(|slots|, i requires 0 <= i < |slots| => B.Entry(slots[i].key, slots[i].pgno, slots[i].nrecs))
  }

  /** A page of a btree without overflow items. */
  ghost predicate Readable(g: Image) {
    && g.Valid()
    && if g.kind == LBtree then PlainPairs(Slots(g)) && g.prev >= 0 && g.next >= 0
       else g.kind == IBtree && PlainEntries(Slots(g))
  }

  ghost function NodeOf(g: Image): B.Node
    requires Readable(g)
  {
    if g.kind == LBtree then B.Leaf(RecordsOf(Slots(g)), g.prev, g.next)
    else B.Internal(EntriesOf(Slots(g)), g.level)
  }

  /** On a leaf, the key slots with one key share one item. */
  ghost predicate OneItemPerKey(g: Image)
    requires Readable(g)
  {
    g.kind == LBtree ==>
      forall i, j | 0 <= i < |g.inp| && 0 <= j < |g.inp| && i % 2 == 0 && j % 2 == 0 ::
        g.inp[i] == g.inp[j] <==> Slots(g)[i].data == Slots(g)[j].data
  }

  /** The place of slot `split` among records or entries. */
  function NodePlace(kind: Kind, split: nat): nat {
    if kind == LBtree then split / 2 else split
  }

  // ---- Split points ----

  /** A page may be divided exactly where its records or entries may be. */
  lemma SplitPointDivides(g: Image, split: nat)
    requires Readable(g) && OneItemPerKey(g) && OnStride(g.kind, split)
    ensures SplitPoint(g, split) <==> O.Divides(NodeOf(g), NodePlace(g.kind, split))
  {
    hide Find, Depth, Total, Onto, Slots, Refs;
    if g.kind == LBtree && 0 < split < |g.inp| {
      assert split == 2 * (split / 2);
    }
  }

  lemma PairsOfPart(slots: seq<Item>, m: nat)
    requires PlainPairs(slots) && 2 * m <= |slots|
    ensures PlainPairs(slots[..2 * m]) && RecordsOf(slots[..2 * m]) == RecordsOf(slots)[..m]
    ensures PlainPairs(slots[2 * m..]) && RecordsOf(slots[2 * m..]) == RecordsOf(slots)[m..]
  {
  }

  lemma EntriesOfPart(slots: seq<Item>, m: nat)
    requires PlainEntries(slots) && m <= |slots|
    ensures PlainEntries(slots[..m]) && EntriesOf(slots[..m]) == EntriesOf(slots)[..m]
    ensures PlainEntries(slots[m..]) && EntriesOf(slots[m..]) == EntriesOf(slots)[m..]
  {
  }

  /** The first key of a right-hand internal page goes. */
  lemma EntriesWithout(slots: seq<Item>, copied: seq<Item>)
    requires PlainEntries(slots) && slots != [] && |copied| == |slots|
    requires forall i :: 0 <= i < |copied| ==> copied[i] == CopiedItem(IBtree, slots[i], i == 0)
    ensures PlainEntries(copied) && EntriesOf(copied) == B.Without(EntriesOf(slots))
  {
  }

  /** What the two copies of a page hold, slot by slot. */
  lemma CopiedParts(g: Image, lp: Image, rp: Image, split: nat)
    requires g.Valid() && DupSets(g) && 0 < split < |g.inp| && OnStride(g.kind, split)
    requires lp == Fresh(g.size, lp.lsn, lp.pgno, lp.prev, lp.next, lp.level, g.kind)
    requires rp == Fresh(g.size, rp.lsn, rp.pgno, rp.prev, rp.next, rp.level, g.kind)
    ensures var l, r := Copied(g, lp, 0, split), Copied(g, rp, split, |g.inp| - split);
            && l.Valid() && r.Valid()
            && l == lp.(inp := l.inp, hoffset := l.hoffset, heap := l.heap)
            && r == rp.(inp := r.inp, hoffset := r.hoffset, heap := r.heap)
            && Slots(l) == Slots(g)[..split] && |Slots(r)| == |g.inp| - split
            && forall i :: 0 <= i < |Slots(r)| ==> Slots(r)[i] == CopiedItem(g.kind, Slots(g)[split + i], i == 0)
  {
    hide Find, Depth, Total, Onto, Copied, DupSets, CopiedItem, CopiedSlots, Slots, Refs, Image.Valid;
    CopyConserves(g, lp, 0, split);
    CopyConserves(g, rp, split, |g.inp| - split);
    FirstPart(g, split);
    RestPart(g, split);
  }

  lemma RestPart(g: Image, split: nat)
    requires g.Valid() && 0 < split <= |g.inp|
    ensures var rest := CopiedSlots(g, split, |g.inp| - split);
            |rest| == |g.inp| - split
            && forall i :: 0 <= i < |rest| ==> rest[i] == CopiedItem(g.kind, Slots(g)[split + i], i == 0)
  {
    hide Find, Depth, Total, Onto, CopiedItem, Slots, Refs;
    var rest := CopiedSlots(g, split, |g.inp| - split);
    forall i | 0 <= i < |rest|
      ensures rest[i] == CopiedItem(g.kind, Slots(g)[split + i], i == 0)
    {
      assert g.Slot(split + i) == Slots(g)[split + i];
    }
  }

  lemma FirstPart(g: Image, split: nat)
    requires g.Valid() && split <= |g.inp|
    ensures CopiedSlots(g, 0, split) == Slots(g)[..split]
  {
    hide Find, Depth, Total, Onto;
  }

  lemma LeafCopies(g: Image, r: seq<Item>, split: nat)
    requires g.Valid() && g.kind != IBtree && split <= |g.inp| && |r| == |g.inp| - split
    requires forall i :: 0 <= i < |r| ==> r[i] == CopiedItem(g.kind, Slots(g)[split + i], i == 0)
    ensures r == Slots(g)[split..]
  {
    hide Find, Depth, Total, Onto, Slots;
  }

  /** The nodes that the copied halves of a page stand for. */
  lemma CopiesAgree(g: Image, lp: Image, rp: Image, split: nat)
    requires Readable(g) && DupSets(g) && 0 < split < |g.inp| && OnStride(g.kind, split)
    requires lp == Fresh(g.size, lp.lsn, lp.pgno, lp.prev, lp.next, g.level, g.kind)
    requires rp == Fresh(g.size, rp.lsn, rp.pgno, rp.prev, rp.next, g.level, g.kind)
    requires g.kind == LBtree ==> lp.prev >= 0 && lp.next >= 0 && rp.prev >= 0 && rp.next >= 0
    ensures var l, r := Copied(g, lp, 0, split), Copied(g, rp, split, |g.inp| - split);
            && Readable(l) && Readable(r)
            && match NodeOf(g)
               case Leaf(recs, _, _) =>
                 && NodeOf(l) == B.Leaf(recs[..split / 2], lp.prev, lp.next)
                 && NodeOf(r) == B.Leaf(recs[split / 2..], rp.prev, rp.next)
               case Internal(ents, level) =>
                 && NodeOf(l) == B.Internal(ents[..split], level)
                 && NodeOf(r) == B.Internal(B.Without(ents[split..]), level)
  {
    hide Find, Depth, Total, Onto, Copied, DupSets, Slots, Image.Valid;
    CopiedParts(g, lp, rp, split);
    var r := Slots(Copied(g, rp, split, |g.inp| - split));
    if g.kind == LBtree {
      LeafCopies(g, r, split);
      assert split == 2 * (split / 2);
      PairsOfPart(Slots(g), split / 2);
    } else {
      EntriesOfPart(Slots(g), split);
      EntriesWithout(Slots(g)[split..], r);
    }
  }

  /** The copied halves of a page are the halves that the split of the tree makes of it. */
  lemma HalvesAgree(s: B.Store, c: B.Cut, g: Image, lp: Image, rp: Image, split: nat)
    requires B.CanCut(s, c) && Readable(g) && DupSets(g) && c.cp in s && s[c.cp] == NodeOf(g)
    requires 0 < split < |g.inp| && OnStride(g.kind, split) && c.split == NodePlace(g.kind, split)
    requires lp == Fresh(g.size, lp.lsn, c.cp, lp.prev, lp.next, g.level, g.kind)
    requires rp == Fresh(g.size, rp.lsn, c.rp, rp.prev, rp.next, g.level, g.kind)
    requires g.kind == LBtree ==> lp.prev == g.prev && lp.next == c.rp && rp.prev == c.cp && rp.next == g.next
    ensures var l, r := Copied(g, lp, 0, split), Copied(g, rp, split, |g.inp| - split);
            && Readable(l) && NodeOf(l) == B.LeftHalf(s, c)
            && Readable(r) && NodeOf(r) == B.RightHalf(s, c)
  {
    hide Find, Depth, Total, Onto, Copied, DupSets, Slots, Image.Valid, B.CanCut, B.Shape;
    LinkSigns(g);
    CopiesAgree(g, lp, rp, split);
  }

  lemma LinkSigns(g: Image)
    requires Readable(g)
    ensures g.kind == LBtree ==> g.prev >= 0 && g.next >= 0
  {
  }

  /** The same for a root, whose halves go to two new pages. */
  lemma RootHalvesAgree(s: B.Store, root: nat, c: R.RootCut, g: Image, lp: Image, rp: Image, split: nat)
    requires R.CanCutRoot(s, root, c) && Readable(g) && DupSets(g) && s[root] == NodeOf(g)
    requires 0 < split < |g.inp| && OnStride(g.kind, split) && c.split == NodePlace(g.kind, split)
    requires var leaf := g.kind == LBtree;
             && lp == Fresh(g.size, lp.lsn, c.lp, B.PGNO_INVALID, if leaf then c.rp else B.PGNO_INVALID, g.level, g.kind)
             && rp == Fresh(g.size, rp.lsn, c.rp, if leaf then c.lp else B.PGNO_INVALID, B.PGNO_INVALID, g.level, g.kind)
    ensures var l, r := Copied(g, lp, 0, split), Copied(g, rp, split, |g.inp| - split);
            && Readable(l) && NodeOf(l) == R.AfterRootCut(s, root, c)[c.lp]
            && Readable(r) && NodeOf(r) == R.AfterRootCut(s, root, c)[c.rp]
  {
    hide Find, Depth, Total, Onto, Copied, DupSets, Slots, Image.Valid, B.Shape, B.Unique, R.CanLift;
    R.RootCutPages(s, root, c);
    CopiesAgree(g, lp, rp, split);
  }

  // ---- Dividing a page of bytes and the tree together ----

  /** `__bam_page`: the split point is that of `__bam_psplit` for the page's bytes, and the halves
    * of the bytes stand for the new pages of the tree. */
  method DividePage(t: O.Btree, pp: nat, i: nat, page: Page, indx: nat, rp: nat,
                    ghost stack: seq<C.Step>, ghost p: nat, ghost key: B.Key)
    returns (ok: bool, left: Page, right: Page)
    requires t.Ok() && C.Path(t.pages, t.root, stack, p, key) && C.Step(pp, i) in stack
    requires pp in t.pages && B.Refers(t.pages, pp, i) && t.pages[pp].ents[i].pgno in t.pages
    requires rp !in t.pages && rp != B.PGNO_INVALID
    requires var g := page.Img();
             && Readable(g) && DupSets(g) && OneItemPerKey(g) && TwoRecords(g) && g.size <= MAX_PGSIZE
             && g.pgno == t.pages[pp].ents[i].pgno && NodeOf(g) == t.pages[g.pgno]
             && (g.kind == LBtree ==> !OneKey(g)) && Divisible(g, indx)
    modifies t`pages
    ensures t.Ok() && B.InOrder(t.pages, t.root) == old(B.InOrder(t.pages, t.root))
    ensures !ok ==> t.pages == old(t.pages)
    ensures ok ==> page.pgno in t.pages && Readable(left.Img()) && NodeOf(left.Img()) == t.pages[page.pgno]
    ensures ok ==> rp in t.pages && Readable(right.Img()) && NodeOf(right.Img()) == t.pages[rp]
    ensures left.pgno == page.pgno && right.pgno == rp
  {
    hide Find, Depth, Total, Onto, Copied, DupSets, Slots, Image.Valid, OneKey, Divisible, Chosen, NodeOf, Readable, OneItemPerKey, O.Divides, SplitPoint;
    hide B.Valid, B.InOrder, B.AfterCut, B.CanCut, C.Path, O.HasRoom, B.LeftHalf, B.RightHalf;
    ghost var g, s := page.Img(), t.pages;
    var internal := IsInternal(page.kind);
    left := new Page.Init(page.size, 0, page.pgno, if internal then 0 else page.prev, if internal then 0 else rp,
                          page.level, page.kind);
    right := new Page.Init(page.size, 0, rp, if internal then 0 else page.pgno, if internal then 0 else page.next,
                           page.level, page.kind);
    ghost var lp, rpg := left.Img(), right.Img();
    ReadableValid(g);
    ghost var off, splitp;
    var split;
    split, off, splitp := PSplit(page, indx, left, right);
    SplitPointDivides(g, split);
    ok := t.SplitPage(pp, i, if page.kind == LBtree then split / 2 else split, rp, stack, p, key);
    if ok {
      BytesAgree(s, t.pages, pp, i, rp, g, lp, rpg, split);
    }
  }

  /** `__bam_root`, in the same way. */
  method DivideRoot(t: O.Btree, page: Page, indx: nat, lp: nat, rp: nat) returns (left: Page, right: Page)
    requires t.Ok()
    requires lp !in t.pages && rp !in t.pages && lp != rp && lp != B.PGNO_INVALID && rp != B.PGNO_INVALID
    requires var g := page.Img();
             && Readable(g) && DupSets(g) && OneItemPerKey(g) && TwoRecords(g) && g.size <= MAX_PGSIZE
             && g.pgno == t.root && NodeOf(g) == t.pages[t.root]
             && (g.kind == LBtree ==> !OneKey(g)) && Divisible(g, indx)
    modifies t`pages, t`nrec
    ensures t.Ok() && B.InOrder(t.pages, t.root) == old(B.InOrder(t.pages, t.root))
    ensures lp in t.pages && Readable(left.Img()) && NodeOf(left.Img()) == t.pages[lp]
    ensures rp in t.pages && Readable(right.Img()) && NodeOf(right.Img()) == t.pages[rp]
    ensures left.pgno == lp && right.pgno == rp
  {
    hide Find, Depth, Total, Onto, Copied, DupSets, Slots, Image.Valid, OneKey, Divisible, Chosen, NodeOf, Readable, OneItemPerKey, O.Divides, SplitPoint;
    hide B.Valid, B.InOrder, R.AfterRootCut, R.CanCutRoot, O.Ascending;
    ghost var g, s := page.Img(), t.pages;
    RootPresent(t);
    var internal := IsInternal(page.kind);
    left := new Page.Init(page.size, 0, lp, 0, if internal then 0 else rp, page.level, page.kind);
    right := new Page.Init(page.size, 0, rp, if internal then 0 else lp, 0, page.level, page.kind);
    ghost var lpg, rpg := left.Img(), right.Img();
    ReadableValid(g);
    ghost var off, splitp;
    var split;
    split, off, splitp := PSplit(page, indx, left, right);
    SplitPointDivides(g, split);
    t.SplitRoot(lp, rp, if page.kind == LBtree then split / 2 else split);
    RootBytesAgree(s, t.pages, t.root, lp, rp, g, lpg, rpg, split);
  }

  lemma RootPresent(t: O.Btree)
    requires t.Ok()
    ensures t.root in t.pages
  {
  }

  lemma RootBytesAgree(s: B.Store, t: B.Store, root: nat, lp: nat, rp: nat, g: Image, lpg: Image, rpg: Image, split: nat)
    requires Readable(g) && DupSets(g) && SplitPoint(g, split) && root in s && s[root] == NodeOf(g)
    requires O.IsRootCut(s, t, root, lp, rp, NodePlace(g.kind, split))
    requires var internal := IsInternal(g.kind);
             && lpg == Fresh(g.size, 0, lp, 0, if internal then 0 else rp, g.level, g.kind)
             && rpg == Fresh(g.size, 0, rp, if internal then 0 else lp, 0, g.level, g.kind)
    ensures var l, r := Copied(g, lpg, 0, split), Copied(g, rpg, split, |g.inp| - split);
            && Readable(l) && lp in t && NodeOf(l) == t[lp]
            && Readable(r) && rp in t && NodeOf(r) == t[rp]
  {
    hide Find, Depth, Total, Onto, Copied, DupSets, Slots, Image.Valid, NodeOf, O.WholeKey, O.Divides, R.AfterRootCut, R.CanLift;
    var c: R.RootCut :| R.CanCutRoot(s, root, c) && c.lp == lp && c.rp == rp && c.split == NodePlace(g.kind, split)
                        && t == R.AfterRootCut(s, root, c);
    R.RootCutPages(s, root, c);
    ReadableValid(g);
    RootHalvesAgree(s, root, c, g, lpg, rpg, split);
  }

  lemma ReadableValid(g: Image)
    requires Readable(g)
    ensures g.Valid() && (g.kind == LBtree || g.kind == IBtree)
  {
  }

  lemma BytesAgree(s: B.Store, t: B.Store, pp: nat, i: nat, rp: nat, g: Image, lp: Image, rpg: Image, split: nat)
    requires Readable(g) && DupSets(g) && SplitPoint(g, split)
    requires O.IsCut(s, t, pp, i, rp, NodePlace(g.kind, split))
    requires pp in s && s[pp].Internal? && i < |s[pp].ents| && s[pp].ents[i].pgno == g.pgno
    requires g.pgno in s && s[g.pgno] == NodeOf(g)
    requires var internal := IsInternal(g.kind);
             && lp == Fresh(g.size, 0, g.pgno, if internal then 0 else g.prev, if internal then 0 else rp, g.level, g.kind)
             && rpg == Fresh(g.size, 0, rp, if internal then 0 else g.pgno, if internal then 0 else g.next, g.level, g.kind)
    ensures var l, r := Copied(g, lp, 0, split), Copied(g, rpg, split, |g.inp| - split);
            && Readable(l) && g.pgno in t && NodeOf(l) == t[g.pgno]
            && Readable(r) && rp in t && NodeOf(r) == t[rp]
  {
    hide Find, Depth, Total, Onto, Copied, DupSets, Slots, Image.Valid, NodeOf, O.Promoted, O.Divides, B.AfterCut, B.CanCut;
    var c: B.Cut :| B.CanCut(s, c) && c.pp == pp && c.i == i && c.rp == rp && c.split == NodePlace(g.kind, split)
                    && t == B.AfterCut(s, c);
    B.CutLevels(s, c);
    B.CutPages(s, c);
    HalvesAgree(s, c, g, lp, rpg, split);
  }

  // ---- Counts, marks and room ----

  /** Changing a count on a page of bytes changes it in the entry that the page stands for. */
  lemma CountedAgrees(g: Image, indx: nat, adjust: int, updateRoot: bool)
    requires Readable(g) && DupSets(g) && g.kind == IBtree && indx < |g.inp|
    ensures var c := CountAdjusted(g, indx, adjust, updateRoot);
            Readable(c) && NodeOf(c) == B.Internal(C.Counted(EntriesOf(Slots(g)), indx, adjust), g.level)
  {
    hide Find, Depth, Total, Onto, Slots, Refs, CountAdjusted;
    assert !g.Shared(indx);
    assert g.Slot(indx) == Slots(g)[indx];
    CountAdjustedSlots(g, indx, adjust, updateRoot);
  }

  /** Marking a record on a page of bytes marks the record that the slots stand for. */
  lemma MarkedAgrees(g: Image, indx: nat, deleted: bool)
    requires Readable(g) && DupSets(g) && g.kind == LBtree && indx < |g.inp| && indx % 2 == 0
    ensures var recs := RecordsOf(Slots(g));
            var m := Marked(g, indx, deleted);
            Readable(m) && NodeOf(m) == B.Leaf(recs[indx / 2 := recs[indx / 2].(deleted := deleted)], g.prev, g.next)
  {
    hide Find, Depth, Total, Onto, Slots, Refs, Marked;
    assert indx + 1 < |g.inp| && !g.Shared(indx + 1);
    assert g.Slot(indx + 1) == Slots(g)[indx + 1];
    MarkedSlots(g, indx, deleted);
  }

  /** The room on a page of bytes is the room that the tree sees on it. */
  lemma RoomAgrees(g: Image)
    requires Readable(g) && DupSets(g) && g.kind == IBtree
    ensures g.FreeSpace() == g.size - SIZEOF_PAGE - O.Used(EntriesOf(Slots(g)))
  {
    hide Find, Depth, Total, Onto, Slots, Refs, DupSets, M.MoveCost, O.Used;
    M.WholeCost(g);
    RoomTaken(g, |g.inp|);
    assert EntriesOf(Slots(g))[..|g.inp|] == EntriesOf(Slots(g));
  }

  lemma {:induction false} RoomTaken(g: Image, j: nat)
    requires Readable(g) && g.kind == IBtree && j <= |g.inp|
    ensures M.MoveCost(g, j) == O.Used(EntriesOf(Slots(g))[..j])
  {
    hide Find, Depth, Total, Onto, Slots, Refs;
    if j > 0 {
      RoomTaken(g, j - 1);
      var ents := EntriesOf(Slots(g));
      assert ents[..j][..j - 1] == ents[..j - 1];
      assert g.Slot(j - 1) == Slots(g)[j - 1];
    }
  }

  // ---- Totals ----

  lemma {:induction false} PairsTotal(slots: seq<Item>)
    requires PlainPairs(slots)
    ensures RecordTotal(LBtree, slots) == B.Live(RecordsOf(slots))
  {
    hide RecordTotal;
    if slots == [] {
      NoTotal(slots);
    } else {
      var m := |slots| / 2 - 1;
      PairsOfPart(slots, m);
      PairsTotal(slots[..2 * m]);
      LastPair(slots);
    }
  }

  lemma NoTotal(slots: seq<Item>)
    requires slots == []
    ensures RecordTotal(LBtree, slots) == 0
  {
  }

  /** The last pair counts unless it is deleted; keys do not count. */
  lemma LastPair(slots: seq<Item>)
    requires |slots| >= 2 && |slots| % 2 == 0 && slots[|slots| - 2].KeyData? && slots[|slots| - 1].KeyData?
    ensures RecordTotal(LBtree, slots)
         == RecordTotal(LBtree, slots[..|slots| - 2]) + if slots[|slots| - 1].deleted then 0 else 1
  {
    var most := slots[..|slots| - 1];
    assert most[..|most| - 1] == slots[..|slots| - 2];
  }

  lemma {:induction false} EntriesTotal(slots: seq<Item>)
    requires PlainEntries(slots)
    ensures RecordTotal(IBtree, slots) == B.Sum(EntriesOf(slots))
  {
    if slots != [] {
      EntriesOfPart(slots, |slots| - 1);
      EntriesTotal(slots[..|slots| - 1]);
    }
  }

  /** The slots of a leaf page that count: all of a recno page, and the data items that are not
    * deleted of the others. */
  ghost function CountingSlots(kind: Kind, slots: seq<Item>): set<int>
    requires forall i :: 0 <= i < |slots| ==> Leaf(slots[i])
  {
    set i | 0 <= i < |slots| && Counting(kind, i, slots[i])
  }

  predicate Counting(kind: Kind, i: nat, item: Item)
    requires Leaf(item)
  {
    kind == LRecno || (!item.deleted && (kind == LBtree ==> i % 2 == 1))
  }

  lemma LastCounts(kind: Kind, slots: seq<Item>)
    requires slots != [] && Leaf(slots[|slots| - 1])
    ensures var m := |slots| - 1;
            RecordTotal(kind, slots) == RecordTotal(kind, slots[..m]) + if Counting(kind, m, slots[m]) then 1 else 0
  {
  }

  /** `__bam_total` of a leaf page, whatever its kind. */
  lemma {:induction false} LeafTotal(kind: Kind, slots: seq<Item>)
    requires forall i :: 0 <= i < |slots| ==> Leaf(slots[i])
    ensures RecordTotal(kind, slots) == |CountingSlots(kind, slots)|
  {
    hide RecordTotal, Counting, CountingSlots;
    if slots == [] {
      NothingCounts(kind, slots);
    } else {
      var m := |slots| - 1;
      LeafTotal(kind, slots[..m]);
      LastCounts(kind, slots);
      OneMoreCounts(kind, slots);
    }
  }

  lemma OneMoreCounts(kind: Kind, slots: seq<Item>)
    requires slots != [] && forall i :: 0 <= i < |slots| ==> Leaf(slots[i])
    ensures var m := |slots| - 1;
            |CountingSlots(kind, slots)| == |CountingSlots(kind, slots[..m])| + if Counting(kind, m, slots[m]) then 1 else 0
  {
    hide Counting;
    var m := |slots| - 1;
    var most, all := CountingSlots(kind, slots[..m]), CountingSlots(kind, slots);
    assert m !in most;
    assert all == if Counting(kind, m, slots[m]) then most + {m} else most;
  }

  lemma NothingCounts(kind: Kind, slots: seq<Item>)
    requires slots == []
    ensures RecordTotal(kind, slots) == 0 == |CountingSlots(kind, slots)|
  {
  }

  /** And of an internal page: the counts of its entries together. */
  lemma {:induction false} InternalTotal(kind: Kind, slots: seq<Item>)
    requires forall i :: 0 <= i < |slots| ==> slots[i].Child? || slots[i].BigChild? || slots[i].RecnoChild?
    ensures RecordTotal(kind, slots) == B.Sum(seq(|slots|, i requires 0 <= i < |slots| => B.Entry([], slots[i].pgno, slots[i].nrecs)))
  {
    if slots != [] {
      var m := |slots| - 1;
      InternalTotal(kind, slots[..m]);
      var all := seq(|slots|, i requires 0 <= i < |slots| => B.Entry([], slots[i].pgno, slots[i].nrecs));
      assert all[..m] == seq(m, i requires 0 <= i < m => B.Entry([], slots[..m][i].pgno, slots[..m][i].nrecs));
    }
  }

  /** `__bam_total` of a page in a tree with record numbers is the number of live records below
    * the page. */
  lemma TotalBelow(s: B.Store, p: nat, g: Image, lo: B.Bound, hi: B.Bound)
    requires B.Shape(s) && p in s && B.Good(s, p, lo, hi, true) && Readable(g) && s[p] == NodeOf(g)
    ensures RecordTotal(g.kind, Slots(g)) == B.Live(B.InOrder(s, p))
  {
    hide Find, Depth, Total, Onto, Slots, B.Good, B.InOrder, B.Shape, Image.Valid, RecordTotal, B.Live;
    if g.kind == LBtree {
      PairsTotal(Slots(g));
    } else {
      EntriesTotal(Slots(g));
    }
    B.TotalIsLive(s, p, lo, hi);
  }
}
