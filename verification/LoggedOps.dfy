/** The routines that change pages and write the log, and what recovery makes of their log.
  * Whatever sequence of them runs, the log describes an execution: every record meets what its
  * redo and undo rely on, and the pages are what redoing the records makes of the old ones. */
module LoggedOps {
  import opened Bytes
  import opened ItemBytes
  import opened SlottedPage
  import opened PageOps
  import opened PageSplit
  import opened Recovery
  import RecoveryPasses
  import S = SplitCursors

  lemma Extended(base: nat, vs: seq<Disk>, log: seq<Record>, rec: Record)
    requires Execution(base, vs, log) && |vs| == |log| + 1 && Written(vs[|log|], base, rec)
    ensures Execution(base, vs + [Execute(vs[|log|], rec, base + |log| + 1)], log + [rec])
  {
    hide Redo, Touches, CanRedo, Written, Execute;
    WrittenRedoable(vs[|log|], base, rec);
    var vs', log' := vs + [Execute(vs[|log|], rec, base + |log| + 1)], log + [rec];
    forall k | 0 <= k < |log'|
      ensures Written(vs'[k], base, log'[k])
    {
      if k < |log| {
        assert vs'[k] == vs[k] && log'[k] == log[k];
      }
    }
    forall k | 0 <= k < |log'|
      ensures (forall p <- Touches(log'[k]) :: p in vs'[k] && CanRedo(log'[k], p, vs'[k][p])) && vs'[k + 1] == Execute(vs'[k], log'[k], base + k + 1)
    {
      WrittenRedoable(vs'[k], base, log'[k]);
      if k < |log| {
        assert vs'[k] == vs[k] && vs'[k + 1] == vs[k + 1] && log'[k] == log[k];
      }
    }
  }

  /** A record about one page. */
  lemma OneWritten(d: Disk, base: nat, rec: Record, lsn: nat, p: nat)
    requires p in d && Touches(rec) == {p} && Logs(rec, p, d[p]) && !IsNew(rec, p)
    ensures Written(d, base, rec) && Execute(d, rec, lsn) == d[p := Redo(rec, lsn, p, d[p])]
  {
    hide Redo, Logs, CanRedo, Touches;
    LogsRedoable(rec, p, d[p]);
    var e := Execute(d, rec, lsn);
    assert e == d[p := Redo(rec, lsn, p, d[p])];
  }

  lemma LogsRedoable(rec: Record, p: nat, g: Image)
    requires Logs(rec, p, g)
    ensures CanRedo(rec, p, g)
  {
  }

  /** The pages of a file, the log written about them, and all that happened. */
  class File {
    const base: nat
    var pages: Disk
    var log: seq<Record>
    ghost var vs: seq<Disk>

    ghost predicate Valid()
      reads this
    {
      Execution(base, vs, log) && |vs| == |log| + 1 && pages == vs[|log|]
    }

    function NextLsn(): nat
      reads `log
    {
      base + |log| + 1
    }

    constructor (base: nat, pages: Disk)
      requires NOT_LOGGED <= base && forall p <- pages :: pages[p].lsn <= base
      ensures Valid() && this.base == base && this.pages == pages && log == []
    {
      this.base, this.pages, log, vs := base, pages, [], [pages];
    }

    /** A record is written for the change from `was` to the pages as they are. */
    method Write(rec: Record, ghost was: Disk)
      requires Execution(base, vs, log) && |vs| == |log| + 1 && vs[|log|] == was
      requires Written(was, base, rec) && pages == Execute(was, rec, NextLsn())
      modifies `log, `vs
      ensures Valid() && log == old(log) + [rec] && vs == old(vs) + [pages]
    {
      hide Execution, Written, Execute, Redo;
      Extended(base, vs, log, rec);
      vs := vs + [pages];
      log := log + [rec];
    }

    /** `__bam_adjindx`, for an insertion. */
    method CopySlot(p: nat, indx: nat, copy: nat)
      requires Valid() && p in pages && indx <= |pages[p].inp| && copy < |pages[p].inp|
      modifies this
      ensures Valid() && log == old(log) + [Adj(p, old(pages)[p].lsn, indx, copy, true)]
      ensures pages == old(pages)[p := Adjusted(old(pages)[p], indx, copy, true).(lsn := old(NextLsn()))]
    {
      hide Execution, Redo;
      var page := new Page.Of(pages[p]);
      var rec := Adj(p, page.lsn, indx, copy, true);
      ghost var was := pages;
      AdjLogged(rec, NextLsn(), p, pages[p]);
      OneWritten(was, base, rec, NextLsn(), p);
      page.lsn := NextLsn();
      page.AdjIndx(indx, copy, true);
      pages := pages[p := page.Img()];
      Write(rec, was);
    }

    /** `__bam_ditem` of a key slot that shares its item: the slot goes, and the log says from
      * which slot to copy it back. */
    method DeleteSharedKey(p: nat, indx: nat)
      requires Valid() && p in pages && pages[p].Valid() && DupSets(pages[p]) && indx < |pages[p].inp|
      requires CopyIndex(pages[p], indx).Some?
      modifies this
      ensures Valid() && p in pages && pages.Keys == old(pages).Keys
      ensures log == old(log) + [Adj(p, old(pages)[p].lsn, indx, CopyIndex(old(pages)[p], indx).value, false)]
      ensures pages[p].Valid() && Slots(pages[p]) == Remove(Slots(old(pages)[p]), indx)
      ensures forall q <- pages :: q != p ==> pages[q] == old(pages)[q]
    {
      hide Execution, Redo, DupSets, Image.Valid, Slots, Adjusted;
      var g := pages[p];
      var page := new Page.Of(g);
      CopyIndexIffShared(g, indx);
      var copy, freed := page.BamDItem(indx);
      var rec := Adj(p, g.lsn, indx, copy.value, false);
      ghost var was := pages;
      AdjLogged(rec, NextLsn(), p, g);
      OneWritten(was, base, rec, NextLsn(), p);
      SameSlots(page.Img(), NextLsn());
      page.lsn := NextLsn();
      pages := pages[p := page.Img()];
      Write(rec, was);
    }

    /** `__bam_ritem` on a leaf page. */
    method ReplaceItem(p: nat, indx: nat, data: seq<byte>)
      requires Valid() && p in pages && pages[p].Valid() && pages[p].level == LEAFLEVEL
      requires indx < |pages[p].inp| && pages[p].Slot(indx).KeyData? && MayMove(pages[p], indx, KeyData(false, data))
      modifies this
      ensures Valid() && |log| == |old(log)| + 1 && log[..|old(log)|] == old(log)
      ensures pages == old(pages)[p := Replace(old(pages)[p], indx, KeyData(false, data)).(lsn := old(NextLsn()))]
    {
      hide Execution, Redo, Image.Valid, Replace, MayMove, Describes;
      var g := pages[p];
      var page := new Page.Of(g);
      var d, isDeleted := page.RItem(indx, data, false);
      var rec := Repl(p, g.lsn, indx, isDeleted, d);
      ghost var was := pages;
      ReplLogged(rec, NextLsn(), p, g, KeyData(false, data));
      OneWritten(was, base, rec, NextLsn(), p);
      page.lsn := NextLsn();
      pages := pages[p := page.Img()];
      Write(rec, was);
    }

    /** `__bam_irep`: an internal entry is replaced, whichever kind of key the two have. */
    method ReplaceEntry(p: nat, indx: nat, entry: Item) returns (freed: Option<nat>)
      requires Valid() && p in pages && pages[p].Valid() && pages[p].level != LEAFLEVEL
      requires indx < |pages[p].inp| && Replaceable(pages[p].Slot(indx)) && !pages[p].Slot(indx).KeyData?
      requires Replaceable(entry) && !entry.KeyData? && MayMove(pages[p], indx, entry)
      modifies this
      ensures Valid() && |log| == |old(log)| + 1 && log[..|old(log)|] == old(log)
      ensures pages == old(pages)[p := Replace(old(pages)[p], indx, entry).(lsn := old(NextLsn()))]
      ensures freed == match old(pages)[p].Slot(indx) case BigChild(_, _, first, _) => Some(first) case _ => None
    {
      hide Execution, Redo, Image.Valid, Replace, MayMove, Describes, Body, Remade, Fits;
      var g := pages[p];
      var page := new Page.Of(g);
      var d, typeflag;
      d, typeflag, freed := page.IRep(indx, entry);
      var rec := Repl(p, g.lsn, indx, typeflag, d);
      ghost var was := pages;
      ReplLogged(rec, NextLsn(), p, g, entry);
      OneWritten(was, base, rec, NextLsn(), p);
      page.lsn := NextLsn();
      pages := pages[p := page.Img()];
      Write(rec, was);
    }

    /** A cursor delete marks the record. */
    method MarkDeleted(p: nat, indx: nat)
      requires Valid() && p in pages && DataIndex(pages[p], indx) < |pages[p].inp|
      requires pages[p].Ref(DataIndex(pages[p], indx)) >= 0
      requires var item := pages[p].Slot(DataIndex(pages[p], indx)); Leaf(item) && !item.deleted
      modifies this
      ensures Valid() && log == old(log) + [CDel(p, old(pages)[p].lsn, indx)]
      ensures pages == old(pages)[p := Marked(old(pages)[p], indx, true).(lsn := old(NextLsn()))]
      ensures old(pages[p].Valid() && DupSets(pages[p]) && OnStride(pages[p].kind, indx)) ==>
                var g, at := old(pages)[p], if old(pages)[p].kind == LBtree then indx + O_INDX else indx;
                pages[p].Valid() && Slots(pages[p]) == Slots(g)[at := g.Slot(at).(deleted := true)]
    {
      hide Execution, Redo, Image.Valid, DupSets, Slots, Find;
      MarkSlots(pages[p], indx, NextLsn());
      var page := new Page.Of(pages[p]);
      var rec := CDel(p, page.lsn, indx);
      ghost var was := pages;
      MarkLogged(rec, NextLsn(), p, pages[p]);
      OneWritten(was, base, rec, NextLsn(), p);
      var i := if page.kind == LBtree then indx + O_INDX else indx;
      page.heap := page.heap[page.Img().Ref(i) := SetDeleted(page.Img().Slot(i), true)];
      page.lsn := NextLsn();
      pages := pages[p := page.Img()];
      Write(rec, was);
    }

    /** One page of `__bam_adjust`. */
    method AdjustCount(p: nat, indx: nat, adjust: int, isRoot: bool)
      requires Valid() && p in pages && indx < |pages[p].inp| && pages[p].Ref(indx) >= 0
      modifies this
      ensures Valid() && log == old(log) + [CAdjust(p, old(pages)[p].lsn, indx, adjust, isRoot)]
      ensures pages == old(pages)[p := CountAdjusted(old(pages)[p], indx, adjust, isRoot).(lsn := old(NextLsn()))]
      ensures pages[p].prev == old(pages)[p].prev + if isRoot then adjust else 0
      ensures old(pages[p].Valid() && DupSets(pages[p]) && IsInternal(pages[p].kind) && !Leaf(pages[p].Slot(indx))) ==>
                var g := old(pages)[p];
                pages[p].Valid() && Slots(pages[p]) == Slots(g)[indx := g.Slot(indx).(nrecs := g.Slot(indx).nrecs + adjust)]
    {
      hide Execution, Redo, Image.Valid, DupSets, Slots, Find;
      CountedSlots(pages[p], indx, adjust, isRoot, NextLsn());
      var page := new Page.Of(pages[p]);
      var rec := CAdjust(p, page.lsn, indx, adjust, isRoot);
      ghost var was := pages;
      CountLogged(rec, NextLsn(), p, pages[p]);
      OneWritten(was, base, rec, NextLsn(), p);
      page.heap := page.heap[page.Img().Ref(indx) := AdjustItem(page.Img().Slot(indx), adjust)];
      if isRoot {
        page.prev := page.prev + adjust;
      }
      page.lsn := NextLsn();
      pages := pages[p := page.Img()];
      Write(rec, was);
    }

    /** `__bam_relink`: the neighbours of a page are linked to each other, or to the page that
      * takes its place. */
    method Relink(p: nat, newPgno: nat)
      requires Valid() && p in pages && pages[p].prev >= 0 && pages[p].next >= 0
      requires pages[p].next != PGNO_INVALID ==> pages[p].next in pages && pages[pages[p].next].prev == p
      requires pages[p].prev != PGNO_INVALID ==> pages[p].prev in pages && pages[pages[p].prev].next == p
      requires pages[p].prev != pages[p].next
      modifies this
      ensures Valid() && |log| == |old(log)| + 1 && log[..|old(log)|] == old(log)
      ensures var prev, next, n := old(pages)[p].prev, old(pages)[p].next, old(NextLsn());
              && pages.Keys == old(pages).Keys
              && forall q <- pages :: pages[q] ==
                   if q == next && next != PGNO_INVALID
                   then old(pages)[q].(prev := if newPgno == PGNO_INVALID then prev else newPgno, lsn := n)
                   else if q == prev && prev != PGNO_INVALID
                   then old(pages)[q].(next := if newPgno == PGNO_INVALID then next else newPgno, lsn := n)
                   else old(pages)[q]
    {
      hide Execution;
      var prev: nat, next: nat := pages[p].prev, pages[p].next;
      var lsnPrev := if prev != PGNO_INVALID then pages[prev].lsn else ZERO_LSN;
      var lsnNext := if next != PGNO_INVALID then pages[next].lsn else ZERO_LSN;
      var rec := Recovery.Record.Relink(p, newPgno, prev, lsnPrev, next, lsnNext);
      ghost var was := pages;
      var n := NextLsn();
      if next != PGNO_INVALID {
        pages := pages[next := pages[next].(prev := if newPgno == PGNO_INVALID then prev else newPgno, lsn := n)];
      }
      if prev != PGNO_INVALID {
        pages := pages[prev := pages[prev].(next := if newPgno == PGNO_INVALID then next else newPgno, lsn := n)];
      }
      RelinkLogged(was, base, rec, n, pages);
      Write(rec, was);
    }

    /** `__bam_page`: page `cp`, below entry `pindx` of page `pp`, is divided; `rp` is a page from
      * the free list and `rentry` its entry, made by `__bam_pinsert`.  Every cursor refers to
      * the record it referred to. */
    method SplitPage(cp: nat, indx: nat, pp: nat, pindx: nat, rp: nat, rentry: Item, cursors: seq<S.Cursor>)
      returns (split: nat)
      requires Valid() && CanSplit(pages, base, cp, indx, pp, pindx, rp, rentry)
      requires forall i, j :: 0 <= i < j < |cursors| ==> cursors[i] != cursors[j]
      requires forall c <- cursors :: c.pgno != rp
      modifies this, cursors
      ensures Valid() && |log| == |old(log)| + 1 && log[..|old(log)|] == old(log)
      ensures pages.Keys == old(pages).Keys && SplitPoint(old(pages)[cp], split)
      ensures Halves(old(pages)[cp], split, pages[cp], pages[rp])
      ensures Linked(old(pages), pages, cp, rp, old(NextLsn()))
      ensures EntryAdded(old(pages)[pp], pindx + 1, rentry, pages[pp], old(NextLsn()))
      ensures forall q <- pages ::
                && q != cp && q != rp && q != pp && (IsInternal(old(pages)[cp].kind) || q != old(pages)[cp].next)
                ==> pages[q] == old(pages)[q]
      ensures !IsInternal(old(pages)[cp].kind) ==>
                S.Divides(S.Division(cp, PGNO_INVALID, rp, split, false), LeafSlots(old(pages)), LeafSlots(pages))
      ensures !IsInternal(old(pages)[cp].kind) ==> forall c <- cursors :: !c.isRecno ==>
                SameRecord(LeafSlots(old(pages)), LeafSlots(pages), old(c.At()), c.At())
      ensures forall c <- cursors :: c.isRecno ==> c.At() == old(c.At())
    {
      hide Execution, CanSplit, SplitPoint, LeafSlots, Slots, Halves, Linked, EntryAdded, S.Divides, SameRecord;
      ghost var was := pages;
      NoPageZero(pages, base, cp, indx, pp, pindx, rp, rentry);
      split := DividePage(cp, indx, pp, pindx, rp, rentry);
      MoveCursors(S.Division(cp, PGNO_INVALID, rp, split, false), cursors, LeafSlots(was), LeafSlots(pages));
    }

    method DividePage(cp: nat, indx: nat, pp: nat, pindx: nat, rp: nat, rentry: Item) returns (split: nat)
      requires Valid() && CanSplit(pages, base, cp, indx, pp, pindx, rp, rentry)
      modifies this
      ensures Valid() && |log| == |old(log)| + 1 && log[..|old(log)|] == old(log)
      ensures pages.Keys == old(pages).Keys && SplitPoint(old(pages)[cp], split)
      ensures Halves(old(pages)[cp], split, pages[cp], pages[rp])
      ensures Linked(old(pages), pages, cp, rp, old(NextLsn()))
      ensures EntryAdded(old(pages)[pp], pindx + 1, rentry, pages[pp], old(NextLsn()))
      ensures forall q <- pages ::
                && q != cp && q != rp && q != pp && (IsInternal(old(pages)[cp].kind) || q != old(pages)[cp].next)
                ==> pages[q] == old(pages)[q]
      ensures !IsInternal(old(pages)[cp].kind) ==>
                S.Divides(S.Division(cp, PGNO_INVALID, rp, split, false), LeafSlots(old(pages)), LeafSlots(pages))
    {
      hide Execution, Redo, Image.Valid, DupSets, OneKey, Divisible, SplitPoint, Copied, LeftPage, RightPage, SplitImage, Size, LeafSlots, Slots, Halves, Linked, EntryAdded, S.Divides;
      ghost var was := pages;
      var g := pages[cp];
      var internal := IsInternal(g.kind);
      var npgno: nat := if internal then PGNO_INVALID else g.next;
      var nlsn := if npgno != PGNO_INVALID then pages[npgno].lsn else ZERO_LSN;
      var left, right;
      split, left, right := Halve(g, indx,
        Fresh(g.size, 0, cp, if internal then 0 else g.prev, if internal then 0 else rp, g.level, g.kind),
        Fresh(g.size, 0, rp, if internal then 0 else cp, if internal then 0 else g.next, g.level, g.kind));
      var rec := Recovery.Record.Split(cp, g.lsn, rp, pages[rp].lsn, split, npgno, nlsn, pp, pages[pp].lsn, pindx, g,
                                       rentry, rentry, false, false);
      HalvesLogged(rec, left, right);
      ghost var n := NextLsn();
      WriteSplit(rec, left, right);
      SplitEffect(was, base, rec, n, left, right);
      if !internal {
        SplitDivides(was, rec, n, left, right, pages);
      }
    }

    /** The pages of a split change together, under one record. */
    method WriteSplit(rec: Record, left: Image, right: Image)
      requires Valid() && rec.Split? && SplitReady(pages, base, rec) && left == LeftPage(rec) && right == RightPage(rec)
      modifies this
      ensures Valid() && log == old(log) + [rec] && pages == Divided(old(pages), rec, old(NextLsn()), left, right)
    {
      hide Execution, Redo, Image.Valid, DupSets, Copied, LeftPage, RightPage, SplitImage, Size;
      ghost var was := pages;
      var n := NextLsn();
      var parent := RecoveryPasses.WithEntry(pages[rec.ppgno], rec.pindx + 1, rec.rentry);
      pages := pages[rec.ppgno := parent.(lsn := n)][rec.left := left.(lsn := n)][rec.right := right.(lsn := n)];
      if rec.npgno != PGNO_INVALID {
        pages := pages[rec.npgno := pages[rec.npgno].(prev := rec.right, lsn := n)];
      }
      SplitLogged(was, base, rec, n, left, right);
      Write(rec, was);
    }

    /** `__bam_root`: the contents of the root go to two pages `lp` and `rp` from the free list, and
      * the root becomes their parent.  The entries are made by `__bam_broot` or `__ram_root`. */
    method SplitRoot(root: nat, indx: nat, lp: nat, rp: nat, pentry: Item, rentry: Item, recno: bool, nrecs: bool,
                     cursors: seq<S.Cursor>)
      returns (split: nat)
      requires Valid() && CanSplitRoot(pages, base, root, indx, lp, rp, pentry, rentry)
      requires forall i, j :: 0 <= i < j < |cursors| ==> cursors[i] != cursors[j]
      requires forall c <- cursors :: c.pgno != rp && c.pgno != lp
      modifies this, cursors
      ensures Valid() && |log| == |old(log)| + 1 && log[..|old(log)|] == old(log)
      ensures pages.Keys == old(pages).Keys && SplitPoint(old(pages)[root], split)
      ensures Halves(old(pages)[root], split, pages[lp], pages[rp])
      ensures TwoLeaves(old(pages)[root], lp, pages[lp], rp, pages[rp], old(NextLsn()))
      ensures RootMade(old(pages)[root], pentry, rentry, recno, nrecs, pages[root], old(NextLsn()))
      ensures forall q <- pages :: q != root && q != lp && q != rp ==> pages[q] == old(pages)[q]
      ensures !IsInternal(old(pages)[root].kind) ==>
                S.Divides(S.Division(root, lp, rp, split, true), LeafSlots(old(pages)), LeafSlots(pages))
      ensures !IsInternal(old(pages)[root].kind) ==> forall c <- cursors :: !c.isRecno ==>
                SameRecord(LeafSlots(old(pages)), LeafSlots(pages), old(c.At()), c.At())
      ensures forall c <- cursors :: c.isRecno ==> c.At() == old(c.At())
    {
      hide Execution, CanSplitRoot, SplitPoint, LeafSlots, Slots, Halves, TwoLeaves, RootMade, S.Divides, SameRecord;
      ghost var was := pages;
      split := DivideRoot(root, indx, lp, rp, pentry, rentry, recno, nrecs);
      MoveCursors(S.Division(root, lp, rp, split, true), cursors, LeafSlots(was), LeafSlots(pages));
    }

    method DivideRoot(root: nat, indx: nat, lp: nat, rp: nat, pentry: Item, rentry: Item, recno: bool, nrecs: bool)
      returns (split: nat)
      requires Valid() && CanSplitRoot(pages, base, root, indx, lp, rp, pentry, rentry)
      modifies this
      ensures Valid() && |log| == |old(log)| + 1 && log[..|old(log)|] == old(log)
      ensures pages.Keys == old(pages).Keys && SplitPoint(old(pages)[root], split)
      ensures Halves(old(pages)[root], split, pages[lp], pages[rp])
      ensures TwoLeaves(old(pages)[root], lp, pages[lp], rp, pages[rp], old(NextLsn()))
      ensures RootMade(old(pages)[root], pentry, rentry, recno, nrecs, pages[root], old(NextLsn()))
      ensures forall q <- pages :: q != root && q != lp && q != rp ==> pages[q] == old(pages)[q]
      ensures !IsInternal(old(pages)[root].kind) ==>
                S.Divides(S.Division(root, lp, rp, split, true), LeafSlots(old(pages)), LeafSlots(pages))
    {
      hide Execution, Redo, Image.Valid, DupSets, OneKey, Divisible, SplitPoint, Copied, LeftPage, RightPage, SplitImage, NewRoot, Size, LeafSlots, Slots, Halves, RootMade, TwoLeaves, S.Divides;
      ghost var was := pages;
      var g := pages[root];
      var internal := IsInternal(g.kind);
      var left, right;
      split, left, right := Halve(g, indx,
        Fresh(g.size, 0, lp, 0, if internal then 0 else rp, g.level, g.kind),
        Fresh(g.size, 0, rp, if internal then 0 else lp, 0, g.level, g.kind));
      var rec := Recovery.Record.Split(lp, pages[lp].lsn, rp, pages[rp].lsn, split, PGNO_INVALID, ZERO_LSN,
                                       root, g.lsn, 0, g, pentry, rentry, recno, nrecs);
      HalvesLogged(rec, left, right);
      ghost var n := NextLsn();
      WriteRootSplit(rec, left, right);
      RootSplitEffect(rec, n, left, right, pages);
      if !internal {
        RootSplitDivides(was, rec, n, left, right, pages);
      }
    }

    method WriteRootSplit(rec: Record, left: Image, right: Image)
      requires Valid() && rec.Split? && RootReady(pages, base, rec) && left == LeftPage(rec) && right == RightPage(rec)
      modifies this
      ensures Valid() && log == old(log) + [rec] && pages.Keys == old(pages).Keys
      ensures pages == old(pages)[rec.ppgno := pages[rec.ppgno]][rec.left := left.(lsn := old(NextLsn()))]
                                 [rec.right := right.(lsn := old(NextLsn()))]
      ensures SplitImage(rec) && rec.pindx == 0 && pages[rec.ppgno] == NewRoot(rec).(lsn := old(NextLsn()))
      ensures IsInternal(pages[rec.ppgno].kind)
    {
      hide Execution, Redo, Image.Valid, DupSets, Copied, LeftPage, RightPage, SplitImage, Size;
      ghost var was := pages;
      var n := NextLsn();
      HalvesValid(rec);
      var rootp := BRoot(rec.pg.size, rec.ppgno, left, right, rec.pentry, rec.rentry, rec.recno, rec.nrecs);
      RootLogged(rec, left, right, rootp);
      pages := pages[rec.ppgno := rootp.(lsn := n)][rec.left := left.(lsn := n)][rec.right := right.(lsn := n)];
      RootSplitLogged(was, base, rec, n, left, right, pages);
      Write(rec, was);
    }

    // ---- Crashes ----

    /** Each page may have reached the disk after any number of its updates, independently of
      * the others. */
    ghost predicate CrashState(d: Disk, at: map<nat, nat>)
      reads this
    {
      && |vs| > 0 && at.Keys == vs[0].Keys && d.Keys == vs[0].Keys
      && forall p <- d :: at[p] < |vs| && p in vs[at[p]] && d[p] == vs[at[p]][p]
    }

    /** Whatever was done to the file, the redo pass brings any crash state back to what the
      * routines had made of the pages. */
    method Redone(d: Disk, ghost at: map<nat, nat>) returns (s: RecoveryPasses.Store)
      requires Valid() && CrashState(d, at)
      ensures s.pages == pages
    {
      hide Execution;
      s := new RecoveryPasses.Store(d);
      RecoveryPasses.AnyCrashState(vs, log, at, d);
      var ok := s.RedoPass(ForwardRoll, base, log, vs, at);
    }

    /** And the undo pass brings every page that is not from the free list back to what it was
      * before the log. */
    method Undone(d: Disk, ghost at: map<nat, nat>) returns (s: RecoveryPasses.Store)
      requires Valid() && CrashState(d, at)
      ensures s.pages.Keys == vs[0].Keys
      ensures forall p <- s.pages :: (forall i :: 0 <= i < |log| ==> !IsNew(log[i], p)) ==> s.pages[p] == vs[0][p]
    {
      hide Execution;
      s := new RecoveryPasses.Store(d);
      RecoveryPasses.AnyCrashState(vs, log, at, d);
      var ok := s.UndoPass(BackwardRoll, base, log, 0, vs, at);
      forall p <- s.pages | forall i :: 0 <= i < |log| ==> !IsNew(log[i], p)
        ensures s.pages[p] == vs[0][p]
      {
        RecoveryPasses.UndoRestores(vs, log, at, s.pages, p);
      }
    }
  }

  /** `__bam_broot` and `__ram_root`. */
  method BRoot(size: nat, root: nat, left: Image, right: Image, pentry: Item, rentry: Item, recno: bool, nrecs: bool)
    returns (rootp: Image)
    requires left.Valid() && right.Valid() && Size(pentry) + Size(rentry) + SIZEOF_PAGE + 2 <= size
    ensures rootp == NewParent(size, root, left, right, pentry, rentry, recno, nrecs)
  {
    hide Size, Image.Valid, RecordTotal, Slots, Put;
    var page := new Page.Init(size, 0, root, 0, 0, left.level + 1, if recno then IRecno else IBtree);
    if nrecs {
      var l := RecoveryPasses.TotalRecords(left);
      var r := RecoveryPasses.TotalRecords(right);
      page.prev := l + r;
    }
    EntryFits(page.Img(), pentry);
    rootp := RecoveryPasses.WithEntry(page.Img(), 0, pentry);
    rootp := RecoveryPasses.WithEntry(rootp, 1, rentry);
  }

  /** An entry on an empty page, and the room that is left. */
  lemma EntryFits(g: Image, item: Item)
    requires g.inp == [] && g.hoffset == g.size
    ensures g.FreeSpace() == g.size - SIZEOF_PAGE
    ensures |Put(g, 0, item).inp| == 1 && Put(g, 0, item).FreeSpace() == g.size - SIZEOF_PAGE - Size(item) - 2
  {
    hide Size;
  }

  /** `__bam_psplit` onto two blank pages. */
  method Halve(g: Image, indx: nat, lp: Image, rp: Image) returns (split: nat, left: Image, right: Image)
    requires g.Valid() && DupSets(g) && TwoRecords(g) && g.size <= MAX_PGSIZE
    requires (g.kind == LBtree ==> !OneKey(g)) && Divisible(g, indx) && lp.inp == [] && rp.inp == []
    ensures SplitPoint(g, split)
    ensures left == Copied(g, lp, 0, split) && right == Copied(g, rp, split, |g.inp| - split)
  {
    hide Image.Valid, DupSets, OneKey, Divisible, Chosen, Copied, SplitPoint;
    var page := new Page.Of(g);
    var lpage := new Page.Of(lp);
    var rpage := new Page.Of(rp);
    ghost var off, splitp;
    split, off, splitp := PSplit(page, indx, lpage, rpage);
    left, right := lpage.Img(), rpage.Img();
  }

  // ---- Splits ----

  /** The slots of the leaf pages of a file. */
  ghost function LeafSlots(d: Disk): (m: map<nat, seq<Item>>)
    ensures forall p :: p in m <==> p in d && d[p].Valid() && !IsInternal(d[p].kind)
    ensures forall p <- m :: m[p] == Slots(d[p])
  {
    map p | p in d && d[p].Valid() && !IsInternal(d[p].kind) :: Slots(d[p])
  }

  /** A cursor that refers to a record refers to the same one afterwards. */
  ghost predicate SameRecord(before: map<nat, seq<Item>>, after: map<nat, seq<Item>>, s: S.Spot, t: S.Spot) {
    s.pgno in before && s.indx < |before[s.pgno]| ==>
      t.pgno in after && t.indx < |after[t.pgno]| && after[t.pgno][t.indx] == before[s.pgno][s.indx]
  }

  lemma Follows(d: S.Division, before: map<nat, seq<Item>>, after: map<nat, seq<Item>>, s: S.Spot)
    requires S.Divides(d, before, after) && s.pgno != d.right && (d.left in before ==> s.pgno != d.left)
    ensures SameRecord(before, after, s, S.AfterSplit(d, s))
  {
    if s.pgno in before && s.indx < |before[s.pgno]| {
      S.SameRecord(d, before, after, s);
    }
  }

  /** The cursors after a split; `before` and `after` are the slots of the leaves. */
  method MoveCursors(d: S.Division, cursors: seq<S.Cursor>,
                     ghost before: map<nat, seq<Item>>, ghost after: map<nat, seq<Item>>)
    requires forall i, j :: 0 <= i < j < |cursors| ==> cursors[i] != cursors[j]
    requires forall c <- cursors :: c.pgno != d.right && (d.left in before ==> c.pgno != d.left)
    modifies cursors
    ensures S.Divides(d, before, after) ==> forall c <- cursors :: !c.isRecno ==>
              SameRecord(before, after, old(c.At()), c.At())
    ensures forall c <- cursors :: c.isRecno ==> c.At() == old(c.At())
  {
    hide SameRecord, S.Divides;
    S.CaSplit(d, cursors);
    if S.Divides(d, before, after) {
      forall c | c in cursors && !c.isRecno
        ensures SameRecord(before, after, old(c.At()), c.At())
      {
        Follows(d, before, after, old(c.At()));
      }
    }
  }

  /** Two pages that hold the slots of a page in order; the first key of a right internal page is
    * blank. */
  ghost predicate Halves(g: Image, split: nat, left: Image, right: Image) {
    && g.Valid() && left.Valid() && right.Valid() && DupSets(left) && DupSets(right) && split < |g.inp|
    && left.size == g.size && left.kind == g.kind && left.level == g.level
    && right.size == g.size && right.kind == g.kind && right.level == g.level
    && |left.inp| == split && |right.inp| == |g.inp| - split
    && Slots(left) + [Slots(g)[split]] + Slots(right)[1..] == Slots(g)
    && Slots(right)[0] == CopiedItem(g.kind, Slots(g)[split], true)
  }

  /** A leaf's new neighbour stands behind it; internal pages are not linked. */
  ghost predicate Linked(was: Disk, now: Disk, cp: nat, rp: nat, lsn: nat) {
    && cp in was && cp in now && rp in now
    && now[cp].pgno == cp && now[rp].pgno == rp && now[cp].lsn == lsn && now[rp].lsn == lsn
    && if IsInternal(was[cp].kind) then
         && now[cp].prev == PGNO_INVALID && now[cp].next == PGNO_INVALID
         && now[rp].prev == PGNO_INVALID && now[rp].next == PGNO_INVALID
       else
         && now[cp].prev == was[cp].prev && now[cp].next == rp
         && now[rp].prev == cp && now[rp].next == was[cp].next
         && (was[cp].next != PGNO_INVALID ==>
               && was[cp].next in was && was[cp].next in now
               && now[was[cp].next] == was[was[cp].next].(prev := rp, lsn := lsn))
  }

  /** The parent of a split gets one slot more. */
  ghost predicate EntryAdded(g: Image, indx: nat, entry: Item, now: Image, lsn: nat) {
    && g.Valid() && now.Valid() && indx <= |g.inp|
    && Slots(now) == Insert(Slots(g), indx, entry)
    && now == g.(lsn := lsn, inp := now.inp, hoffset := now.hoffset, heap := now.heap)
  }

  /** The halves of a root that is a leaf are linked to each other. */
  ghost predicate TwoLeaves(g: Image, lp: nat, left: Image, rp: nat, right: Image, lsn: nat) {
    && left.pgno == lp && right.pgno == rp && left.lsn == lsn && right.lsn == lsn
    && left.prev == PGNO_INVALID && right.next == PGNO_INVALID
    && left.next == (if IsInternal(g.kind) then PGNO_INVALID else rp)
    && right.prev == (if IsInternal(g.kind) then PGNO_INVALID else lp)
  }

  /** The root has two entries and stands one level higher; with record numbers it holds the
    * total of the page it was. */
  ghost predicate RootMade(g: Image, pentry: Item, rentry: Item, recno: bool, nrecs: bool, now: Image, lsn: nat) {
    && g.Valid() && now.Valid() && Slots(now) == [pentry, rentry]
    && now.size == g.size && now.pgno == g.pgno && now.lsn == lsn
    && now.level == g.level + 1 && now.kind == (if recno then IRecno else IBtree)
    && now.next == 0 && now.prev == if nrecs then RecordTotal(g.kind, Slots(g)) else 0
  }

  /** What `__bam_split` has found before it divides a page. */
  ghost predicate CanSplit(d: Disk, base: nat, cp: nat, indx: nat, pp: nat, pindx: nat, rp: nat, rentry: Item) {
    && PGNO_INVALID !in d && cp in d && pp in d && rp in d && cp != pp && cp != rp && pp != rp
    && d[rp].lsn <= base
    && d[cp].Valid() && d[cp].pgno == cp && DupSets(d[cp]) && TwoRecords(d[cp]) && d[cp].size <= MAX_PGSIZE
    && (d[cp].kind == LBtree ==> !OneKey(d[cp])) && Divisible(d[cp], indx)
    && d[pp].Valid() && IsInternal(d[pp].kind) && pindx < |d[pp].inp| && Size(rentry) + 2 <= d[pp].FreeSpace()
    && (!IsInternal(d[cp].kind) ==>
          && d[cp].prev >= 0 && d[cp].next >= 0
          && (d[cp].next != PGNO_INVALID ==>
                && d[cp].next in d && d[d[cp].next].prev == cp
                && d[cp].next != cp && d[cp].next != pp && d[cp].next != rp))
  }

  lemma NoPageZero(d: Disk, base: nat, cp: nat, indx: nat, pp: nat, pindx: nat, rp: nat, rentry: Item)
    requires CanSplit(d, base, cp, indx, pp, pindx, rp, rentry)
    ensures PGNO_INVALID !in d
  {
  }

  /** The pages that `__bam_psplit` leaves are those that recovery builds from the log. */
  lemma HalvesLogged(rec: Record, left: Image, right: Image)
    requires rec.Split? && rec.pg.Valid() && DupSets(rec.pg) && SplitPoint(rec.pg, rec.indx)
    requires var sp, internal := rec.pg, IsInternal(rec.pg.kind);
             && left == Copied(sp,
                  if RootSplit(rec)
                  then Fresh(sp.size, 0, rec.left, 0, if internal then 0 else rec.right, sp.level, sp.kind)
                  else Fresh(sp.size, 0, sp.pgno, if internal then 0 else sp.prev, if internal then 0 else rec.right,
                             sp.level, sp.kind), 0, rec.indx)
             && right == Copied(sp,
                  if RootSplit(rec)
                  then Fresh(sp.size, 0, rec.right, if internal then 0 else rec.left, 0, sp.level, sp.kind)
                  else Fresh(sp.size, 0, rec.right, if internal then 0 else sp.pgno, if internal then 0 else sp.next,
                             sp.level, sp.kind), rec.indx, |sp.inp| - rec.indx)
    ensures SplitImage(rec) && LeftPage(rec) == left && RightPage(rec) == right
  {
    hide Copied, DupSets, Image.Valid, SplitPoint;
  }

  /** What a record of a split below the root finds. */
  ghost predicate SplitReady(d: Disk, base: nat, rec: Record)
    requires rec.Split?
  {
    && !RootSplit(rec) && SplitImage(rec)
    && rec.left in d && rec.right in d && rec.ppgno in d
    && rec.left == rec.pg.pgno && d[rec.left] == rec.pg
    && rec.left != rec.right && rec.ppgno != rec.right && rec.ppgno != rec.left
    && rec.npgno != rec.left && rec.npgno != rec.right && rec.npgno != rec.ppgno
    && (rec.npgno != PGNO_INVALID ==> rec.npgno in d && d[rec.npgno].prev == rec.left && d[rec.npgno].lsn == rec.nlsn)
    && d[rec.left].lsn == rec.llsn && d[rec.right].lsn == rec.rlsn && d[rec.ppgno].lsn == rec.plsn
    && d[rec.right].lsn <= base
    && d[rec.ppgno].Valid() && rec.pindx < |d[rec.ppgno].inp| && Size(rec.rentry) <= d[rec.ppgno].FreeSpace()
  }

  /** The pages after a split below the root. */
  ghost function Divided(d: Disk, rec: Record, lsn: nat, left: Image, right: Image): Disk
    requires rec.Split? && rec.ppgno in d && rec.pindx < |d[rec.ppgno].inp|
    requires rec.npgno != PGNO_INVALID ==> rec.npgno in d
  {
    var halves := d[rec.ppgno := Put(d[rec.ppgno], rec.pindx + 1, rec.rentry).(lsn := lsn)]
                   [rec.left := left.(lsn := lsn)][rec.right := right.(lsn := lsn)];
    if rec.npgno == PGNO_INVALID then halves
    else halves[rec.npgno := d[rec.npgno].(prev := rec.right, lsn := lsn)]
  }

  /** What the copies of a page hold. */
  lemma CopiesHalve(g: Image, lp: Image, rp: Image, split: nat, lsn: nat)
    requires g.Valid() && DupSets(g) && SplitPoint(g, split)
    requires lp == Fresh(g.size, 0, lp.pgno, lp.prev, lp.next, g.level, g.kind)
    requires rp == Fresh(g.size, 0, rp.pgno, rp.prev, rp.next, g.level, g.kind)
    ensures var l, r := Copied(g, lp, 0, split).(lsn := lsn), Copied(g, rp, split, |g.inp| - split).(lsn := lsn);
            && Halves(g, split, l, r)
            && l.pgno == lp.pgno && l.prev == lp.prev && l.next == lp.next
            && r.pgno == rp.pgno && r.prev == rp.prev && r.next == rp.next
  {
    hide Find, Depth, Total, Onto, Copied, CopiedItem, Slots, DupSets, Image.Valid;
    CopyConserves(g, lp, 0, split);
    CopyConserves(g, rp, split, |g.inp| - split);
    SplitConserves(g, lp, rp, split);
    var l, r := Copied(g, lp, 0, split), Copied(g, rp, split, |g.inp| - split);
    MovedHeader(l, l.prev, lsn);
    MovedHeader(r, r.prev, lsn);
    SameDupSets(l, lsn);
    SameDupSets(r, lsn);
  }

  lemma Unstamped(g: Image, split: nat, left: Image, right: Image, lsn: nat)
    requires left.Valid() && right.Valid() && DupSets(left) && DupSets(right)
    requires Halves(g, split, left.(lsn := lsn), right.(lsn := lsn))
    ensures Halves(g, split, left, right)
  {
    hide Find, Depth, Total, Onto, CopiedItem, Slots, DupSets, Image.Valid;
    MovedHeader(left, left.prev, lsn);
    MovedHeader(right, right.prev, lsn);
  }

  lemma SameDupSets(g: Image, lsn: nat)
    requires DupSets(g)
    ensures DupSets(g.(lsn := lsn))
  {
  }

  lemma EntryPut(g: Image, indx: nat, entry: Item, lsn: nat)
    requires g.Valid() && indx <= |g.inp| && Size(entry) + 2 <= g.FreeSpace()
    ensures EntryAdded(g, indx, entry, Put(g, indx, entry).(lsn := lsn), lsn)
  {
    hide Find, Depth, Total, Onto, Slots, Size, Image.Valid;
    PutSlots(g, indx, entry);
    var p := Put(g, indx, entry);
    MovedHeader(p, p.prev, lsn);
  }

  lemma SplitEffect(was: Disk, base: nat, rec: Record, lsn: nat, left: Image, right: Image)
    requires rec.Split? && SplitReady(was, base, rec) && left == LeftPage(rec) && right == RightPage(rec)
    requires rec.npgno == (if IsInternal(rec.pg.kind) then PGNO_INVALID else rec.pg.next)
    requires Size(rec.rentry) + 2 <= was[rec.ppgno].FreeSpace()
    ensures var now := Divided(was, rec, lsn, left, right);
            && Halves(rec.pg, rec.indx, now[rec.left], now[rec.right])
            && Linked(was, now, rec.left, rec.right, lsn)
            && EntryAdded(was[rec.ppgno], rec.pindx + 1, rec.rentry, now[rec.ppgno], lsn)
  {
    hide Find, Depth, Total, Onto, Copied, DupSets, Image.Valid, Slots, Size, Put, EntryAdded, Halves, SplitPoint;
    LeafSplitBlanks(rec);
    CopiesHalve(rec.pg, LeftBlank(rec), RightBlank(rec), rec.indx, lsn);
    EntryPut(was[rec.ppgno], rec.pindx + 1, rec.rentry, lsn);
  }

  lemma {:induction false} TotalAdds(kind: Kind, a: seq<Item>, b: seq<Item>)
    requires kind == LBtree ==> |a| % 2 == 0
    ensures RecordTotal(kind, a + b) == RecordTotal(kind, a) + RecordTotal(kind, b)
  {
    if b == [] {
      assert a + b == a;
    } else {
      var m := |b| - 1;
      assert (a + b)[..|a| + m] == a + b[..m];
      TotalAdds(kind, a, b[..m]);
    }
  }

  /** A blanked key does not change the number of records below its entry. */
  lemma {:induction false} TotalBlanked(kind: Kind, x: Item, b: seq<Item>)
    ensures RecordTotal(kind, [CopiedItem(kind, x, true)] + b) == RecordTotal(kind, [x] + b)
  {
    var u, v := [CopiedItem(kind, x, true)] + b, [x] + b;
    var m := |b|;
    if b == [] {
      assert u[..0] == [] && v[..0] == [];
    } else {
      assert u[..m] == [CopiedItem(kind, x, true)] + b[..m - 1];
      assert v[..m] == [x] + b[..m - 1];
      TotalBlanked(kind, x, b[..m - 1]);
    }
  }

  /** No record is lost from the totals when a page is divided. */
  lemma TotalOfHalves(g: Image, split: nat, left: Image, right: Image)
    requires Halves(g, split, left, right) && OnStride(g.kind, split)
    ensures RecordTotal(left.kind, Slots(left)) + RecordTotal(right.kind, Slots(right)) == RecordTotal(g.kind, Slots(g))
  {
    hide Image.Valid, Slots, RecordTotal, CopiedItem, DupSets;
    TotalOfParts(g.kind, Slots(left), Slots(g)[split], Slots(right));
  }

  lemma TotalOfParts(kind: Kind, left: seq<Item>, x: Item, right: seq<Item>)
    requires right != [] && right[0] == CopiedItem(kind, x, true) && (kind == LBtree ==> |left| % 2 == 0)
    ensures RecordTotal(kind, left) + RecordTotal(kind, right) == RecordTotal(kind, left + [x] + right[1..])
  {
    hide RecordTotal, CopiedItem;
    var rest := right[1..];
    assert right == [CopiedItem(kind, x, true)] + rest;
    TotalBlanked(kind, x, rest);
    TotalAdds(kind, left, [x] + rest);
    assert left + [x] + rest == left + ([x] + rest);
  }

  lemma NewRootIs(rec: Record, left: Image, right: Image, lsn: nat)
    requires rec.Split? && SplitImage(rec) && RootSplit(rec) && rec.pindx == 0
    requires left == LeftPage(rec) && right == RightPage(rec) && left.Valid() && right.Valid()
    requires Halves(rec.pg, rec.indx, left, right) && OnStride(rec.pg.kind, rec.indx)
    requires Size(rec.pentry) + Size(rec.rentry) + SIZEOF_PAGE + 2 * 2 <= rec.pg.size
    ensures RootMade(rec.pg, rec.pentry, rec.rentry, rec.recno, rec.nrecs, NewRoot(rec).(lsn := lsn), lsn)
  {
    hide Find, Depth, Total, Onto, DupSets, Image.Valid, Slots, Size, Put, RecordTotal, LeftPage, RightPage, SplitImage;
    TotalOfHalves(rec.pg, rec.indx, left, right);
    var blank := Fresh(rec.pg.size, 0, rec.pg.pgno, 0, 0, rec.pg.level + 1, if rec.recno then IRecno else IBtree);
    var root := if rec.nrecs then blank.(prev := RecordTotal(rec.pg.kind, Slots(rec.pg))) else blank;
    BlankRoot(root, rec.pentry, rec.rentry);
    EntryFits(root, rec.pentry);
    var made := Put(Put(root, 0, rec.pentry), 1, rec.rentry);
    MovedHeader(made, made.prev, lsn);
  }

  lemma BlankRoot(g: Image, pentry: Item, rentry: Item)
    requires g.inp == [] && g.heap == [] && g.hoffset == g.size
    requires Size(pentry) + Size(rentry) + SIZEOF_PAGE + 2 * 2 <= g.size
    ensures var made := Put(Put(g, 0, pentry), 1, rentry);
            && made.Valid() && Slots(made) == [pentry, rentry]
            && made == g.(inp := made.inp, hoffset := made.hoffset, heap := made.heap)
  {
    hide Find, Depth, Total, Refs, Slots, Size, Put;
    NoHeap(g);
    EntryFits(g, pentry);
    PutSlots(g, 0, pentry);
    PutSlots(Put(g, 0, pentry), 1, rentry);
    PutHeader(g, 0, pentry);
    PutHeader(Put(g, 0, pentry), 1, rentry);
  }

  lemma PutHeader(g: Image, indx: nat, item: Item)
    requires indx <= |g.inp|
    ensures var p := Put(g, indx, item); p == g.(inp := p.inp, hoffset := p.hoffset, heap := p.heap)
  {
  }

  lemma NoHeap(g: Image)
    requires g.inp == [] && g.heap == [] && g.hoffset == g.size && g.size >= SIZEOF_PAGE
    ensures g.Valid() && Slots(g) == []
  {
    OntoNothing(0);
    assert Refs(g) == [];
  }

  lemma StrideOf(g: Image, split: nat)
    requires g.Valid() && SplitPoint(g, split)
    ensures OnStride(g.kind, split)
  {
  }

  lemma RootSplitEffect(rec: Record, lsn: nat, left: Image, right: Image, now: Disk)
    requires rec.Split? && SplitImage(rec) && RootSplit(rec) && rec.pindx == 0
    requires left == LeftPage(rec) && right == RightPage(rec)
    requires rec.left in now && rec.right in now && rec.ppgno in now
    requires now[rec.left] == left.(lsn := lsn) && now[rec.right] == right.(lsn := lsn)
    requires now[rec.ppgno] == NewRoot(rec).(lsn := lsn)
    requires Size(rec.pentry) + Size(rec.rentry) + SIZEOF_PAGE + 2 * 2 <= rec.pg.size
    ensures Halves(rec.pg, rec.indx, now[rec.left], now[rec.right])
    ensures TwoLeaves(rec.pg, rec.left, now[rec.left], rec.right, now[rec.right], lsn)
    ensures RootMade(rec.pg, rec.pentry, rec.rentry, rec.recno, rec.nrecs, now[rec.ppgno], lsn)
  {
    hide Find, Depth, Total, Onto, Copied, DupSets, Image.Valid, Slots, Size, Put, Halves, SplitPoint, RecordTotal, NewRoot;
    LeafSplitBlanks(rec);
    CopiesHalve(rec.pg, LeftBlank(rec), RightBlank(rec), rec.indx, lsn);
    SplitPages(rec);
    StrideOf(rec.pg, rec.indx);
    Unstamped(rec.pg, rec.indx, left, right, lsn);
    NewRootIs(rec, left, right, lsn);
  }

  lemma SplitLogged(was: Disk, base: nat, rec: Record, lsn: nat, left: Image, right: Image)
    requires rec.Split? && SplitReady(was, base, rec) && left == LeftPage(rec) && right == RightPage(rec)
    ensures Written(was, base, rec) && Divided(was, rec, lsn, left, right) == Execute(was, rec, lsn)
  {
    hide SplitImage, LeftPage, RightPage, Put, Size, Image.Valid, Find;
    var now := Divided(was, rec, lsn, left, right);
    forall q <- Touches(rec)
      ensures q in was && Logs(rec, q, was[q]) && (IsNew(rec, q) ==> was[q].lsn <= base)
      ensures Redo(rec, lsn, q, was[q]) == now[q]
    {
    }
    hide Redo, Logs;
    var e := Execute(was, rec, lsn);
    assert now.Keys == e.Keys;
    forall q <- now
      ensures now[q] == e[q]
    {
    }
  }

  /** A parent of two pages. */
  ghost function NewParent(size: nat, root: nat, left: Image, right: Image, pentry: Item, rentry: Item,
                           recno: bool, nrecs: bool): Image
    requires left.Valid() && right.Valid()
  {
    var blank := Fresh(size, 0, root, 0, 0, left.level + 1, if recno then IRecno else IBtree);
    var total := RecordTotal(left.kind, Slots(left)) + RecordTotal(right.kind, Slots(right));
    Put(Put(if nrecs then blank.(prev := total) else blank, 0, pentry), 1, rentry)
  }

  /** What `__bam_root` finds. */
  ghost predicate CanSplitRoot(d: Disk, base: nat, root: nat, indx: nat, lp: nat, rp: nat, pentry: Item, rentry: Item) {
    && PGNO_INVALID !in d && root in d && lp in d && rp in d && root != lp && root != rp && lp != rp
    && d[lp].lsn <= base && d[rp].lsn <= base
    && d[root].Valid() && d[root].pgno == root && DupSets(d[root]) && TwoRecords(d[root]) && d[root].size <= MAX_PGSIZE
    && (d[root].kind == LBtree ==> !OneKey(d[root])) && Divisible(d[root], indx)
    && Size(pentry) + Size(rentry) + SIZEOF_PAGE + 2 * 2 <= d[root].size
  }

  /** What a record of a root split finds. */
  ghost predicate RootReady(d: Disk, base: nat, rec: Record)
    requires rec.Split?
  {
    && RootSplit(rec) && SplitImage(rec) && rec.pindx == 0 && RootFits(rec) && rec.npgno == PGNO_INVALID
    && rec.left in d && rec.right in d && rec.ppgno in d && PGNO_INVALID !in d
    && d[rec.ppgno] == rec.pg
    && rec.left != rec.right && rec.ppgno != rec.right && rec.ppgno != rec.left
    && d[rec.left].lsn == rec.llsn && d[rec.right].lsn == rec.rlsn
    && d[rec.left].lsn <= base && d[rec.right].lsn <= base
  }

  lemma HalvesValid(rec: Record)
    requires SplitImage(rec)
    ensures LeftPage(rec).Valid() && RightPage(rec).Valid()
  {
    hide Image.Valid, LeftPage, RightPage, SplitImage;
    SplitPages(rec);
  }

  lemma RootLogged(rec: Record, left: Image, right: Image, rootp: Image)
    requires SplitImage(rec) && RootSplit(rec) && rec.pindx == 0 && left == LeftPage(rec) && right == RightPage(rec)
    requires left.Valid() && right.Valid()
    requires rootp == NewParent(rec.pg.size, rec.ppgno, left, right, rec.pentry, rec.rentry, rec.recno, rec.nrecs)
    ensures rootp == NewRoot(rec) && IsInternal(rootp.kind)
  {
    hide LeftPage, RightPage, SplitImage, Size, Image.Valid, Slots, RecordTotal;
  }

  lemma RootSplitLogged(was: Disk, base: nat, rec: Record, lsn: nat, left: Image, right: Image, now: Disk)
    requires rec.Split? && RootReady(was, base, rec) && left == LeftPage(rec) && right == RightPage(rec)
    requires now == was[rec.ppgno := NewRoot(rec).(lsn := lsn)][rec.left := left.(lsn := lsn)][rec.right := right.(lsn := lsn)]
    ensures Written(was, base, rec) && now == Execute(was, rec, lsn)
  {
    hide SplitImage, LeftPage, RightPage, NewRoot, Size, Image.Valid, Find;
    forall q <- Touches(rec)
      ensures q in was && Logs(rec, q, was[q]) && (IsNew(rec, q) ==> was[q].lsn <= base)
      ensures Redo(rec, lsn, q, was[q]) == now[q]
    {
    }
    hide Redo, Logs;
    var e := Execute(was, rec, lsn);
    assert now.Keys == e.Keys;
    forall q <- now
      ensures now[q] == e[q]
    {
    }
  }

  /** The slots of a root that is a leaf are those of the two leaves below it. */
  lemma RootSplitDivides(was: Disk, rec: Record, lsn: nat, left: Image, right: Image, now: Disk)
    requires rec.Split? && SplitImage(rec) && !IsInternal(rec.pg.kind) && RootSplit(rec)
    requires left == LeftPage(rec) && right == RightPage(rec)
    requires rec.ppgno in was && was[rec.ppgno] == rec.pg && rec.ppgno != rec.left && rec.ppgno != rec.right
    requires rec.left in now && now[rec.left] == left.(lsn := lsn)
    requires rec.right in now && now[rec.right] == right.(lsn := lsn) && rec.left != rec.right
    requires forall q <- was :: q != rec.left && q != rec.right && q != rec.ppgno ==> q in now && now[q] == was[q]
    ensures S.Divides(S.Division(rec.ppgno, rec.left, rec.right, rec.indx, true), LeafSlots(was), LeafSlots(now))
  {
    hide LeftPage, RightPage, Find, Depth, Total, Onto, Slots, Image.Valid, SplitImage;
    LeafHalves(rec);
    MovedHeader(left, left.prev, lsn);
    MovedHeader(right, right.prev, lsn);
  }

  /** The slots of the divided leaf are those of the two leaves. */
  lemma SplitDivides(was: Disk, rec: Record, lsn: nat, left: Image, right: Image, now: Disk)
    requires rec.Split? && SplitImage(rec) && !IsInternal(rec.pg.kind)
    requires left == LeftPage(rec) && right == RightPage(rec) && PGNO_INVALID !in was
    requires rec.pg.pgno in was && was[rec.pg.pgno] == rec.pg && rec.ppgno in was && IsInternal(was[rec.ppgno].kind) && !RootSplit(rec)
    requires rec.left == rec.pg.pgno && rec.left in now && now[rec.left] == left.(lsn := lsn)
    requires rec.right in now && now[rec.right] == right.(lsn := lsn) && rec.left != rec.right
    requires forall q <- was :: q != rec.left && q != rec.right && q != rec.ppgno ==>
               q in now && now[q] == was[q].(prev := now[q].prev, lsn := now[q].lsn)
    ensures S.Divides(S.Division(rec.left, PGNO_INVALID, rec.right, rec.indx, false), LeafSlots(was), LeafSlots(now))
  {
    hide LeftPage, RightPage, Find, Depth, Total, Onto, Slots, Image.Valid, SplitImage;
    LeafHalves(rec);
    MovedHeader(left, left.prev, lsn);
    MovedHeader(right, right.prev, lsn);
    var before, after := LeafSlots(was), LeafSlots(now);
    forall p <- before | p != rec.left && p != rec.right
      ensures p in after && after[p] == before[p]
    {
      MovedHeader(was[p], now[p].prev, now[p].lsn);
    }
  }

  /** Links and LSNs do not matter to what a page holds. */
  lemma MovedHeader(g: Image, prev: int, lsn: nat)
    requires g.Valid()
    ensures g.(prev := prev, lsn := lsn).Valid() && Slots(g.(prev := prev, lsn := lsn)) == Slots(g)
  {
    hide Find, Total;
    assert Refs(g) == Refs(g.(prev := prev, lsn := lsn));
  }

  lemma LeafHalves(rec: Record)
    requires SplitImage(rec) && !IsInternal(rec.pg.kind)
    ensures rec.pg.Valid() && rec.indx <= |rec.pg.inp|
    ensures var l, r := LeftPage(rec), RightPage(rec);
            && l.Valid() && r.Valid() && l.kind == rec.pg.kind && r.kind == rec.pg.kind
            && Slots(l) == Slots(rec.pg)[..rec.indx] && Slots(r) == Slots(rec.pg)[rec.indx..]
  {
    hide Find, Depth, Total, Onto, Copied, DupSets, Image.Valid;
    var g := rec.pg;
    LeafCopy(g, LeftBlank(rec), 0, rec.indx);
    LeafCopy(g, RightBlank(rec), rec.indx, |g.inp| - rec.indx);
    LeafSplitBlanks(rec);
  }

  ghost function LeftBlank(rec: Record): Image
    requires rec.Split?
  {
    var sp, internal := rec.pg, IsInternal(rec.pg.kind);
    if RootSplit(rec)
    then Fresh(sp.size, 0, rec.left, 0, if internal then 0 else rec.right, sp.level, sp.kind)
    else Fresh(sp.size, 0, sp.pgno, if internal then 0 else sp.prev, if internal then 0 else rec.right, sp.level, sp.kind)
  }

  ghost function RightBlank(rec: Record): Image
    requires rec.Split?
  {
    var sp, internal := rec.pg, IsInternal(rec.pg.kind);
    if RootSplit(rec)
    then Fresh(sp.size, 0, rec.right, if internal then 0 else rec.left, 0, sp.level, sp.kind)
    else Fresh(sp.size, 0, rec.right, if internal then 0 else sp.pgno, if internal then 0 else sp.next, sp.level, sp.kind)
  }

  lemma LeafSplitBlanks(rec: Record)
    requires SplitImage(rec)
    ensures LeftPage(rec) == Copied(rec.pg, LeftBlank(rec), 0, rec.indx)
    ensures RightPage(rec) == Copied(rec.pg, RightBlank(rec), rec.indx, |rec.pg.inp| - rec.indx)
  {
    hide Copied, DupSets, Image.Valid;
  }

  lemma LeafCopy(g: Image, cp: Image, nxt: nat, k: nat)
    requires g.Valid() && DupSets(g) && !IsInternal(g.kind) && nxt + k <= |g.inp| && OnStride(g.kind, nxt)
    requires cp == Fresh(g.size, cp.lsn, cp.pgno, cp.prev, cp.next, cp.level, g.kind)
    ensures var c := Copied(g, cp, nxt, k);
            c.Valid() && c.kind == g.kind && Slots(c) == Slots(g)[nxt..nxt + k]
  {
    hide Find, Depth, Total, Onto, Copied, DupSets;
    CopyConserves(g, cp, nxt, k);
  }

  // ---- Every routine logs what it does ----

  lemma AdjLogged(rec: Record, lsn: nat, p: nat, g: Image)
    requires rec.Adj? && rec.pgno == p && rec.lsn == g.lsn
    requires if rec.isInsert then rec.indx <= |g.inp| && rec.indxCopy < |g.inp| else CopyOf(g, rec.indx, rec.indxCopy)
    ensures Touches(rec) == {p} && Logs(rec, p, g) && !IsNew(rec, p)
    ensures Redo(rec, lsn, p, g) == Adjusted(g, rec.indx, rec.indxCopy, rec.isInsert).(lsn := lsn)
    ensures Adjusted(g.(lsn := lsn), rec.indx, rec.indxCopy, rec.isInsert) == Redo(rec, lsn, p, g)
  {
  }

  /** The logged difference says what the replaced item has become. */
  lemma ReplLogged(rec: Record, lsn: nat, p: nat, g: Image, item: Item)
    requires g.Valid() && rec.Repl? && rec.pgno == p && rec.lsn == g.lsn && rec.indx < |g.inp|
    requires g.level == LEAFLEVEL <==> g.Slot(rec.indx).KeyData?
    requires g.Slot(rec.indx).KeyData? ==> rec.isDeleted == g.Slot(rec.indx).deleted
    requires TurnsInto(g.Slot(rec.indx), rec.isDeleted, item) && MayMove(g, rec.indx, item)
    requires Describes(rec.diff, Body(g.Slot(rec.indx)), Body(item))
    ensures Touches(rec) == {p} && Logs(rec, p, g) && !IsNew(rec, p)
    ensures Redo(rec, lsn, p, g) == Replace(g, rec.indx, item).(lsn := lsn)
  {
    hide Find, Depth, Total, Size, Replace, MayMove, Body, Remade, Fits;
    OrigIs(rec.diff, Body(g.Slot(rec.indx)), Body(item));
    RemadeOfBody(g.Slot(rec.indx), rec.isDeleted, item);
  }

  lemma OrigIs(d: Diff, before: seq<byte>, after: seq<byte>)
    requires Describes(d, before, after)
    ensures d.orig == before[d.prefix..|before| - d.suffix]
  {
    var tail := after[|after| - d.suffix..];
    assert |before| == d.prefix + |d.orig| + d.suffix;
    assert before == after[..d.prefix] + d.orig + tail;
  }

  lemma MarkLogged(rec: Record, lsn: nat, p: nat, g: Image)
    requires rec.CDel? && rec.pgno == p && rec.lsn == g.lsn
    requires DataIndex(g, rec.indx) < |g.inp| && g.Ref(DataIndex(g, rec.indx)) >= 0
    requires var item := g.Slot(DataIndex(g, rec.indx)); Leaf(item) && !item.deleted
    ensures Touches(rec) == {p} && Logs(rec, p, g) && !IsNew(rec, p)
    ensures Redo(rec, lsn, p, g) == Marked(g, rec.indx, true).(lsn := lsn)
  {
    hide Find;
  }

  /** On an internal page no two entries share an item. */
  lemma CountedSlots(g: Image, indx: nat, adjust: int, isRoot: bool, lsn: nat)
    requires indx < |g.inp| && g.Ref(indx) >= 0
    ensures g.Valid() && DupSets(g) && IsInternal(g.kind) && !Leaf(g.Slot(indx)) ==>
              var c := CountAdjusted(g, indx, adjust, isRoot).(lsn := lsn);
              c.Valid() && Slots(c) == Slots(g)[indx := g.Slot(indx).(nrecs := g.Slot(indx).nrecs + adjust)]
  {
    hide Find, Depth, Total, Slots, Image.Valid, CountAdjusted;
    if g.Valid() && DupSets(g) && IsInternal(g.kind) && !Leaf(g.Slot(indx)) {
      NotShared(g, indx);
      CountAdjustedSlots(g, indx, adjust, isRoot);
      SameSlots(CountAdjusted(g, indx, adjust, isRoot), lsn);
    }
  }

  lemma NotShared(g: Image, indx: nat)
    requires DupSets(g) && indx < |g.inp| && (g.kind != LBtree || indx % 2 == 1)
    ensures !g.Shared(indx)
  {
  }

  lemma MarkSlots(g: Image, indx: nat, lsn: nat)
    requires DataIndex(g, indx) < |g.inp| && g.Ref(DataIndex(g, indx)) >= 0 && Leaf(g.Slot(DataIndex(g, indx)))
    ensures g.Valid() && DupSets(g) && OnStride(g.kind, indx) ==>
              var m, at := Marked(g, indx, true).(lsn := lsn), if g.kind == LBtree then indx + O_INDX else indx;
              m.Valid() && Slots(m) == Slots(g)[at := g.Slot(at).(deleted := true)]
  {
    hide Find, Depth, Total, Slots, Image.Valid, Marked;
    if g.Valid() && DupSets(g) && OnStride(g.kind, indx) {
      NotShared(g, if g.kind == LBtree then indx + O_INDX else indx);
      MarkedSlots(g, indx, true);
      SameSlots(Marked(g, indx, true), lsn);
    }
  }

  lemma CountLogged(rec: Record, lsn: nat, p: nat, g: Image)
    requires rec.CAdjust? && rec.pgno == p && rec.lsn == g.lsn && rec.indx < |g.inp| && g.Ref(rec.indx) >= 0
    ensures Touches(rec) == {p} && Logs(rec, p, g) && !IsNew(rec, p)
    ensures Redo(rec, lsn, p, g) == CountAdjusted(g, rec.indx, rec.adjust, rec.updateRoot).(lsn := lsn)
  {
    hide Find;
  }

  lemma RelinkLogged(was: Disk, base: nat, rec: Record, lsn: nat, now: Disk)
    requires rec.Relink? && rec.prev != rec.next
    requires rec.next != PGNO_INVALID ==>
               rec.next in was && was[rec.next].prev == rec.pgno && was[rec.next].lsn == rec.lsnNext
    requires rec.prev != PGNO_INVALID ==>
               rec.prev in was && was[rec.prev].next == rec.pgno && was[rec.prev].lsn == rec.lsnPrev
    requires now.Keys == was.Keys
    requires forall q <- now :: now[q] ==
               if q == rec.next && rec.next != PGNO_INVALID
               then was[q].(prev := if rec.newPgno == PGNO_INVALID then rec.prev else rec.newPgno, lsn := lsn)
               else if q == rec.prev && rec.prev != PGNO_INVALID
               then was[q].(next := if rec.newPgno == PGNO_INVALID then rec.next else rec.newPgno, lsn := lsn)
               else was[q]
    ensures Written(was, base, rec) && now == Execute(was, rec, lsn)
  {
    forall q <- Touches(rec)
      ensures q in was && Logs(rec, q, was[q])
    {
    }
    assert now.Keys == Execute(was, rec, lsn).Keys;
    forall q <- now
      ensures now[q] == Execute(was, rec, lsn)[q]
    {
    }
  }

  lemma SameSlots(g: Image, lsn: nat)
    requires g.Valid()
    ensures g.(lsn := lsn).Valid() && Slots(g.(lsn := lsn)) == Slots(g)
  {
    hide Find, Total;
    assert Refs(g) == Refs(g.(lsn := lsn));
  }
}
