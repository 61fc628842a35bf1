/** Cursors of a tree across its splits: wherever a split puts a record, the cursors on it go
  * along.  A cursor's index stands for a record of its leaf. */
module TreeCursors {
  import opened BtreeShape
  import opened BtreeRoot
  import C = BtreeCounts
  import O = BtreeOps
  import S = SplitCursors

  /** The records of the leaves of a tree. */
  ghost function LeafRecs(s: Store): (m: map<nat, seq<Rec>>)
    ensures forall p :: p in m <==> p in s && s[p].Leaf?
    ensures forall p <- m :: m[p] == s[p].recs
  {
    map p | p in s && s[p].Leaf? :: s[p].recs
  }

  /** A page split divides a leaf's records between its page and the new one. */
  lemma CutDivides(s: Store, c: Cut)
    requires CanCut(s, c) && c.cp in s && s[c.cp].Leaf?
    ensures S.Divides(S.Division(c.cp, PGNO_INVALID, c.rp, c.split, false), LeafRecs(s), LeafRecs(AfterCut(s, c)))
  {
    hide AfterCut;
    CutPages(s, c);
    CutLinks(s, c);
  }

  /** A root split divides a leaf's records between the two new pages. */
  lemma RootCutDivides(s: Store, root: nat, c: RootCut)
    requires CanCutRoot(s, root, c) && s[root].Leaf?
    ensures S.Divides(S.Division(root, c.lp, c.rp, c.split, true), LeafRecs(s), LeafRecs(AfterRootCut(s, root, c)))
  {
    hide AfterRootCut;
    RootCutPages(s, root, c);
  }

  /** The record a cursor refers to, before and after. */
  ghost predicate SameRecord(before: map<nat, seq<Rec>>, after: map<nat, seq<Rec>>, s: S.Spot, t: S.Spot) {
    s.pgno in before && s.indx < |before[s.pgno]| ==>
      t.pgno in after && t.indx < |after[t.pgno]| && after[t.pgno][t.indx] == before[s.pgno][s.indx]
  }

  lemma Follows(d: S.Division, before: map<nat, seq<Rec>>, after: map<nat, seq<Rec>>, s: S.Spot)
    requires S.Divides(d, before, after) && d.right !in before && (d.left in before ==> d.left == d.from)
    ensures SameRecord(before, after, s, S.AfterSplit(d, s))
  {
    if s.pgno in before && s.indx < |before[s.pgno]| {
      S.SameRecord(d, before, after, s);
    }
  }

  /** `__bam_page`, with the cursors. */
  method SplitPage(t: O.Btree, pp: nat, i: nat, split: nat, rp: nat, cursors: seq<S.Cursor>,
                   ghost stack: seq<C.Step>, ghost p: nat, ghost key: Key)
    returns (ok: bool)
    requires t.Ok() && C.Path(t.pages, t.root, stack, p, key) && C.Step(pp, i) in stack
    requires pp in t.pages && Refers(t.pages, pp, i) && t.pages[pp].ents[i].pgno in t.pages
    requires rp !in t.pages && rp != PGNO_INVALID
    requires O.Divides(t.pages[t.pages[pp].ents[i].pgno], split)
    requires forall i, j :: 0 <= i < j < |cursors| ==> cursors[i] != cursors[j]
    modifies t`pages, cursors
    ensures t.Ok() && InOrder(t.pages, t.root) == old(InOrder(t.pages, t.root))
    ensures forall c <- cursors :: !c.isRecno ==>
              SameRecord(LeafRecs(old(t.pages)), LeafRecs(t.pages), old(c.At()), c.At())
    ensures forall c <- cursors :: c.isRecno ==> c.At() == old(c.At())
  {
    hide Valid, InOrder, C.Path, O.Divides, O.HasRoom, AfterCut, LeafRecs, SameRecord, O.IsCut, O.Ascending;
    ghost var s := t.pages;
    RootPage(t);
    var cp := t.pages[pp].ents[i].pgno;
    ok := t.SplitPage(pp, i, split, rp, stack, p, key);
    var d := S.Division(cp, PGNO_INVALID, rp, split, false);
    if ok {
      S.CaSplit(d, cursors);
    }
    forall c | c in cursors && !c.isRecno
      ensures SameRecord(LeafRecs(s), LeafRecs(t.pages), old(c.At()), c.At())
    {
      SplitFollows(s, t.pages, pp, i, rp, split, ok, old(c.At()));
    }
  }

  lemma RootPage(t: O.Btree)
    requires t.Ok()
    ensures t.root in t.pages && PGNO_INVALID !in t.pages
  {
  }

  lemma SplitFollows(s: Store, t: Store, pp: nat, i: nat, rp: nat, split: nat, ok: bool, at: S.Spot)
    requires PGNO_INVALID !in s && rp !in s && pp in s && Refers(s, pp, i) && s[pp].ents[i].pgno in s
    requires if ok then O.IsCut(s, t, pp, i, rp, split) else t == s
    ensures var cp := s[pp].ents[i].pgno;
            var d := S.Division(cp, PGNO_INVALID, rp, split, false);
            SameRecord(LeafRecs(s), LeafRecs(t), at, if ok then S.AfterSplit(d, at) else at)
  {
    hide AfterCut, O.Promoted, O.Divides;
    var cp := s[pp].ents[i].pgno;
    if ok {
      var c: Cut :| CanCut(s, c) && c.pp == pp && c.i == i && c.rp == rp && c.split == split && t == AfterCut(s, c);
      CutLevels(s, c);
      CutPages(s, c);
      if s[cp].Leaf? {
        CutDivides(s, c);
        Follows(S.Division(cp, PGNO_INVALID, rp, split, false), LeafRecs(s), LeafRecs(t), at);
      }
    }
  }

  /** `__bam_root`, with the cursors. */
  method SplitRoot(t: O.Btree, lp: nat, rp: nat, split: nat, cursors: seq<S.Cursor>)
    requires t.Ok() && O.Divides(t.pages[t.root], split)
    requires lp !in t.pages && rp !in t.pages && lp != rp && lp != PGNO_INVALID && rp != PGNO_INVALID
    requires forall i, j :: 0 <= i < j < |cursors| ==> cursors[i] != cursors[j]
    modifies t`pages, t`nrec, cursors
    ensures t.Ok() && InOrder(t.pages, t.root) == old(InOrder(t.pages, t.root))
    ensures forall c <- cursors :: !c.isRecno ==>
              SameRecord(LeafRecs(old(t.pages)), LeafRecs(t.pages), old(c.At()), c.At())
    ensures forall c <- cursors :: c.isRecno ==> c.At() == old(c.At())
  {
    hide Valid, InOrder, O.Divides, AfterRootCut, LeafRecs, SameRecord, O.IsRootCut, O.Ascending;
    ghost var s := t.pages;
    RootPage(t);
    t.SplitRoot(lp, rp, split);
    S.CaSplit(S.Division(t.root, lp, rp, split, true), cursors);
    forall c | c in cursors && !c.isRecno
      ensures SameRecord(LeafRecs(s), LeafRecs(t.pages), old(c.At()), c.At())
    {
      RootSplitFollows(s, t.pages, t.root, lp, rp, split, old(c.At()));
    }
  }

  lemma RootSplitFollows(s: Store, t: Store, root: nat, lp: nat, rp: nat, split: nat, at: S.Spot)
    requires root in s && lp !in s && rp !in s && lp != rp && O.IsRootCut(s, t, root, lp, rp, split)
    ensures var d := S.Division(root, lp, rp, split, true);
            SameRecord(LeafRecs(s), LeafRecs(t), at, S.AfterSplit(d, at))
  {
    hide AfterRootCut, O.WholeKey, O.Divides, CanLift;
    var c: RootCut :| CanCutRoot(s, root, c) && c.lp == lp && c.rp == rp && c.split == split && t == AfterRootCut(s, root, c);
    RootCutPages(s, root, c);
    if s[root].Leaf? {
      RootCutDivides(s, root, c);
      Follows(S.Division(root, lp, rp, split, true), LeafRecs(s), LeafRecs(t), at);
    }
  }
}
