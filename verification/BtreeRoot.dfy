/** Splitting the root of a btree: its contents go to two new pages below it. */
module BtreeRoot {
  import opened BtreeShape

  /** The root with its contents moved to a single child: halfway through a root split. */
  ghost function Lifted(s: Store, root: nat, lp: nat, total: int): Store
    requires root in s
  {
    s[lp := s[root]][root := Internal([Entry([], lp, total)], Level(s[root]) + 1)]
  }

  ghost predicate CanLift(s: Store, root: nat, lp: nat) {
    && root in s && Shape(s) && Unique(s, root)
    && lp !in s && lp != PGNO_INVALID
  }

  lemma LiftedPages(s: Store, root: nat, lp: nat, total: int)
    requires CanLift(s, root, lp)
    ensures var t := Lifted(s, root, lp, total);
            && t.Keys == s.Keys + {lp} && lp != root
            && t[root] == Internal([Entry([], lp, total)], Level(s[root]) + 1) && t[lp] == s[root]
            && forall p <- s :: p != root ==> t[p] == s[p]
  {
  }

  lemma LiftedShape(s: Store, root: nat, lp: nat, total: int)
    requires CanLift(s, root, lp)
    ensures Shape(Lifted(s, root, lp, total))
    ensures SameBelow(s, Lifted(s, root, lp, total), root)
  {
    var t := Lifted(s, root, lp, total);
    LiftedPages(s, root, lp, total);
    hide Lifted;
    forall p <- t | t[p].Internal?
      ensures t[p].level > LEAFLEVEL && t[p].ents != [] && Children(t, t[p].ents, t[p].level - 1)
    {
      if p != root {
        var q := if p == lp then root else p;
        assert s[q] == t[p] && Children(s, s[q].ents, s[q].level - 1);
        forall i | 0 <= i < |s[q].ents|
          ensures s[q].ents[i].pgno != root && t[s[q].ents[i].pgno] == s[s[q].ents[i].pgno]
        {
          assert Refers(s, q, i);
        }
      }
    }
  }

  lemma LiftedUnique(s: Store, root: nat, lp: nat, total: int)
    requires CanLift(s, root, lp)
    ensures Unique(Lifted(s, root, lp, total), root)
  {
    var t := Lifted(s, root, lp, total);
    LiftedPages(s, root, lp, total);
    hide Lifted;
    forall p <- t, i: int | Refers(t, p, i)
      ensures t[p].ents[i].pgno != root
      ensures if p == root then i == 0 && t[p].ents[i].pgno == lp
              else var q := if p == lp then root else p;
                   q in s && Refers(s, q, i) && s[q].ents[i] == t[p].ents[i] && t[p].ents[i].pgno != lp
    {
      if p != root {
        var q := if p == lp then root else p;
        assert Refers(s, q, i) && s[q].ents[i].pgno in s;
      }
    }
  }

  lemma LiftedLeaves(s: Store, root: nat, lp: nat, total: int)
    requires CanLift(s, root, lp)
    ensures var t := Lifted(s, root, lp, total);
            && Shape(t) && lp in t && root in t
            && Leaves(t, lp) == (if s[root].Leaf? then [lp] else Leaves(s, root))
            && Leaves(t, root) == Leaves(t, lp)
            && InOrder(t, root) == InOrder(s, root) && InOrder(t, lp) == InOrder(s, root)
  {
    hide Lifted, LeavesOf;
    var t, below := Lifted(s, root, lp, total), Level(s[root]);
    LiftedPages(s, root, lp, total);
    LiftedShape(s, root, lp, total);
    InternalLeaves(t, root);
    LeavesOfOne(t, Entry([], lp, total), below);
    if s[root].Leaf? {
      RecsOne(t, lp);
      RecsOne(s, root);
    } else {
      InternalLeaves(s, root);
      InternalLeaves(t, lp);
      SameLeavesOf(s, t, root, s[root].ents, below - 1);
      SameRecs(s, t, Leaves(s, root));
    }
  }

  lemma LiftedChild(s: Store, root: nat, lp: nat, total: int, recnum: bool)
    requires CanLift(s, root, lp) && Good(s, root, Open, Open, recnum)
    ensures var t := Lifted(s, root, lp, total);
            Shape(t) && lp in t && Good(t, lp, Open, Open, recnum)
  {
    var t := Lifted(s, root, lp, total);
    LiftedPages(s, root, lp, total);
    LiftedShape(s, root, lp, total);
    if s[root].Internal? {
      LiftedInternal(s, root, lp, total, recnum);
    }
  }

  lemma LiftedInternal(s: Store, root: nat, lp: nat, total: int, recnum: bool)
    requires CanLift(s, root, lp) && Good(s, root, Open, Open, recnum) && s[root].Internal?
    ensures var t := Lifted(s, root, lp, total);
            Shape(t) && lp in t && Good(t, lp, Open, Open, recnum)
  {
    hide Good, GoodChild, Lifted, SameBelow, Separators, Children, Unique, Leaves, LeavesOf;
    var t := Lifted(s, root, lp, total);
    LiftedPages(s, root, lp, total);
    LiftedShape(s, root, lp, total);
    GoodParts(s, root, Open, Open, recnum);
    var ents, below := s[root].ents, s[root].level - 1;
    SameLeavesOf(s, t, root, ents, below);
    forall i | 0 <= i < |ents|
      ensures GoodChild(t, ents, i, Open, Open, recnum, below)
    {
      SameChild(s, t, root, ents, i, recnum, below);
    }
    GoodInternal(t, lp, Open, Open, recnum);
  }

  lemma SameChild(s: Store, t: Store, x: nat, ents: seq<Entry>, i: nat, recnum: bool, below: nat)
    requires SameBelow(s, t, x) && i < |ents| && Children(s, ents, below) && Children(t, ents, below) && below < Level(s[x])
    requires GoodChild(s, ents, i, Open, Open, recnum, below)
    ensures GoodChild(t, ents, i, Open, Open, recnum, below)
  {
    hide Good, InOrder;
    SameInOrder(s, t, x, ents[i].pgno);
    SameGood(s, t, x, ents[i].pgno, LowOf(ents, i, Open), HighOf(ents, i, Open), recnum);
  }

  /** The half-way tree is as good as the old one. */
  lemma LiftKeeps(s: Store, root: nat, lp: nat, total: int, recnum: bool)
    requires CanLift(s, root, lp) && Valid(s, root, recnum)
    requires recnum ==> total == Live(InOrder(s, root))
    ensures Valid(Lifted(s, root, lp, total), root, recnum)
    ensures InOrder(Lifted(s, root, lp, total), root) == InOrder(s, root)
    ensures lp in Lifted(s, root, lp, total)
    ensures s[root].Leaf? ==> lp in Leaves(Lifted(s, root, lp, total), root)
  {
    hide Lifted, Good, Live, Leaves, InOrder, SameBelow, Unique;
    var t, ents, below := Lifted(s, root, lp, total), [Entry([], lp, total)], Level(s[root]);
    LiftedPages(s, root, lp, total);
    LiftedShape(s, root, lp, total);
    LiftedUnique(s, root, lp, total);
    LiftedLeaves(s, root, lp, total);
    LiftedChild(s, root, lp, total, recnum);
    LiftedChain(s, root, lp, total, recnum);
    assert Children(t, ents, below);
    assert GoodChild(t, ents, 0, Open, Open, recnum, below);
    GoodInternal(t, root, Open, Open, recnum);
  }

  lemma LiftedChain(s: Store, root: nat, lp: nat, total: int, recnum: bool)
    requires CanLift(s, root, lp) && Valid(s, root, recnum)
    ensures var t := Lifted(s, root, lp, total);
            Shape(t) && root in t && Chained(t, Leaves(t, root))
  {
    hide Lifted, Good, LeavesOf, Linked;
    var t := Lifted(s, root, lp, total);
    LiftedPages(s, root, lp, total);
    LiftedLeaves(s, root, lp, total);
    if s[root].Leaf? {
      assert Leaves(s, root) == [root] && Linked(s, [root], 0);
      LinkedAlone(s, t, root, lp);
    } else {
      SameChain(s, t, Leaves(s, root));
    }
  }

  lemma LinkedAlone(s: Store, t: Store, p: nat, q: nat)
    requires p in s && s[p].Leaf? && q in t && t[q] == s[p] && Linked(s, [p], 0)
    ensures Linked(t, [q], 0)
  {
  }

  // ---- The root split ----

  /** `__bam_root` and `__bam_broot`: the halves of the root page go to `lp` and `rp`. */
  datatype RootCut = RootCut(lp: nat, rp: nat, split: nat, sep: Key, left: int, right: int)

  function AsCut(root: nat, c: RootCut): Cut {
    Cut(root, 0, c.lp, c.rp, c.split, c.sep, c.right)
  }

  ghost function AfterRootCut(s: Store, root: nat, c: RootCut): Store
    requires root in s
    requires match s[root] case Leaf(recs, _, _) => c.split <= |recs| case Internal(ents, _) => c.split < |ents|
  {
    var (left, right) := match s[root]
      case Leaf(recs, _, _) =>
        (Leaf(recs[..c.split], PGNO_INVALID, c.rp), Leaf(recs[c.split..], c.lp, PGNO_INVALID))
      case Internal(ents, level) => (Internal(ents[..c.split], level), Internal(Without(ents[c.split..]), level));
    s[root := Internal([Entry([], c.lp, c.left), Entry(c.sep, c.rp, c.right)], Level(s[root]) + 1)]
     [c.lp := left][c.rp := right]
  }

  ghost predicate CanCutRoot(s: Store, root: nat, c: RootCut) {
    && CanLift(s, root, c.lp) && c.rp !in s && c.rp != PGNO_INVALID && c.rp != c.lp
    && match s[root]
       case Leaf(recs, prev, next) =>
         && prev == PGNO_INVALID && next == PGNO_INVALID
         && 0 < c.split < |recs|
         && Lt(recs[c.split - 1].key, c.sep) && !Lt(recs[c.split].key, c.sep)
       case Internal(ents, _) => 0 < c.split < |ents| && c.sep == ents[c.split].key
  }

  /** A root split is the split of the only child of the lifted root. */
  lemma RootCutIsCut(s: Store, root: nat, c: RootCut)
    requires CanCutRoot(s, root, c)
    ensures CanCut(Lifted(s, root, c.lp, c.left + c.right), AsCut(root, c))
    ensures AfterRootCut(s, root, c) == AfterCut(Lifted(s, root, c.lp, c.left + c.right), AsCut(root, c))
  {
    hide Lifted, AfterCut, Shape, AfterRootCut;
    RootCanCut(s, root, c);
    var t, k := Lifted(s, root, c.lp, c.left + c.right), AsCut(root, c);
    var a, b := AfterRootCut(s, root, c), AfterCut(t, k);
    LiftedPages(s, root, c.lp, c.left + c.right);
    CutPages(t, k);
    CutLinks(t, k);
    RootCutPages(s, root, c);
    assert Parted([Entry([], c.lp, c.left + c.right)], k) == [Entry([], c.lp, c.left), Entry(c.sep, c.rp, c.right)];
    forall p <- b
      ensures p in a && a[p] == b[p]
    {
      assert p == root || p == c.lp || p == c.rp || (p in s && p in t && t[p] == s[p]);
    }
    assert a.Keys == b.Keys;
  }

  lemma RootCutPages(s: Store, root: nat, c: RootCut)
    requires CanCutRoot(s, root, c)
    ensures var a := AfterRootCut(s, root, c);
            && a.Keys == s.Keys + {c.lp, c.rp}
            && a[root] == Internal([Entry([], c.lp, c.left), Entry(c.sep, c.rp, c.right)], Level(s[root]) + 1)
            && (s[root].Leaf? ==>
                  && a[c.lp] == Leaf(s[root].recs[..c.split], PGNO_INVALID, c.rp)
                  && a[c.rp] == Leaf(s[root].recs[c.split..], c.lp, PGNO_INVALID))
            && (s[root].Internal? ==>
                  && a[c.lp] == Internal(s[root].ents[..c.split], s[root].level)
                  && a[c.rp] == Internal(Without(s[root].ents[c.split..]), s[root].level))
            && forall p <- s :: p != root ==> a[p] == s[p]
  {
  }

  lemma RootCanCut(s: Store, root: nat, c: RootCut)
    requires CanCutRoot(s, root, c)
    ensures CanCut(Lifted(s, root, c.lp, c.left + c.right), AsCut(root, c)) && PGNO_INVALID !in s
  {
    hide Lifted, Lt, Unique, SameBelow, Children;
    LiftedPages(s, root, c.lp, c.left + c.right);
    LiftedShape(s, root, c.lp, c.left + c.right);
  }

  /** Splitting the root keeps the tree, one level higher. */
  lemma RootCutKeeps(s: Store, root: nat, c: RootCut, recnum: bool)
    requires Valid(s, root, recnum) && CanCutRoot(s, root, c)
    requires recnum ==> c.left + c.right == Live(InOrder(s, root))
    requires recnum ==> var t := AfterRootCut(s, root, c);
                        Shape(t) && c.rp in t && c.right == Live(InOrder(t, c.rp))
    ensures Valid(AfterRootCut(s, root, c), root, recnum)
    ensures InOrder(AfterRootCut(s, root, c), root) == InOrder(s, root)
    ensures Level(AfterRootCut(s, root, c)[root]) == Level(s[root]) + 1
  {
    hide AfterCut, CanCut, Shape, Good, Live, Leaves, InOrder, Lifted, Valid, AfterRootCut, CanCutRoot;
    RootCutIsCut(s, root, c);
    RootCutLift(s, root, c);
    LiftKeeps(s, root, c.lp, c.left + c.right, recnum);
    CutKeeps(Lifted(s, root, c.lp, c.left + c.right), AsCut(root, c), root, recnum);
  }

  lemma RootCutLift(s: Store, root: nat, c: RootCut)
    requires CanCutRoot(s, root, c)
    ensures CanLift(s, root, c.lp)
    ensures var t := Lifted(s, root, c.lp, c.left + c.right);
            c.lp in t && t[c.lp] == s[root] && root in t && Level(t[root]) == Level(s[root]) + 1
  {
  }
}
