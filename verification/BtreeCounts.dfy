/** Record counts: one leaf changes, and the counts on the path to it follow. */
module BtreeCounts {
  import opened BtreeShape
  import opened BtreeSearch

  /** An internal page of a search stack and the entry the search took. */
  datatype Step = Step(pgno: nat, indx: nat)

  /** The stack leads from a page down to `p`, at each page by the entry that holds the key. */
  ghost predicate Path(s: Store, from: nat, stack: seq<Step>, p: nat, key: Key)
    decreases |stack|
  {
    if stack == [] then from == p
    else
      && stack[0].pgno == from && from in s && s[from].Internal? && Holds(s[from].ents, stack[0].indx, key)
      && Path(s, s[from].ents[stack[0].indx].pgno, stack[1..], p, key)
  }

  lemma {:induction false} PathGrows(s: Store, from: nat, stack: seq<Step>, p: nat, key: Key, i: nat)
    requires Path(s, from, stack, p, key) && p in s && s[p].Internal? && Holds(s[p].ents, i, key)
    ensures Path(s, from, stack + [Step(p, i)], s[p].ents[i].pgno, key)
    decreases |stack|
  {
    var longer := stack + [Step(p, i)];
    if stack == [] {
      assert longer == [Step(p, i)] && longer[1..] == [];
    } else {
      assert longer[0] == stack[0] && longer[1..] == stack[1..] + [Step(p, i)];
      PathGrows(s, s[from].ents[stack[0].indx].pgno, stack[1..], p, key, i);
    }
  }

  function Counted(ents: seq<Entry>, i: nat, adjust: int): seq<Entry>
    requires i < |ents|
  {
    ents[i := ents[i].(nrecs := ents[i].nrecs + adjust)]
  }

  predicate OnPath(stack: seq<Step>, p: nat, q: nat) {
    q == p || exists k :: 0 <= k < |stack| && stack[k].pgno == q
  }

  /** Page `p` holds other records, and the entries of the stack have other counts. */
  ghost predicate Adjusted(s: Store, t: Store, stack: seq<Step>, p: nat, recs: seq<Rec>, adjust: int) {
    && t.Keys == s.Keys
    && p in s && s[p].Leaf? && t[p] == s[p].(recs := recs)
    && (forall k :: 0 <= k < |stack| ==>
          var x := stack[k];
          && x.pgno in s && s[x.pgno].Internal? && x.indx < |s[x.pgno].ents|
          && t[x.pgno] == Internal(Counted(s[x.pgno].ents, x.indx, adjust), s[x.pgno].level))
    && (forall q <- s :: !OnPath(stack, p, q) ==> t[q] == s[q])
  }

  /** Keys and children of every page are what they were. */
  lemma AdjustedPage(s: Store, t: Store, stack: seq<Step>, p: nat, recs: seq<Rec>, adjust: int, q: nat)
    requires Adjusted(s, t, stack, p, recs, adjust) && q in s
    ensures Level(t[q]) == Level(s[q]) && t[q].Leaf? == s[q].Leaf?
    ensures s[q].Internal? ==>
              && |t[q].ents| == |s[q].ents|
              && forall i :: 0 <= i < |s[q].ents| ==> t[q].ents[i].pgno == s[q].ents[i].pgno && t[q].ents[i].key == s[q].ents[i].key
    ensures s[q].Leaf? ==> t[q].prev == s[q].prev && t[q].next == s[q].next && (q != p ==> t[q].recs == s[q].recs)
  {
    if OnPath(stack, p, q) && q != p {
      var k :| 0 <= k < |stack| && stack[k].pgno == q;
    }
  }

  predicate SameChildren(a: seq<Entry>, b: seq<Entry>) {
    |a| == |b| && forall i :: 0 <= i < |a| ==> a[i].pgno == b[i].pgno
  }

  lemma AdjustedShape(s: Store, t: Store, stack: seq<Step>, p: nat, recs: seq<Rec>, adjust: int, root: nat)
    requires Adjusted(s, t, stack, p, recs, adjust) && Shape(s) && Unique(s, root)
    ensures Shape(t) && Unique(t, root)
  {
    hide Adjusted;
    AdjustedKeys(s, t, stack, p, recs, adjust);
    forall q <- t
      ensures Level(t[q]) == Level(s[q]) && t[q].Leaf? == s[q].Leaf?
      ensures s[q].Internal? ==> SameChildren(s[q].ents, t[q].ents)
    {
      AdjustedPage(s, t, stack, p, recs, adjust, q);
    }
    SameShape(s, t, root);
  }

  lemma AdjustedKeys(s: Store, t: Store, stack: seq<Step>, p: nat, recs: seq<Rec>, adjust: int)
    requires Adjusted(s, t, stack, p, recs, adjust)
    ensures t.Keys == s.Keys && p in s && s[p].Leaf?
  {
  }

  /** Shape and references depend only on levels and child numbers. */
  lemma SameShape(s: Store, t: Store, root: nat)
    requires Shape(s) && Unique(s, root) && t.Keys == s.Keys
    requires forall q <- t :: Level(t[q]) == Level(s[q]) && t[q].Leaf? == s[q].Leaf?
               && (s[q].Internal? ==> SameChildren(s[q].ents, t[q].ents))
    ensures Shape(t) && Unique(t, root)
  {
    assert PGNO_INVALID !in t;
    forall q <- t | t[q].Internal?
      ensures t[q].level > LEAFLEVEL && t[q].ents != [] && Children(t, t[q].ents, t[q].level - 1)
    {
      assert Children(s, s[q].ents, s[q].level - 1);
    }
    forall q <- t, i: int | Refers(t, q, i)
      ensures Refers(s, q, i) && t[q].ents[i].pgno == s[q].ents[i].pgno
    {
    }
  }

  lemma {:induction false} AdjustedLeaves(s: Store, t: Store, stack: seq<Step>, p: nat, recs: seq<Rec>, adjust: int, q: nat)
    requires Adjusted(s, t, stack, p, recs, adjust) && Shape(s) && Shape(t) && q in s
    ensures q in t && Leaves(t, q) == Leaves(s, q)
    decreases Level(s[q]), 1, 0
  {
    hide LeavesOf, Adjusted;
    AdjustedKeys(s, t, stack, p, recs, adjust);
    AdjustedPage(s, t, stack, p, recs, adjust, q);
    if s[q].Internal? {
      var level := s[q].level - 1;
      assert Children(s, s[q].ents, level);
      AdjustedLeavesOf(s, t, stack, p, recs, adjust, s[q].ents, level);
      LeavesOfPages(t, s[q].ents, t[q].ents, level);
    }
  }

  lemma {:induction false} AdjustedLeavesOf(s: Store, t: Store, stack: seq<Step>, p: nat, recs: seq<Rec>, adjust: int,
                                            ents: seq<Entry>, level: nat)
    requires Adjusted(s, t, stack, p, recs, adjust) && Shape(s) && Shape(t) && Children(s, ents, level)
    ensures Children(t, ents, level) && LeavesOf(t, ents, level) == LeavesOf(s, ents, level)
    decreases level + 1, 0, |ents|
  {
    hide Adjusted;
    if ents != [] {
      var e := ents[|ents| - 1].pgno;
      AdjustedLeavesOf(s, t, stack, p, recs, adjust, ents[..|ents| - 1], level);
      AdjustedLeaves(s, t, stack, p, recs, adjust, e);
      AdjustedPage(s, t, stack, p, recs, adjust, e);
    }
  }

  // ---- Subtrees off the path do not change ----

  lemma {:induction false} PathEntry(s: Store, from: nat, stack: seq<Step>, p: nat, key: Key, k: nat)
    requires Path(s, from, stack, p, key) && k < |stack|
    ensures stack[k].pgno in s && Refers(s, stack[k].pgno, stack[k].indx) && Holds(s[stack[k].pgno].ents, stack[k].indx, key)
    ensures stack[0].pgno == from
    ensures s[stack[k].pgno].ents[stack[k].indx].pgno == if k + 1 < |stack| then stack[k + 1].pgno else p
    decreases |stack|
  {
    if k > 0 {
      PathEntry(s, s[from].ents[stack[0].indx].pgno, stack[1..], p, key, k - 1);
    } else if |stack| > 1 {
      PathEntry(s, s[from].ents[stack[0].indx].pgno, stack[1..], p, key, 0);
    }
  }

  /** A page of the path, other than the root, has its parent on the path. */
  lemma ParentOnPath(s: Store, root: nat, stack: seq<Step>, p: nat, key: Key, q: nat, i: nat)
    requires Unique(s, root) && Path(s, root, stack, p, key) && q in s && Refers(s, q, i)
    requires OnPath(stack, p, s[q].ents[i].pgno)
    ensures exists k :: 0 <= k < |stack| && stack[k] == Step(q, i)
  {
    var e := s[q].ents[i].pgno;
    if stack != [] {
      PathEntry(s, root, stack, p, key, |stack| - 1);
      var m: int;
      if e == p {
        m := |stack|;
      } else {
        m :| 0 <= m < |stack| && stack[m].pgno == e;
        PathEntry(s, root, stack, p, key, m);
      }
      if m > 0 {
        PathEntry(s, root, stack, p, key, m - 1);
        assert stack[m - 1] == Step(q, i);
      }
    }
  }

  /** A subtree with the same records and as good as before. */
  ghost predicate Kept(s: Store, t: Store, q: nat, lo: Bound, hi: Bound, recnum: bool)
    requires Shape(s) && Shape(t)
  {
    && q in s && q in t && InOrder(t, q) == InOrder(s, q)
    && (Good(s, q, lo, hi, recnum) ==> Good(t, q, lo, hi, recnum))
  }

  lemma {:induction false} OffPathSame(s: Store, t: Store, root: nat, stack: seq<Step>, p: nat, key: Key,
                                       recs: seq<Rec>, adjust: int, q: nat, lo: Bound, hi: Bound, recnum: bool)
    requires Adjusted(s, t, stack, p, recs, adjust) && Shape(s) && Shape(t) && Unique(s, root)
    requires Path(s, root, stack, p, key) && q in s && !OnPath(stack, p, q)
    ensures Kept(s, t, q, lo, hi, recnum)
    decreases Level(s[q])
  {
    hide Adjusted, Unique, Path, LeavesOf, OnPath, Kept, Shape;
    OffPathPage(s, t, stack, p, recs, adjust, q);
    if s[q].Leaf? {
      OneLeaf(s, t, q, lo, hi, recnum);
    } else {
      var ents := s[q].ents;
      forall i | 0 <= i < |ents|
        ensures Kept(s, t, ents[i].pgno, LowOf(ents, i, lo), HighOf(ents, i, hi), recnum)
      {
        ChildOffPath(s, root, stack, p, key, q, i);
        OffPathSame(s, t, root, stack, p, key, recs, adjust, ents[i].pgno, LowOf(ents, i, lo), HighOf(ents, i, hi), recnum);
      }
      KeptInternal(s, t, q, lo, hi, recnum);
    }
  }

  lemma OffPathPage(s: Store, t: Store, stack: seq<Step>, p: nat, recs: seq<Rec>, adjust: int, q: nat)
    requires Adjusted(s, t, stack, p, recs, adjust) && q in s && !OnPath(stack, p, q)
    ensures q in t && t[q] == s[q]
  {
  }

  lemma KeptInternal(s: Store, t: Store, q: nat, lo: Bound, hi: Bound, recnum: bool)
    requires Shape(s) && Shape(t) && q in s && q in t && s[q].Internal? && t[q] == s[q]
    requires forall i :: 0 <= i < |s[q].ents| ==>
               Kept(s, t, s[q].ents[i].pgno, LowOf(s[q].ents, i, lo), HighOf(s[q].ents, i, hi), recnum)
    ensures Kept(s, t, q, lo, hi, recnum)
  {
    hide Good, InOrder, InOrderOf, Shape, GoodChild;
    var ents := s[q].ents;
    InternalOrder(s, q);
    InternalOrder(t, q);
    InOrderOfSame(s, t, ents, s[q].level - 1);
    if Good(s, q, lo, hi, recnum) {
      GoodParts(s, q, lo, hi, recnum);
      var below := s[q].level - 1;
      forall i | 0 <= i < |ents|
        ensures GoodChild(t, ents, i, lo, hi, recnum, below)
      {
        KeptGoodChild(s, t, ents, i, lo, hi, recnum, below);
      }
      GoodInternal(t, q, lo, hi, recnum);
    }
  }

  lemma KeptGoodChild(s: Store, t: Store, ents: seq<Entry>, i: nat, lo: Bound, hi: Bound, recnum: bool, below: nat)
    requires Shape(s) && Shape(t) && Children(s, ents, below) && Children(t, ents, below) && i < |ents|
    requires Kept(s, t, ents[i].pgno, LowOf(ents, i, lo), HighOf(ents, i, hi), recnum)
    requires GoodChild(s, ents, i, lo, hi, recnum, below)
    ensures GoodChild(t, ents, i, lo, hi, recnum, below)
  {
    hide Good, InOrder;
  }

  lemma OneLeaf(s: Store, t: Store, q: nat, lo: Bound, hi: Bound, recnum: bool)
    requires Shape(s) && Shape(t) && q in s && q in t && s[q].Leaf? && t[q] == s[q]
    ensures Kept(s, t, q, lo, hi, recnum)
  {
    RecsOne(s, q);
    RecsOne(t, q);
  }

  lemma InternalOrder(s: Store, q: nat)
    requires Shape(s) && q in s && s[q].Internal?
    ensures s[q].level > LEAFLEVEL && Children(s, s[q].ents, s[q].level - 1)
    ensures InOrder(s, q) == InOrderOf(s, s[q].ents, s[q].level - 1)
  {
    InternalLeaves(s, q);
  }

  lemma ChildOffPath(s: Store, root: nat, stack: seq<Step>, p: nat, key: Key, q: nat, i: nat)
    requires Shape(s) && Unique(s, root) && Path(s, root, stack, p, key) && q in s && !OnPath(stack, p, q)
    requires s[q].Internal? && i < |s[q].ents|
    ensures s[q].ents[i].pgno in s && !OnPath(stack, p, s[q].ents[i].pgno) && Level(s[s[q].ents[i].pgno]) < Level(s[q])
  {
    if OnPath(stack, p, s[q].ents[i].pgno) {
      ParentOnPath(s, root, stack, p, key, q, i);
      assert false;
    }
  }

  lemma {:induction false} InOrderOfSame(s: Store, t: Store, ents: seq<Entry>, level: nat)
    requires Shape(s) && Shape(t) && Children(s, ents, level) && Children(t, ents, level)
    requires forall i :: 0 <= i < |ents| ==> InOrder(t, ents[i].pgno) == InOrder(s, ents[i].pgno)
    ensures InOrderOf(t, ents, level) == InOrderOf(s, ents, level)
  {
    hide Shape, Leaves, LeavesOf, Recs;
    if ents == [] {
      LeavesOfNone(s, level);
      LeavesOfNone(t, level);
      RecsNone(s);
      RecsNone(t);
    } else {
      var n := |ents| - 1;
      LeavesOfLast(s, ents, level);
      LeavesOfLast(t, ents, level);
      InOrderOfSame(s, t, ents[..n], level);
      RecsAppend(s, LeavesOf(s, ents[..n], level), Leaves(s, ents[n].pgno));
      RecsAppend(t, LeavesOf(t, ents[..n], level), Leaves(t, ents[n].pgno));
    }
  }

  // ---- The path itself ----

  /** The page of the search at depth `m`. */
  function PageAt(stack: seq<Step>, p: nat, m: nat): nat
    requires m <= |stack|
  {
    if m == |stack| then p else stack[m].pgno
  }

  lemma {:induction false} PathLevels(s: Store, root: nat, stack: seq<Step>, p: nat, key: Key, k: nat, m: nat)
    requires Shape(s) && root in s && Path(s, root, stack, p, key) && k <= m <= |stack|
    ensures PageAt(stack, p, k) in s && PageAt(stack, p, m) in s
    ensures Level(s[PageAt(stack, p, m)]) + (m - k) == Level(s[PageAt(stack, p, k)])
    decreases m - k, k
  {
    hide Path;
    if k < m {
      PathLevels(s, root, stack, p, key, k, m - 1);
      PathEntry(s, root, stack, p, key, m - 1);
      ChildLevel(s, stack[m - 1].pgno, stack[m - 1].indx);
    } else if k > 0 {
      PathLevels(s, root, stack, p, key, k - 1, k - 1);
      PathEntry(s, root, stack, p, key, k - 1);
      ChildLevel(s, stack[k - 1].pgno, stack[k - 1].indx);
    } else {
      PathStart(s, root, stack, p, key);
    }
  }

  lemma PathStart(s: Store, root: nat, stack: seq<Step>, p: nat, key: Key)
    requires Path(s, root, stack, p, key)
    ensures PageAt(stack, p, 0) == root
  {
  }

  lemma ChildLevel(s: Store, q: nat, i: nat)
    requires Shape(s) && q in s && Refers(s, q, i)
    ensures s[q].ents[i].pgno in s && Level(s[s[q].ents[i].pgno]) + 1 == Level(s[q])
  {
    assert Children(s, s[q].ents, s[q].level - 1);
  }

  /** Of the children of a path page only the one taken is on the path. */
  lemma OtherChildOff(s: Store, root: nat, stack: seq<Step>, p: nat, key: Key, m: nat, i: nat)
    requires Shape(s) && Unique(s, root) && root in s && Path(s, root, stack, p, key) && m < |stack|
    requires stack[m].pgno in s && Refers(s, stack[m].pgno, i) && i != stack[m].indx
    ensures !OnPath(stack, p, s[stack[m].pgno].ents[i].pgno)
  {
    hide Path, Unique, Shape;
    var q := stack[m].pgno;
    if OnPath(stack, p, s[q].ents[i].pgno) {
      ParentOnPath(s, root, stack, p, key, q, i);
      var k :| 0 <= k < |stack| && stack[k] == Step(q, i);
      if k < m {
        PathLevels(s, root, stack, p, key, k, m);
      } else {
        PathLevels(s, root, stack, p, key, m, k);
      }
      assert false;
    }
  }

  /** The new records of the leaf: sorted, with keys that were there or the searched key, and
    * with as many live records more as the counts are told. */
  ghost predicate Fitting(before: seq<Rec>, recs: seq<Rec>, key: Key, adjust: int) {
    && SortedRecs(recs)
    && (forall r <- recs :: r.key == key || exists x :: x in before && x.key == r.key)
    && Live(recs) == Live(before) + adjust
  }

  lemma FittingRange(before: seq<Rec>, recs: seq<Rec>, key: Key, adjust: int, lo: Bound, hi: Bound)
    requires Fitting(before, recs, key, adjust) && AboveLow(lo, key) && BelowHigh(key, hi)
    requires forall r <- before :: AboveLow(lo, r.key) && BelowHigh(r.key, hi)
    ensures forall r <- recs :: AboveLow(lo, r.key) && BelowHigh(r.key, hi)
  {
  }

  ghost predicate Change(s: Store, t: Store, root: nat, stack: seq<Step>, p: nat, key: Key, recs: seq<Rec>, adjust: int) {
    && Shape(s) && Shape(t) && Unique(s, root) && root in s
    && Path(s, root, stack, p, key) && Adjusted(s, t, stack, p, recs, adjust)
    && Fitting(s[p].recs, recs, key, adjust)
  }

  lemma HoldsInBounds(ents: seq<Entry>, i: nat, key: Key, lo: Bound, hi: Bound)
    requires Holds(ents, i, key) && AboveLow(lo, key) && BelowHigh(key, hi)
    ensures AboveLow(LowOf(ents, i, lo), key) && BelowHigh(key, HighOf(ents, i, hi))
  {
  }

  lemma {:induction false} OnPathGood(s: Store, t: Store, root: nat, stack: seq<Step>, p: nat, key: Key, recs: seq<Rec>,
                                      adjust: int, m: nat, lo: Bound, hi: Bound, recnum: bool)
    requires Change(s, t, root, stack, p, key, recs, adjust) && m <= |stack| && Shape(s) && Shape(t)
    requires PageAt(stack, p, m) in s && Good(s, PageAt(stack, p, m), lo, hi, recnum)
    requires AboveLow(lo, key) && BelowHigh(key, hi)
    ensures PageAt(stack, p, m) in t && Good(t, PageAt(stack, p, m), lo, hi, recnum)
    ensures Total(t[PageAt(stack, p, m)]) == Total(s[PageAt(stack, p, m)]) + adjust
    decreases |stack| - m
  {
    hide Good, Change, InOrder, Shape, Total;
    if m == |stack| {
      EndGood(s, t, root, stack, p, key, recs, adjust, lo, hi, recnum);
    } else {
      StepFacts(s, t, root, stack, p, key, recs, adjust, m);
      var x := stack[m];
      var ents := s[x.pgno].ents;
      GoodParts(s, x.pgno, lo, hi, recnum);
      var below := s[x.pgno].level - 1;
      assert GoodChild(s, ents, x.indx, lo, hi, recnum, below);
      HoldsInBounds(ents, x.indx, key, lo, hi);
      OnPathGood(s, t, root, stack, p, key, recs, adjust, m + 1, LowOf(ents, x.indx, lo), HighOf(ents, x.indx, hi), recnum);
      StepGood(s, t, root, stack, p, key, recs, adjust, m, lo, hi, recnum);
      CountedSum(ents, x.indx, adjust);
      TotalOfEntries(s[x.pgno]);
      TotalOfEntries(t[x.pgno]);
    }
  }

  lemma TotalOfEntries(n: Node)
    ensures n.Internal? ==> Total(n) == Sum(n.ents)
  {
  }

  lemma EndGood(s: Store, t: Store, root: nat, stack: seq<Step>, p: nat, key: Key, recs: seq<Rec>,
                adjust: int, lo: Bound, hi: Bound, recnum: bool)
    requires Change(s, t, root, stack, p, key, recs, adjust) && Shape(s) && p in s && Good(s, p, lo, hi, recnum)
    requires AboveLow(lo, key) && BelowHigh(key, hi)
    ensures Shape(t) && p in t && Good(t, p, lo, hi, recnum) && Total(t[p]) == Total(s[p]) + adjust
  {
    FittingRange(s[p].recs, recs, key, adjust, lo, hi);
  }

  lemma StepFacts(s: Store, t: Store, root: nat, stack: seq<Step>, p: nat, key: Key, recs: seq<Rec>, adjust: int, m: nat)
    requires Change(s, t, root, stack, p, key, recs, adjust) && m < |stack|
    ensures var x := stack[m];
            && x.pgno in s && x.pgno in t && s[x.pgno].Internal? && Holds(s[x.pgno].ents, x.indx, key)
            && s[x.pgno].ents[x.indx].pgno == PageAt(stack, p, m + 1) && PageAt(stack, p, m + 1) in s
            && t[x.pgno] == Internal(Counted(s[x.pgno].ents, x.indx, adjust), s[x.pgno].level)
    ensures Shape(s) && Shape(t)
  {
    PathEntry(s, root, stack, p, key, m);
  }

  lemma StepGood(s: Store, t: Store, root: nat, stack: seq<Step>, p: nat, key: Key, recs: seq<Rec>, adjust: int,
                 m: nat, lo: Bound, hi: Bound, recnum: bool)
    requires Change(s, t, root, stack, p, key, recs, adjust) && m < |stack|
    requires stack[m].pgno in s && Good(s, stack[m].pgno, lo, hi, recnum)
    requires var x := stack[m]; var e := PageAt(stack, p, m + 1);
             && s[x.pgno].Internal? && x.indx < |s[x.pgno].ents| && e in s && e in t && Shape(t)
             && Good(t, e, LowOf(s[x.pgno].ents, x.indx, lo), HighOf(s[x.pgno].ents, x.indx, hi), recnum)
             && Total(t[e]) == Total(s[e]) + adjust
    ensures stack[m].pgno in t && Good(t, stack[m].pgno, lo, hi, recnum)
  {
    hide Good, Change, InOrder, GoodChild;
    StepFacts(s, t, root, stack, p, key, recs, adjust, m);
    var x := stack[m];
    var ents, new' := s[x.pgno].ents, t[x.pgno].ents;
    GoodParts(s, x.pgno, lo, hi, recnum);
    InternalLeaves(t, x.pgno);
    CountedSeparators(ents, x.indx, adjust, lo, hi);
    var below := s[x.pgno].level - 1;
    forall i | 0 <= i < |new'|
      ensures GoodChild(t, new', i, lo, hi, recnum, below)
    {
      assert GoodChild(s, ents, i, lo, hi, recnum, below);
      if i == x.indx {
        TakenChild(s, t, ents, i, adjust, lo, hi, recnum, below);
      } else {
        OffChild(s, t, root, stack, p, key, recs, adjust, m, i, lo, hi, recnum, below);
      }
    }
    GoodInternal(t, x.pgno, lo, hi, recnum);
  }

  lemma TakenChild(s: Store, t: Store, ents: seq<Entry>, i: nat, adjust: int, lo: Bound, hi: Bound, recnum: bool, below: nat)
    requires Shape(s) && Shape(t) && Children(s, ents, below) && i < |ents| && Children(t, Counted(ents, i, adjust), below)
    requires GoodChild(s, ents, i, lo, hi, recnum, below)
    requires ents[i].pgno in t && Good(t, ents[i].pgno, LowOf(ents, i, lo), HighOf(ents, i, hi), recnum)
    requires Total(t[ents[i].pgno]) == Total(s[ents[i].pgno]) + adjust
    ensures GoodChild(t, Counted(ents, i, adjust), i, lo, hi, recnum, below)
  {
    hide Good, InOrder, Total;
    if recnum {
      TotalIsLive(s, ents[i].pgno, LowOf(ents, i, lo), HighOf(ents, i, hi));
      TotalIsLive(t, ents[i].pgno, LowOf(ents, i, lo), HighOf(ents, i, hi));
    }
  }

  lemma OffChild(s: Store, t: Store, root: nat, stack: seq<Step>, p: nat, key: Key, recs: seq<Rec>, adjust: int,
                 m: nat, i: nat, lo: Bound, hi: Bound, recnum: bool, below: nat)
    requires Change(s, t, root, stack, p, key, recs, adjust) && m < |stack|
    requires stack[m].pgno in s && s[stack[m].pgno].Internal? && i < |s[stack[m].pgno].ents| && i != stack[m].indx
    requires Shape(s) && Shape(t) && stack[m].indx < |s[stack[m].pgno].ents|
    requires Children(s, s[stack[m].pgno].ents, below)
    requires Children(t, Counted(s[stack[m].pgno].ents, stack[m].indx, adjust), below)
    requires GoodChild(s, s[stack[m].pgno].ents, i, lo, hi, recnum, below)
    ensures GoodChild(t, Counted(s[stack[m].pgno].ents, stack[m].indx, adjust), i, lo, hi, recnum, below)
  {
    hide Good, InOrder, Adjusted, Path, Unique, Shape, Fitting;
    var ents := s[stack[m].pgno].ents;
    OtherChildOff(s, root, stack, p, key, m, i);
    OffPathSame(s, t, root, stack, p, key, recs, adjust, ents[i].pgno, LowOf(ents, i, lo), HighOf(ents, i, hi), recnum);
  }

  lemma CountedSeparators(ents: seq<Entry>, i: nat, adjust: int, lo: Bound, hi: Bound)
    requires i < |ents| && Separators(ents, lo, hi)
    ensures Separators(Counted(ents, i, adjust), lo, hi)
  {
    hide Lt;
    var c := Counted(ents, i, adjust);
    assert forall k :: 0 <= k < |ents| ==> c[k].key == ents[k].key;
  }

  lemma {:induction false} CountedSum(ents: seq<Entry>, i: nat, adjust: int)
    requires i < |ents|
    ensures Sum(Counted(ents, i, adjust)) == Sum(ents) + adjust
  {
    var c, n := Counted(ents, i, adjust), |ents| - 1;
    if i < n {
      assert c[..n] == Counted(ents[..n], i, adjust);
      CountedSum(ents[..n], i, adjust);
    } else {
      assert c[..n] == ents[..n];
    }
  }

  // ---- The theorem ----

  /** `__bam_adjust` after an insert or a logical delete: the tree is valid again, its counts
    * are right, and only the records of the one leaf have changed. */
  lemma AdjustKeeps(s: Store, t: Store, root: nat, stack: seq<Step>, p: nat, key: Key, recs: seq<Rec>, adjust: int,
                    recnum: bool, before: seq<nat>, after: seq<nat>)
    requires Valid(s, root, recnum) && Path(s, root, stack, p, key) && Adjusted(s, t, stack, p, recs, adjust)
    requires Fitting(s[p].recs, recs, key, adjust) && Around(s, root, before, p, after)
    ensures Valid(t, root, recnum) && Around(t, root, before, p, after)
    ensures (forall l <- before :: l in s && s[l].Leaf?) && (forall l <- after :: l in s && s[l].Leaf?)
    ensures InOrder(t, root) == Recs(s, before) + recs + Recs(s, after)
    ensures Level(t[root]) == Level(s[root])
  {
    hide Adjusted, Good, Path, Fitting, Shape, Unique, Chained, Leaves, Recs;
    AdjustedShape(s, t, stack, p, recs, adjust, root);
    AdjustedKeys(s, t, stack, p, recs, adjust);
    PathStart(s, root, stack, p, key);
    OnPathGood(s, t, root, stack, p, key, recs, adjust, 0, Open, Open, recnum);
    AdjustedLeaves(s, t, stack, p, recs, adjust, root);
    AdjustedLeaves(s, t, stack, p, recs, adjust, p);
    AdjustedPage(s, t, stack, p, recs, adjust, root);
    AdjustedChain(s, t, stack, p, recs, adjust, Leaves(s, root));
    AdjustedFlat(s, t, root, stack, p, recs, adjust, before, after);
  }

  lemma AdjustedChain(s: Store, t: Store, stack: seq<Step>, p: nat, recs: seq<Rec>, adjust: int, ls: seq<nat>)
    requires Adjusted(s, t, stack, p, recs, adjust)
    requires (forall l <- ls :: l in s && s[l].Leaf?) && Chained(s, ls)
    ensures (forall l <- ls :: l in t && t[l].Leaf?) && Chained(t, ls)
  {
    hide Adjusted;
    AdjustedKeys(s, t, stack, p, recs, adjust);
    forall l <- ls
      ensures l in t && t[l].Leaf? && t[l].prev == s[l].prev && t[l].next == s[l].next
    {
      AdjustedPage(s, t, stack, p, recs, adjust, l);
    }
    forall i | 0 <= i < |ls|
      ensures Linked(t, ls, i)
    {
      assert Linked(s, ls, i) && ls[i] in ls;
    }
  }

  lemma AdjustedFlat(s: Store, t: Store, root: nat, stack: seq<Step>, p: nat, recs: seq<Rec>, adjust: int,
                     before: seq<nat>, after: seq<nat>)
    requires Adjusted(s, t, stack, p, recs, adjust) && Shape(s) && Shape(t) && root in s && root in t
    requires Around(s, root, before, p, after) && Leaves(t, root) == Leaves(s, root) && Chained(s, Leaves(s, root))
    ensures (forall l <- before :: l in s && s[l].Leaf?) && (forall l <- after :: l in s && s[l].Leaf?)
    ensures (forall l <- before + after :: l in t && t[l].Leaf?)
    ensures InOrder(t, root) == Recs(s, before) + recs + Recs(s, after)
  {
    hide Adjusted, Linked;
    AdjustedKeys(s, t, stack, p, recs, adjust);
    assert Leaves(s, p) == [p];
    var ls := Leaves(s, root);
    assert ls == before + [p] + after;
    assert ls[|before|] == p;
    forall l <- before + after
      ensures l in s && s[l].Leaf? && l in t && t[l].Leaf? && t[l].recs == s[l].recs
    {
      AdjustedPage(s, t, stack, p, recs, adjust, l);
      NotTwice(before, p, after, l);
    }
    AdjustedLeaf(s, t, stack, p, recs, adjust);
    assert forall l <- before :: l in before + after;
    assert forall l <- after :: l in before + after;
    SameRecs(s, t, before);
    SameRecs(s, t, after);
    RecsOne(t, p);
    RecsAppend(t, before + [p], after);
    RecsAppend(t, before, [p]);
  }

  lemma AdjustedLeaf(s: Store, t: Store, stack: seq<Step>, p: nat, recs: seq<Rec>, adjust: int)
    requires Adjusted(s, t, stack, p, recs, adjust)
    ensures p in t && t[p].Leaf? && t[p].recs == recs
  {
  }

  lemma NotTwice(before: seq<nat>, p: nat, after: seq<nat>, l: nat)
    requires var ls := before + [p] + after; forall i, j :: 0 <= i < j < |ls| ==> ls[i] != ls[j]
    requires l in before + after
    ensures l != p
  {
    var ls := before + [p] + after;
    assert ls[|before|] == p;
    var k :| 0 <= k < |before + after| && (before + after)[k] == l;
    if k < |before| {
      assert ls[k] == l;
    } else {
      assert ls[k + 1] == l;
    }
  }
}
