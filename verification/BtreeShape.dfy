/** A btree over a store of pages: what it means, and that page and root splits keep the
  * meaning.  Pages are modelled by their records or entries; on a leaf, the records of one
  * key are an on-page duplicate set. */
module BtreeShape {
  import opened Bytes

  const PGNO_INVALID: nat := 0
  const LEAFLEVEL: nat := 1

  type Key = seq<byte>

  predicate Lt(a: Key, b: Key) {
    Compare(a, b) < 0
  }

  datatype Rec = Rec(key: Key, data: seq<byte>, deleted: bool)

  datatype Entry = Entry(key: Key, pgno: nat, nrecs: int)

  datatype Node =
    | Leaf(recs: seq<Rec>, prev: nat, next: nat)
    | Internal(ents: seq<Entry>, level: nat)

  type Store = map<nat, Node>

  function Level(n: Node): nat {
    match n
    case Leaf(_, _, _) => LEAFLEVEL
    case Internal(_, level) => level
  }

  // ---- Shape: every path from a page to a leaf has the length its level says ----

  ghost predicate Children(s: Store, ents: seq<Entry>, level: nat) {
    forall i :: 0 <= i < |ents| ==> ents[i].pgno in s && Level(s[ents[i].pgno]) == level
  }

  ghost predicate Shape(s: Store) {
    && PGNO_INVALID !in s
    && forall p <- s :: s[p].Internal? ==>
         s[p].level > LEAFLEVEL && s[p].ents != [] && Children(s, s[p].ents, s[p].level - 1)
  }

  predicate Refers(s: Store, p: nat, i: int)
    requires p in s
  {
    s[p].Internal? && 0 <= i < |s[p].ents|
  }

  /** No page has two parents, and the root has none. */
  ghost predicate Unique(s: Store, root: nat) {
    && (forall p <- s, i :: Refers(s, p, i) ==> s[p].ents[i].pgno != root)
    && (forall p <- s, q <- s, i, j :: Refers(s, p, i) && Refers(s, q, j) && s[p].ents[i].pgno == s[q].ents[j].pgno
                                       ==> p == q && i == j)
  }

  // ---- Meaning: the leaves from left to right and the records on them ----

  ghost function Leaves(s: Store, p: nat): (ls: seq<nat>)
    requires Shape(s) && p in s
    ensures forall l <- ls :: l in s && s[l].Leaf?
    decreases Level(s[p]), 1, 0
  {
    match s[p]
    case Leaf(_, _, _) => [p]
    case Internal(ents, level) => LeavesOf(s, ents, level - 1)
  }

  ghost function LeavesOf(s: Store, ents: seq<Entry>, level: nat): (ls: seq<nat>)
    requires Shape(s) && Children(s, ents, level)
    ensures forall l <- ls :: l in s && s[l].Leaf?
    decreases level + 1, 0, |ents|
  {
    if ents == [] then []
    else
      var n := |ents| - 1;
      LeavesOf(s, ents[..n], level) + Leaves(s, ents[n].pgno)
  }

  ghost function Recs(s: Store, ls: seq<nat>): seq<Rec>
    requires forall l <- ls :: l in s && s[l].Leaf?
  {
    if ls == [] then [] else Recs(s, ls[..|ls| - 1]) + s[ls[|ls| - 1]].recs
  }

  /** The records below a page, in order. */
  ghost function InOrder(s: Store, p: nat): seq<Rec>
    requires Shape(s) && p in s
  {
    Recs(s, Leaves(s, p))
  }

  ghost function InOrderOf(s: Store, ents: seq<Entry>, level: nat): seq<Rec>
    requires Shape(s) && Children(s, ents, level)
  {
    Recs(s, LeavesOf(s, ents, level))
  }

  /** Records that are not logically deleted. */
  function Live(recs: seq<Rec>): nat {
    if recs == [] then 0 else Live(recs[..|recs| - 1]) + if recs[|recs| - 1].deleted then 0 else 1
  }

  // ---- Order and counts ----

  datatype Bound = Open | At(key: Key)

  predicate AboveLow(lo: Bound, k: Key) {
    lo.At? ==> !Lt(k, lo.key)
  }

  predicate BelowHigh(k: Key, hi: Bound) {
    hi.At? ==> Lt(k, hi.key)
  }

  function LowOf(ents: seq<Entry>, i: nat, lo: Bound): Bound
    requires i < |ents|
  {
    if i == 0 then lo else At(ents[i].key)
  }

  function HighOf(ents: seq<Entry>, i: nat, hi: Bound): Bound
    requires i < |ents|
  {
    if i + 1 == |ents| then hi else At(ents[i + 1].key)
  }

  ghost predicate SortedRecs(recs: seq<Rec>) {
    forall i, j :: 0 <= i < j < |recs| ==> !Lt(recs[j].key, recs[i].key)
  }

  /** The separators of a page grow and lie within its bounds; the first key is never used. */
  ghost predicate Separators(ents: seq<Entry>, lo: Bound, hi: Bound) {
    && (forall i :: 1 <= i < |ents| ==> (lo.At? ==> Lt(lo.key, ents[i].key)) && BelowHigh(ents[i].key, hi))
    && (forall i, j :: 1 <= i < j < |ents| ==> Lt(ents[i].key, ents[j].key))
  }

  /** A subtree whose keys lie in [lo, hi), divided by its separators, with right counts if
    * the tree keeps record numbers. */
  ghost predicate Good(s: Store, p: nat, lo: Bound, hi: Bound, recnum: bool)
    requires Shape(s) && p in s
    decreases Level(s[p]), 1
  {
    match s[p]
    case Leaf(recs, _, _) => SortedRecs(recs) && forall r <- recs :: AboveLow(lo, r.key) && BelowHigh(r.key, hi)
    case Internal(ents, level) =>
      var below := level - 1;
      && Separators(ents, lo, hi)
      && forall i :: 0 <= i < |ents| ==> GoodChild(s, ents, i, lo, hi, recnum, below)
  }

  ghost predicate GoodChild(s: Store, ents: seq<Entry>, i: nat, lo: Bound, hi: Bound, recnum: bool, level: nat)
    requires Shape(s) && Children(s, ents, level) && i < |ents|
    decreases level + 1, 0
  {
    && Good(s, ents[i].pgno, LowOf(ents, i, lo), HighOf(ents, i, hi), recnum)
    && (recnum ==> ents[i].nrecs == Live(InOrder(s, ents[i].pgno)))
  }

  /** The leaves are linked in order. */
  ghost predicate Chained(s: Store, ls: seq<nat>)
    requires forall l <- ls :: l in s && s[l].Leaf?
  {
    && (forall i, j :: 0 <= i < j < |ls| ==> ls[i] != ls[j])
    && (forall i :: 0 <= i < |ls| ==> Linked(s, ls, i))
  }

  ghost predicate Linked(s: Store, ls: seq<nat>, i: nat)
    requires i < |ls| && ls[i] in s && s[ls[i]].Leaf?
  {
    && s[ls[i]].prev == (if i == 0 then PGNO_INVALID else ls[i - 1])
    && s[ls[i]].next == (if i + 1 == |ls| then PGNO_INVALID else ls[i + 1])
  }

  ghost predicate Valid(s: Store, root: nat, recnum: bool) {
    && root in s && Shape(s) && Unique(s, root)
    && Good(s, root, Open, Open, recnum)
    && Chained(s, Leaves(s, root))
  }

  // ---- Small facts ----

  lemma LtTrans(a: Key, b: Key, c: Key)
    ensures Lt(a, b) && !Lt(c, b) ==> Lt(a, c)
    ensures !Lt(b, a) && Lt(b, c) ==> Lt(a, c)
    ensures !Lt(b, a) && !Lt(c, b) ==> !Lt(c, a)
    ensures Lt(a, b) ==> !Lt(b, a) && a != b
    ensures !Lt(a, b) && !Lt(b, a) ==> a == b
  {
    CompareIsDictionaryOrder(a, b);
    CompareIsDictionaryOrder(b, c);
    CompareIsDictionaryOrder(a, c);
    if Compare(a, b) <= 0 && Compare(b, c) <= 0 {
      CompareTransitive(a, b, c);
    }
  }

  lemma {:induction false} RecsAppend(s: Store, a: seq<nat>, b: seq<nat>)
    requires forall l <- a + b :: l in s && s[l].Leaf?
    ensures forall l <- a :: l in s && s[l].Leaf?
    ensures forall l <- b :: l in s && s[l].Leaf?
    ensures Recs(s, a + b) == Recs(s, a) + Recs(s, b)
  {
    assert forall l <- a :: l in a + b;
    assert forall l <- b :: l in a + b;
    if b == [] {
      assert a + b == a;
    } else {
      var n := |b| - 1;
      assert (a + b)[..|a + b| - 1] == a + b[..n];
      assert forall l <- a + b[..n] :: l in a + b;
      RecsAppend(s, a, b[..n]);
    }
  }

  lemma {:induction false} LiveAppend(a: seq<Rec>, b: seq<Rec>)
    ensures Live(a + b) == Live(a) + Live(b)
  {
    if b == [] {
      assert a + b == a;
    } else {
      assert (a + b)[..|a + b| - 1] == a + b[..|b| - 1];
      LiveAppend(a, b[..|b| - 1]);
    }
  }

  lemma {:induction false} LeavesOfAppend(s: Store, a: seq<Entry>, b: seq<Entry>, level: nat)
    requires Shape(s) && Children(s, a, level) && Children(s, b, level)
    ensures Children(s, a + b, level)
    ensures LeavesOf(s, a + b, level) == LeavesOf(s, a, level) + LeavesOf(s, b, level)
  {
    if b == [] {
      assert a + b == a;
    } else {
      var n := |b| - 1;
      assert (a + b)[..|a + b| - 1] == a + b[..n];
      LeavesOfAppend(s, a, b[..n], level);
    }
  }

  lemma LeavesOfNone(s: Store, level: nat)
    requires Shape(s)
    ensures Children(s, [], level) && LeavesOf(s, [], level) == []
  {
  }

  lemma LeavesOfLast(s: Store, ents: seq<Entry>, level: nat)
    requires Shape(s) && ents != [] && Children(s, ents, level)
    ensures Children(s, ents[..|ents| - 1], level) && ents[|ents| - 1].pgno in s
    ensures LeavesOf(s, ents, level) == LeavesOf(s, ents[..|ents| - 1], level) + Leaves(s, ents[|ents| - 1].pgno)
  {
    hide Shape, Leaves;
  }

  lemma ChildrenLast(s: Store, ents: seq<Entry>, level: nat)
    requires ents != [] && Children(s, ents[..|ents| - 1], level)
    requires ents[|ents| - 1].pgno in s && Level(s[ents[|ents| - 1].pgno]) == level
    ensures Children(s, ents, level)
  {
    var n := |ents| - 1;
    forall i | 0 <= i < |ents|
      ensures ents[i].pgno in s && Level(s[ents[i].pgno]) == level
    {
      if i < n {
        assert ents[..n][i] == ents[i];
      }
    }
  }

  lemma LeavesOfOne(s: Store, e: Entry, level: nat)
    requires Shape(s) && Children(s, [e], level)
    ensures e.pgno in s && LeavesOf(s, [e], level) == Leaves(s, e.pgno)
  {
    assert [e][0].pgno in s;
    assert [e][..0] == [];
    assert LeavesOf(s, [], level) == [];
  }

  /** Keys and counts of entries do not matter to where they lead. */
  lemma {:induction false} LeavesOfPages(s: Store, a: seq<Entry>, b: seq<Entry>, level: nat)
    requires Shape(s) && Children(s, a, level) && |a| == |b|
    requires forall i :: 0 <= i < |a| ==> a[i].pgno == b[i].pgno
    ensures Children(s, b, level) && LeavesOf(s, a, level) == LeavesOf(s, b, level)
  {
    if a != [] {
      LeavesOfPages(s, a[..|a| - 1], b[..|b| - 1], level);
    }
  }

  // ---- Pages below a changed page ----

  /** The pages no higher than `x`, except `x` itself, are the same but for links. */
  ghost predicate SameBelow(s: Store, t: Store, x: nat) {
    && x in s && Shape(s) && Shape(t)
    && forall p <- s :: p != x && Level(s[p]) <= Level(s[x]) ==> p in t && SamePage(s[p], t[p])
  }

  /** The same page but for its links. */
  predicate SamePage(a: Node, b: Node) {
    if a.Leaf? then b.Leaf? && b.recs == a.recs else a == b
  }

  lemma {:induction false} SameLeaves(s: Store, t: Store, x: nat, q: nat)
    requires SameBelow(s, t, x) && q in s && q != x && Level(s[q]) <= Level(s[x])
    ensures q in t && Leaves(t, q) == Leaves(s, q)
    ensures forall l <- Leaves(s, q) :: l != x && l in t && t[l].Leaf? && t[l].recs == s[l].recs
    decreases Level(s[q]), 1, 0
  {
    hide LeavesOf;
    if s[q].Internal? {
      assert Children(s, s[q].ents, s[q].level - 1);
      SameLeavesOf(s, t, x, s[q].ents, s[q].level - 1);
    }
  }

  lemma {:induction false} SameLeavesOf(s: Store, t: Store, x: nat, ents: seq<Entry>, level: nat)
    requires SameBelow(s, t, x) && Children(s, ents, level) && level < Level(s[x])
    ensures Children(t, ents, level) && LeavesOf(t, ents, level) == LeavesOf(s, ents, level)
    ensures forall l <- LeavesOf(s, ents, level) :: l != x && l in t && t[l].Leaf? && t[l].recs == s[l].recs
    decreases level + 1, 0, |ents|
  {
    if ents != [] {
      SameLeavesOf(s, t, x, ents[..|ents| - 1], level);
      SameLeaves(s, t, x, ents[|ents| - 1].pgno);
    }
  }

  lemma {:induction false} SameRecs(s: Store, t: Store, ls: seq<nat>)
    requires forall l <- ls :: l in s && s[l].Leaf? && l in t && t[l].Leaf? && t[l].recs == s[l].recs
    ensures Recs(t, ls) == Recs(s, ls)
  {
    if ls != [] {
      SameRecs(s, t, ls[..|ls| - 1]);
    }
  }

  lemma SameInOrder(s: Store, t: Store, x: nat, q: nat)
    requires SameBelow(s, t, x) && q in s && q != x && Level(s[q]) <= Level(s[x])
    ensures q in t && InOrder(t, q) == InOrder(s, q)
  {
    SameLeaves(s, t, x, q);
    SameRecs(s, t, Leaves(s, q));
  }

  lemma {:induction false} SameGood(s: Store, t: Store, x: nat, q: nat, lo: Bound, hi: Bound, recnum: bool)
    requires SameBelow(s, t, x) && q in s && q != x && Level(s[q]) <= Level(s[x])
    requires Good(s, q, lo, hi, recnum)
    ensures q in t && Good(t, q, lo, hi, recnum)
    decreases Level(s[q])
  {
    match s[q]
    case Leaf(_, _, _) =>
    case Internal(ents, level) =>
      var below := level - 1;
      forall i | 0 <= i < |ents|
        ensures GoodChild(t, ents, i, lo, hi, recnum, below)
      {
        assert GoodChild(s, ents, i, lo, hi, recnum, below);
        SameInOrder(s, t, x, ents[i].pgno);
        SameGood(s, t, x, ents[i].pgno, LowOf(ents, i, lo), HighOf(ents, i, hi), recnum);
      }
  }

  // ---- Splitting a page that is not the root ----

  /** The page `cp`, entry `i` of its parent `pp`, is divided at `split`; the new page `rp`
    * takes the rest.  `moved` is the number of records on `rp`. */
  datatype Cut = Cut(pp: nat, i: nat, cp: nat, rp: nat, split: nat, sep: Key, moved: int)

  function Without(ents: seq<Entry>): seq<Entry>
    requires ents != []
  {
    [ents[0].(key := [])] + ents[1..]
  }

  ghost predicate CanCut(s: Store, c: Cut) {
    && Shape(s) && c.pp in s && s[c.pp].Internal? && c.i < |s[c.pp].ents| && s[c.pp].ents[c.i].pgno == c.cp
    && c.rp !in s && c.rp != PGNO_INVALID
    && match s[c.cp]
       case Leaf(recs, _, next) =>
         && 0 < c.split < |recs|
         && Lt(recs[c.split - 1].key, c.sep) && !Lt(recs[c.split].key, c.sep)
         && (next != PGNO_INVALID ==> next != c.cp && next in s && s[next].Leaf?)
       case Internal(ents, _) => 0 < c.split < |ents| && c.sep == ents[c.split].key
  }

  /** The parent's entries after the split. */
  function Parted(ents: seq<Entry>, c: Cut): seq<Entry>
    requires c.i < |ents|
  {
    ents[..c.i] + [ents[c.i].(nrecs := ents[c.i].nrecs - c.moved), Entry(c.sep, c.rp, c.moved)] + ents[c.i + 1..]
  }

  ghost function LeftHalf(s: Store, c: Cut): Node
    requires CanCut(s, c)
  {
    match s[c.cp]
    case Leaf(recs, prev, _) => Leaf(recs[..c.split], prev, c.rp)
    case Internal(ents, level) => Internal(ents[..c.split], level)
  }

  ghost function RightHalf(s: Store, c: Cut): Node
    requires CanCut(s, c)
  {
    match s[c.cp]
    case Leaf(recs, _, next) => Leaf(recs[c.split..], c.cp, next)
    case Internal(ents, level) => Internal(Without(ents[c.split..]), level)
  }

  ghost function AfterCut(s: Store, c: Cut): Store
    requires CanCut(s, c)
  {
    var halves := s[c.pp := Internal(Parted(s[c.pp].ents, c), s[c.pp].level)]
                   [c.cp := LeftHalf(s, c)][c.rp := RightHalf(s, c)];
    if s[c.cp].Leaf? && s[c.cp].next != PGNO_INVALID then
      halves[s[c.cp].next := s[s[c.cp].next].(prev := c.rp)]
    else halves
  }

  /** What is on which page afterwards. */
  lemma CutPages(s: Store, c: Cut)
    requires CanCut(s, c)
    ensures var t := AfterCut(s, c);
            && t.Keys == s.Keys + {c.rp} && c.pp != c.cp
            && t[c.pp] == Internal(Parted(s[c.pp].ents, c), s[c.pp].level)
            && t[c.cp] == LeftHalf(s, c) && t[c.rp] == RightHalf(s, c)
            && Level(s[c.pp]) == Level(s[c.cp]) + 1
            && forall p <- s :: p != c.pp && p != c.cp ==> SamePage(s[p], t[p])
  {
  }

  lemma PartedEntry(ents: seq<Entry>, c: Cut, k: nat)
    requires c.i < |ents| && k <= |ents|
    ensures |Parted(ents, c)| == |ents| + 1
    ensures Parted(ents, c)[k].pgno == if k <= c.i then ents[k].pgno else if k == c.i + 1 then c.rp else ents[k - 1].pgno
    ensures k < c.i ==> Parted(ents, c)[k] == ents[k]
    ensures k == c.i ==> Parted(ents, c)[k] == ents[k].(nrecs := ents[k].nrecs - c.moved)
    ensures k == c.i + 1 ==> Parted(ents, c)[k] == Entry(c.sep, c.rp, c.moved)
    ensures k > c.i + 1 ==> Parted(ents, c)[k] == ents[k - 1]
  {
  }

  /** Entry `k` of page `p` afterwards, and where it was before. */
  ghost function Origin(s: Store, c: Cut, p: nat, k: nat): (nat, int)
    requires CanCut(s, c)
  {
    if p == c.pp then (p, if k <= c.i then k else k - 1)
    else if p == c.rp then (c.cp, c.split + k)
    else (p, k)
  }

  lemma CutEntry(s: Store, c: Cut, p: nat, k: nat)
    requires CanCut(s, c) && p in AfterCut(s, c) && Refers(AfterCut(s, c), p, k)
    ensures p == c.pp && k == c.i + 1 ==> AfterCut(s, c)[p].ents[k].pgno == c.rp
    ensures !(p == c.pp && k == c.i + 1) ==>
              var o := Origin(s, c, p, k);
              o.0 in s && Refers(s, o.0, o.1) && AfterCut(s, c)[p].ents[k].pgno == s[o.0].ents[o.1].pgno
              && Level(AfterCut(s, c)[p]) == Level(s[o.0])
  {
    CutPages(s, c);
    if p == c.pp {
      PartedEntry(s[c.pp].ents, c, k);
    }
  }

  lemma CutShape(s: Store, c: Cut)
    requires CanCut(s, c)
    ensures Shape(AfterCut(s, c))
  {
    var t := AfterCut(s, c);
    CutPages(s, c);
    forall p <- t | t[p].Internal?
      ensures t[p].level > LEAFLEVEL && t[p].ents != [] && Children(t, t[p].ents, t[p].level - 1)
    {
      forall k | 0 <= k < |t[p].ents|
        ensures t[p].ents[k].pgno in t && Level(t[t[p].ents[k].pgno]) == t[p].level - 1
      {
        CutEntry(s, c, p, k);
      }
    }
  }

  lemma CutUnique(s: Store, c: Cut, root: nat)
    requires CanCut(s, c) && Unique(s, root) && root in s
    ensures Unique(AfterCut(s, c), root)
  {
    hide AfterCut, CanCut, Origin;
    var t := AfterCut(s, c);
    forall p <- t, i: int | Refers(t, p, i)
      ensures t[p].ents[i].pgno != root
    {
      CutEntry(s, c, p, i);
      NewPage(s, c);
    }
    forall p <- t, q <- t, i: int, j: int | Refers(t, p, i) && Refers(t, q, j) && t[p].ents[i].pgno == t[q].ents[j].pgno
      ensures p == q && i == j
    {
      CutEntry(s, c, p, i);
      CutEntry(s, c, q, j);
      NewPage(s, c);
      OriginOnce(s, c, p, i, q, j);
    }
  }

  lemma NewPage(s: Store, c: Cut)
    requires CanCut(s, c)
    ensures c.rp !in s && Shape(s)
    ensures forall p <- s, i :: Refers(s, p, i) ==> s[p].ents[i].pgno in s
  {
  }

  lemma OriginOnce(s: Store, c: Cut, p: nat, i: nat, q: nat, j: nat)
    requires CanCut(s, c) && p in AfterCut(s, c) && q in AfterCut(s, c)
    requires Refers(AfterCut(s, c), p, i) && Refers(AfterCut(s, c), q, j)
    ensures Origin(s, c, p, i) == Origin(s, c, q, j) && (p == c.pp && i == c.i + 1 <==> q == c.pp && j == c.i + 1)
            ==> p == q && i == j
  {
    CutPages(s, c);
  }

  lemma CutBelow(s: Store, c: Cut)
    requires CanCut(s, c)
    ensures SameBelow(s, AfterCut(s, c), c.cp)
  {
    CutShape(s, c);
    CutPages(s, c);
  }

  // ---- The two halves ----

  lemma RecsOne(s: Store, l: nat)
    requires l in s && s[l].Leaf?
    ensures Recs(s, [l]) == s[l].recs
  {
    assert [l][..0] == [];
    assert Recs(s, []) == [];
  }

  lemma RecsTwo(s: Store, l: nat, r: nat)
    requires l in s && s[l].Leaf? && r in s && s[r].Leaf?
    ensures Recs(s, [l, r]) == s[l].recs + s[r].recs
  {
    assert [l, r] == [l] + [r];
    RecsAppend(s, [l], [r]);
    RecsOne(s, l);
    RecsOne(s, r);
  }

  /** The leaves with the new leaf behind the one that was divided. */
  ghost function Divided(c: Cut, leaf: bool, ls: seq<nat>): seq<nat> {
    if !leaf || ls == [] then ls
    else
      var n := |ls| - 1;
      Divided(c, leaf, ls[..n]) + if ls[n] == c.cp then [c.cp, c.rp] else [ls[n]]
  }

  lemma {:induction false} DividedAppend(c: Cut, leaf: bool, a: seq<nat>, b: seq<nat>)
    ensures Divided(c, leaf, a + b) == Divided(c, leaf, a) + Divided(c, leaf, b)
  {
    if leaf {
      if b == [] {
        assert a + b == a;
      } else {
        assert (a + b)[..|a + b| - 1] == a + b[..|b| - 1];
        DividedAppend(c, leaf, a, b[..|b| - 1]);
      }
    }
  }

  lemma {:induction false} NotDivided(c: Cut, leaf: bool, ls: seq<nat>)
    requires c.cp !in ls
    ensures Divided(c, leaf, ls) == ls
  {
    if ls != [] {
      NotDivided(c, leaf, ls[..|ls| - 1]);
    }
  }

  /** The records on the leaves do not change. */
  lemma {:induction false} DividedRecs(s: Store, t: Store, c: Cut, ls: seq<nat>)
    requires c.cp in t && t[c.cp].Leaf? && c.rp in t && t[c.rp].Leaf?
    requires forall l <- ls :: l in s && s[l].Leaf? &&
               if l == c.cp then s[l].recs == t[c.cp].recs + t[c.rp].recs
               else l in t && t[l].Leaf? && t[l].recs == s[l].recs
    ensures forall l <- Divided(c, true, ls) :: l in t && t[l].Leaf?
    ensures Recs(t, Divided(c, true, ls)) == Recs(s, ls)
  {
    if ls != [] {
      var n := |ls| - 1;
      var last := if ls[n] == c.cp then [c.cp, c.rp] else [ls[n]];
      DividedRecs(s, t, c, ls[..n]);
      RecsAppend(t, Divided(c, true, ls[..n]), last);
      if ls[n] == c.cp {
        RecsTwo(t, c.cp, c.rp);
      } else {
        RecsOne(t, ls[n]);
      }
    }
  }

  /** The records on any leaves are the same after the split. */
  lemma CutRecs(s: Store, c: Cut, ls: seq<nat>)
    requires CanCut(s, c) && forall l <- ls :: l in s && s[l].Leaf?
    ensures var t, leaf := AfterCut(s, c), s[c.cp].Leaf?;
            && (forall l <- Divided(c, leaf, ls) :: l in t && t[l].Leaf?)
            && Recs(t, Divided(c, leaf, ls)) == Recs(s, ls)
  {
    hide AfterCut;
    CutPages(s, c);
    if s[c.cp].Leaf? {
      assert s[c.cp].recs[..c.split] + s[c.cp].recs[c.split..] == s[c.cp].recs;
      DividedRecs(s, AfterCut(s, c), c, ls);
    } else {
      SameRecs(s, AfterCut(s, c), ls);
    }
  }

  /** The new pages below an internal page lead to the old leaves; a divided leaf becomes two. */
  lemma HalvesLeaves(s: Store, c: Cut)
    requires CanCut(s, c)
    ensures var t := AfterCut(s, c);
            && Shape(t) && c.cp in t && c.rp in t
            && Leaves(t, c.cp) + Leaves(t, c.rp) == Divided(c, s[c.cp].Leaf?, Leaves(s, c.cp))
  {
    hide AfterCut, LeavesOf;
    CutShape(s, c);
    CutPages(s, c);
    if s[c.cp].Leaf? {
      assert [c.cp][..0] == [] && Divided(c, true, []) == [];
      assert Divided(c, true, [c.cp]) == [c.cp, c.rp];
    } else {
      HalvesOfInternal(s, c);
    }
  }

  lemma HalvesOfInternal(s: Store, c: Cut)
    requires CanCut(s, c) && s[c.cp].Internal?
    ensures var t, level := AfterCut(s, c), s[c.cp].level;
            && Shape(t) && Children(t, LeftHalf(s, c).ents, level - 1) && Children(t, RightHalf(s, c).ents, level - 1)
            && LeavesOf(t, LeftHalf(s, c).ents, level - 1) + LeavesOf(t, RightHalf(s, c).ents, level - 1)
            == Leaves(s, c.cp)
  {
    hide AfterCut, LeavesOf, SamePage;
    var t, ents, level := AfterCut(s, c), s[c.cp].ents, s[c.cp].level;
    CutBelow(s, c);
    hide SameBelow;
    assert Children(s, ents, level - 1);
    var left, right := ents[..c.split], ents[c.split..];
    assert ents == left + right;
    LeavesOfAppend(s, left, right, level - 1);
    SameLeavesOf(s, t, c.cp, left, level - 1);
    SameLeavesOf(s, t, c.cp, right, level - 1);
    LeavesOfPages(t, right, Without(right), level - 1);
  }

  lemma HalvesInOrder(s: Store, c: Cut)
    requires CanCut(s, c)
    ensures var t := AfterCut(s, c);
            && Shape(t) && c.cp in t && c.rp in t
            && InOrder(t, c.cp) + InOrder(t, c.rp) == InOrder(s, c.cp)
  {
    HalvesLeaves(s, c);
    assert Shape(s) && c.cp in s;
    hide AfterCut, Leaves, Shape, CanCut;
    var t := AfterCut(s, c);
    CutRecs(s, c, Leaves(s, c.cp));
    RecsAppend(t, Leaves(t, c.cp), Leaves(t, c.rp));
  }

  // ---- The separator divides the keys ----

  lemma LeafHalvesGood(recs: seq<Rec>, split: nat, sep: Key, lo: Bound, hi: Bound)
    requires SortedRecs(recs) && 0 < split < |recs|
    requires forall r <- recs :: AboveLow(lo, r.key) && BelowHigh(r.key, hi)
    requires Lt(recs[split - 1].key, sep) && !Lt(recs[split].key, sep)
    ensures SortedRecs(recs[..split]) && SortedRecs(recs[split..])
    ensures forall r <- recs[..split] :: AboveLow(lo, r.key) && Lt(r.key, sep)
    ensures forall r <- recs[split..] :: !Lt(r.key, sep) && BelowHigh(r.key, hi)
    ensures (lo.At? ==> Lt(lo.key, sep)) && BelowHigh(sep, hi)
  {
    hide Lt;
    forall r | r in recs[..split]
      ensures AboveLow(lo, r.key) && Lt(r.key, sep)
    {
      var k :| 0 <= k < split && recs[k] == r;
      if k < split - 1 {
        LtTrans(r.key, recs[split - 1].key, sep);
      }
    }
    forall r | r in recs[split..]
      ensures !Lt(r.key, sep) && BelowHigh(r.key, hi)
    {
      var k :| split <= k < |recs| && recs[k] == r;
      if k > split {
        LtTrans(sep, recs[split].key, r.key);
      }
    }
    if lo.At? {
      LtTrans(lo.key, recs[split - 1].key, sep);
    }
    if hi.At? {
      LtTrans(sep, recs[split].key, hi.key);
    }
  }

  lemma HalvesGood(s: Store, c: Cut, lo: Bound, hi: Bound, recnum: bool)
    requires CanCut(s, c) && Good(s, c.cp, lo, hi, recnum)
    ensures var t := AfterCut(s, c);
            && Shape(t) && c.cp in t && c.rp in t
            && Good(t, c.cp, lo, At(c.sep), recnum) && Good(t, c.rp, At(c.sep), hi, recnum)
    ensures (lo.At? ==> Lt(lo.key, c.sep)) && BelowHigh(c.sep, hi)
  {
    hide AfterCut, SamePage, Lt, InOrder;
    CutBelow(s, c);
    CutPages(s, c);
    match s[c.cp]
    case Leaf(recs, _, _) => LeafHalvesGood(recs, c.split, c.sep, lo, hi);
    case Internal(ents, level) =>
      LeftGood(s, c, lo, hi, recnum);
      RightGood(s, c, lo, hi, recnum);
  }

  /** A child of the divided page keeps its bounds and its count. */
  lemma ChildKept(s: Store, c: Cut, k: nat, lo: Bound, hi: Bound, recnum: bool)
    requires CanCut(s, c) && s[c.cp].Internal? && k < |s[c.cp].ents| && Good(s, c.cp, lo, hi, recnum)
    ensures var t, ents := AfterCut(s, c), s[c.cp].ents;
            && Shape(t) && Children(t, ents, s[c.cp].level - 1) && ents[k].pgno in t
            && Good(t, ents[k].pgno, LowOf(ents, k, lo), HighOf(ents, k, hi), recnum)
            && (recnum ==> ents[k].nrecs == Live(InOrder(t, ents[k].pgno)))
  {
    var t, ents, below := AfterCut(s, c), s[c.cp].ents, s[c.cp].level - 1;
    assert GoodChild(s, ents, k, lo, hi, recnum, below);
    assert Children(s, ents, below);
    CutBelow(s, c);
    hide AfterCut, InOrder, SameBelow, Good;
    SameLeavesOf(s, t, c.cp, ents, below);
    SameInOrder(s, t, c.cp, ents[k].pgno);
    SameGood(s, t, c.cp, ents[k].pgno, LowOf(ents, k, lo), HighOf(ents, k, hi), recnum);
  }

  lemma SeparatorsHalved(ents: seq<Entry>, split: nat, lo: Bound, hi: Bound)
    requires Separators(ents, lo, hi) && 0 < split < |ents|
    ensures Separators(ents[..split], lo, At(ents[split].key))
    ensures Separators(Without(ents[split..]), At(ents[split].key), hi)
    ensures (lo.At? ==> Lt(lo.key, ents[split].key)) && BelowHigh(ents[split].key, hi)
  {
    hide Lt;
  }

  lemma GoodInternal(t: Store, p: nat, lo: Bound, hi: Bound, recnum: bool)
    requires Shape(t) && p in t && t[p].Internal? && Separators(t[p].ents, lo, hi)
    requires var below := t[p].level - 1;
             forall i :: 0 <= i < |t[p].ents| ==> GoodChild(t, t[p].ents, i, lo, hi, recnum, below)
    ensures Good(t, p, lo, hi, recnum)
  {
  }

  lemma GoodParts(s: Store, p: nat, lo: Bound, hi: Bound, recnum: bool)
    requires Shape(s) && p in s && s[p].Internal? && Good(s, p, lo, hi, recnum)
    ensures s[p].level > LEAFLEVEL && s[p].ents != []
    ensures var below := s[p].level - 1;
            && Children(s, s[p].ents, below) && Separators(s[p].ents, lo, hi)
            && forall i :: 0 <= i < |s[p].ents| ==> GoodChild(s, s[p].ents, i, lo, hi, recnum, below)
  {
  }

  lemma LeftChild(s: Store, c: Cut, i: nat, lo: Bound, hi: Bound, recnum: bool)
    requires CanCut(s, c) && s[c.cp].Internal? && i < |LeftHalf(s, c).ents| && Good(s, c.cp, lo, hi, recnum)
    ensures var t, left, below := AfterCut(s, c), LeftHalf(s, c).ents, s[c.cp].level - 1;
            Shape(t) && Children(t, left, below) && GoodChild(t, left, i, lo, At(c.sep), recnum, below)
  {
    ChildKept(s, c, i, lo, hi, recnum);
    hide AfterCut, Good, InOrder, Shape;
    var ents, left := s[c.cp].ents, LeftHalf(s, c).ents;
    assert LowOf(left, i, lo) == LowOf(ents, i, lo) && HighOf(left, i, At(c.sep)) == HighOf(ents, i, hi);
  }

  lemma RightChild(s: Store, c: Cut, i: nat, lo: Bound, hi: Bound, recnum: bool)
    requires CanCut(s, c) && s[c.cp].Internal? && i < |RightHalf(s, c).ents| && Good(s, c.cp, lo, hi, recnum)
    ensures var t, right, below := AfterCut(s, c), RightHalf(s, c).ents, s[c.cp].level - 1;
            Shape(t) && Children(t, right, below) && GoodChild(t, right, i, At(c.sep), hi, recnum, below)
  {
    hide AfterCut, Good, InOrder, Shape, Children, LowOf, HighOf;
    CutParts(s, c);
    InternalLevel(s, c.cp);
    var k := c.split + i;
    ChildKept(s, c, k, lo, hi, recnum);
    var t, ents, right, below := AfterCut(s, c), s[c.cp].ents, RightHalf(s, c).ents, s[c.cp].level - 1;
    RightEntries(ents, c.split, i, lo, hi);
    RestChildren(t, ents, right, c.split, below);
  }

  lemma InternalLevel(s: Store, p: nat)
    requires Shape(s) && p in s && s[p].Internal?
    ensures s[p].level > LEAFLEVEL
  {
  }

  lemma RightEntries(ents: seq<Entry>, split: nat, i: nat, lo: Bound, hi: Bound)
    requires 0 < split && split + i < |ents|
    ensures var right := Without(ents[split..]);
            && right[i].pgno == ents[split + i].pgno && right[i].nrecs == ents[split + i].nrecs
            && LowOf(right, i, At(ents[split].key)) == LowOf(ents, split + i, lo)
            && HighOf(right, i, hi) == HighOf(ents, split + i, hi)
  {
  }

  lemma RestChildren(t: Store, ents: seq<Entry>, right: seq<Entry>, split: nat, below: nat)
    requires Children(t, ents, below) && split < |ents| && right == Without(ents[split..])
    ensures Children(t, right, below)
  {
  }

  lemma LeftHalfIs(s: Store, c: Cut, lo: Bound, hi: Bound, recnum: bool)
    requires CanCut(s, c) && s[c.cp].Internal? && Good(s, c.cp, lo, hi, recnum)
    ensures var t := AfterCut(s, c);
            && c.cp in s && c.cp in t && LeftHalf(s, c) == t[c.cp] && t[c.cp].Internal? && t[c.cp].level == s[c.cp].level
            && Separators(t[c.cp].ents, lo, At(c.sep))
  {
    CutPages(s, c);
    SeparatorsHalved(s[c.cp].ents, c.split, lo, hi);
  }

  lemma LeftGood(s: Store, c: Cut, lo: Bound, hi: Bound, recnum: bool)
    requires CanCut(s, c) && s[c.cp].Internal? && Good(s, c.cp, lo, hi, recnum)
    ensures var t := AfterCut(s, c);
            Shape(t) && c.cp in t && Good(t, c.cp, lo, At(c.sep), recnum)
  {
    hide AfterCut, SamePage, Separators, Good, GoodChild, Shape, Children, CanCut, LeftHalf;
    CutShape(s, c);
    LeftHalfIs(s, c, lo, hi, recnum);
    var t, left, below := AfterCut(s, c), LeftHalf(s, c).ents, s[c.cp].level - 1;
    forall i | 0 <= i < |left|
      ensures Children(t, left, below) && GoodChild(t, left, i, lo, At(c.sep), recnum, below)
    {
      LeftChild(s, c, i, lo, hi, recnum);
    }
    GoodInternal(t, c.cp, lo, At(c.sep), recnum);
  }

  lemma RightHalfIs(s: Store, c: Cut, lo: Bound, hi: Bound, recnum: bool)
    requires CanCut(s, c) && s[c.cp].Internal? && Good(s, c.cp, lo, hi, recnum)
    ensures var t := AfterCut(s, c);
            && c.cp in s && c.rp in t && RightHalf(s, c) == t[c.rp] && t[c.rp].Internal? && t[c.rp].level == s[c.cp].level
            && Separators(t[c.rp].ents, At(c.sep), hi)
  {
    CutPages(s, c);
    SeparatorsHalved(s[c.cp].ents, c.split, lo, hi);
  }

  lemma RightGood(s: Store, c: Cut, lo: Bound, hi: Bound, recnum: bool)
    requires CanCut(s, c) && s[c.cp].Internal? && Good(s, c.cp, lo, hi, recnum)
    ensures var t := AfterCut(s, c);
            Shape(t) && c.rp in t && Good(t, c.rp, At(c.sep), hi, recnum)
  {
    hide AfterCut, SamePage, Separators, Good, GoodChild, Shape, Children, CanCut, RightHalf;
    CutShape(s, c);
    RightHalfIs(s, c, lo, hi, recnum);
    var t, right, below := AfterCut(s, c), RightHalf(s, c).ents, s[c.cp].level - 1;
    forall i | 0 <= i < |right|
      ensures Children(t, right, below) && GoodChild(t, right, i, At(c.sep), hi, recnum, below)
    {
      RightChild(s, c, i, lo, hi, recnum);
    }
    GoodInternal(t, c.rp, At(c.sep), hi, recnum);
  }

  // ---- The pages above ----

  ghost predicate OnlyParent(s: Store, c: Cut) {
    forall p <- s, k :: Refers(s, p, k) && s[p].ents[k].pgno == c.cp ==> p == c.pp && k == c.i
  }

  lemma ParentIsOnly(s: Store, c: Cut, root: nat)
    requires CanCut(s, c) && Unique(s, root)
    ensures OnlyParent(s, c)
  {
    assert Refers(s, c.pp, c.i);
  }

  lemma {:induction false} AboveLeaves(s: Store, c: Cut, q: nat)
    requires CanCut(s, c) && OnlyParent(s, c) && q in s && Level(s[q]) > Level(s[c.cp])
    ensures Shape(AfterCut(s, c)) && q in AfterCut(s, c)
    ensures Leaves(AfterCut(s, c), q) == Divided(c, s[c.cp].Leaf?, Leaves(s, q))
    decreases Level(s[q]), 1, 0
  {
    hide AfterCut, LeavesOf, Divided;
    var t, ents, level := AfterCut(s, c), s[q].ents, s[q].level - 1;
    CutShape(s, c);
    CutPages(s, c);
    assert Children(s, ents, level);
    if q == c.pp {
      var a, b := ents[..c.i], ents[c.i + 1..];
      assert ents == a + [ents[c.i]] + b;
      forall k | 0 <= k < |ents| && k != c.i
        ensures ents[k].pgno != c.cp
      {
        assert Refers(s, q, k);
      }
      AboveLeavesOf(s, c, a, level);
      AboveLeavesOf(s, c, b, level);
      ParentLeaves(s, c, a, b, level);
    } else {
      forall k | 0 <= k < |ents|
        ensures ents[k].pgno != c.cp
      {
        assert Refers(s, q, k);
      }
      AboveLeavesOf(s, c, ents, level);
    }
  }

  lemma {:induction false} AboveLeavesOf(s: Store, c: Cut, ents: seq<Entry>, level: nat)
    requires CanCut(s, c) && OnlyParent(s, c) && Children(s, ents, level) && level >= Level(s[c.cp])
    requires forall k :: 0 <= k < |ents| ==> ents[k].pgno != c.cp
    ensures Shape(AfterCut(s, c)) && Children(AfterCut(s, c), ents, level)
    ensures LeavesOf(AfterCut(s, c), ents, level) == Divided(c, s[c.cp].Leaf?, LeavesOf(s, ents, level))
    decreases level + 1, 0, |ents|
  {
    var t, leaf := AfterCut(s, c), s[c.cp].Leaf?;
    assert Shape(s);
    CutShape(s, c);
    hide AfterCut, Leaves, LeavesOf, OnlyParent, CanCut, Shape, Divided;
    if ents == [] {
      NotDivided(c, leaf, []);
      LeavesOfNone(s, level);
      LeavesOfNone(t, level);
    } else {
      var n := |ents| - 1;
      LeavesOfLast(s, ents, level);
      AboveLeavesOf(s, c, ents[..n], level);
      AboveChild(s, c, ents[n].pgno);
      ChildrenLast(t, ents, level);
      LeavesOfLast(t, ents, level);
      DividedAppend(c, leaf, LeavesOf(s, ents[..n], level), Leaves(s, ents[n].pgno));
    }
  }

  /** A page that is not divided, at the level of the divided page or above it. */
  lemma {:induction false} AboveChild(s: Store, c: Cut, e: nat)
    requires CanCut(s, c) && OnlyParent(s, c) && e in s && e != c.cp && Level(s[e]) >= Level(s[c.cp])
    ensures Shape(AfterCut(s, c)) && e in AfterCut(s, c)
    ensures Level(AfterCut(s, c)[e]) == Level(s[e])
    ensures Leaves(AfterCut(s, c), e) == Divided(c, s[c.cp].Leaf?, Leaves(s, e))
    decreases Level(s[e]), 1, 1
  {
    hide AfterCut, Leaves, OnlyParent;
    CutShape(s, c);
    CutPages(s, c);
    if Level(s[e]) == Level(s[c.cp]) {
      CutBelow(s, c);
      SameLeaves(s, AfterCut(s, c), c.cp, e);
      NotDivided(c, s[c.cp].Leaf?, Leaves(s, e));
    } else {
      AboveLeaves(s, c, e);
    }
  }

  lemma ParentLeaves(s: Store, c: Cut, a: seq<Entry>, b: seq<Entry>, level: nat)
    requires CanCut(s, c)
    requires s[c.pp].ents == a + [s[c.pp].ents[c.i]] + b && |a| == c.i && level == s[c.pp].level - 1
    requires Shape(AfterCut(s, c)) && Children(s, s[c.pp].ents, level)
    requires Children(AfterCut(s, c), a, level) && Children(AfterCut(s, c), b, level)
    requires Children(s, a, level) && Children(s, b, level)
    requires LeavesOf(AfterCut(s, c), a, level) == Divided(c, s[c.cp].Leaf?, LeavesOf(s, a, level))
    requires LeavesOf(AfterCut(s, c), b, level) == Divided(c, s[c.cp].Leaf?, LeavesOf(s, b, level))
    ensures c.pp in AfterCut(s, c)
    ensures Leaves(AfterCut(s, c), c.pp) == Divided(c, s[c.cp].Leaf?, Leaves(s, c.pp))
  {
    var leaf := s[c.cp].Leaf?;
    OldParentLeaves(s, c, a, b, level);
    NewParentLeaves(s, c, a, b, level);
    HalvesLeaves(s, c);
    hide AfterCut, LeavesOf, Leaves, CanCut, Shape;
    DividedThree(c, leaf, LeavesOf(s, a, level), Leaves(s, c.cp), LeavesOf(s, b, level));
  }

  lemma DividedThree(c: Cut, leaf: bool, a: seq<nat>, x: seq<nat>, b: seq<nat>)
    ensures Divided(c, leaf, a + x + b) == Divided(c, leaf, a) + Divided(c, leaf, x) + Divided(c, leaf, b)
  {
    DividedAppend(c, leaf, a + x, b);
    DividedAppend(c, leaf, a, x);
  }

  lemma OldParentLeaves(s: Store, c: Cut, a: seq<Entry>, b: seq<Entry>, level: nat)
    requires CanCut(s, c)
    requires s[c.pp].ents == a + [s[c.pp].ents[c.i]] + b && |a| == c.i && level == s[c.pp].level - 1
    requires Children(s, a, level) && Children(s, b, level) && Children(s, s[c.pp].ents, level)
    ensures Leaves(s, c.pp) == LeavesOf(s, a, level) + Leaves(s, c.cp) + LeavesOf(s, b, level)
  {
    hide LeavesOf;
    var e := s[c.pp].ents[c.i];
    assert Children(s, [e], level);
    ThreeLeaves(s, a, [e], b, level);
    LeavesOfOne(s, e, level);
  }

  lemma NewParentLeaves(s: Store, c: Cut, a: seq<Entry>, b: seq<Entry>, level: nat)
    requires CanCut(s, c)
    requires s[c.pp].ents == a + [s[c.pp].ents[c.i]] + b && |a| == c.i && level == s[c.pp].level - 1
    requires Shape(AfterCut(s, c)) && Children(AfterCut(s, c), a, level) && Children(AfterCut(s, c), b, level)
    ensures var t := AfterCut(s, c);
            && c.pp in t && c.cp in t && c.rp in t
            && Leaves(t, c.pp) == LeavesOf(t, a, level) + (Leaves(t, c.cp) + Leaves(t, c.rp)) + LeavesOf(t, b, level)
  {
    hide AfterCut, CanCut, Shape, Parted, LeavesOf, Leaves;
    CutLevels(s, c);
    var t, e := AfterCut(s, c), s[c.pp].ents[c.i];
    var e', n := e.(nrecs := e.nrecs - c.moved), Entry(c.sep, c.rp, c.moved);
    PartedParts(s[c.pp].ents, c, a, b);
    NewEntries(t, e', n, level);
    ThreeLeaves(t, a, [e'] + [n], b, level);
    InternalLeaves(t, c.pp);
  }

  lemma PartedParts(ents: seq<Entry>, c: Cut, a: seq<Entry>, b: seq<Entry>)
    requires c.i < |ents| && |a| == c.i && ents == a + [ents[c.i]] + b
    ensures Parted(ents, c)
         == a + ([ents[c.i].(nrecs := ents[c.i].nrecs - c.moved)] + [Entry(c.sep, c.rp, c.moved)]) + b
  {
    assert ents[..c.i] == a && ents[c.i + 1..] == b;
  }

  lemma InternalLeaves(s: Store, p: nat)
    requires Shape(s) && p in s && s[p].Internal?
    ensures Children(s, s[p].ents, s[p].level - 1)
    ensures Leaves(s, p) == LeavesOf(s, s[p].ents, s[p].level - 1)
  {
    hide LeavesOf;
  }

  lemma CutLevels(s: Store, c: Cut)
    requires CanCut(s, c)
    ensures c.pp in s && s[c.pp].Internal? && c.i < |s[c.pp].ents| && s[c.pp].ents[c.i].pgno == c.cp
    ensures var t := AfterCut(s, c);
            && c.cp in t && Level(t[c.cp]) == s[c.pp].level - 1
            && c.rp in t && Level(t[c.rp]) == s[c.pp].level - 1
            && c.pp in t && t[c.pp] == Internal(Parted(s[c.pp].ents, c), s[c.pp].level)
  {
    CutPages(s, c);
  }

  lemma NewEntries(t: Store, e: Entry, n: Entry, level: nat)
    requires Shape(t) && Children(t, [e], level) && Children(t, [n], level)
    ensures e.pgno in t && n.pgno in t && Children(t, [e] + [n], level)
    ensures LeavesOf(t, [e] + [n], level) == Leaves(t, e.pgno) + Leaves(t, n.pgno)
  {
    LeavesOfOne(t, e, level);
    LeavesOfOne(t, n, level);
    LeavesOfAppend(t, [e], [n], level);
  }

  lemma ThreeLeaves(s: Store, a: seq<Entry>, b: seq<Entry>, c: seq<Entry>, level: nat)
    requires Shape(s) && Children(s, a, level) && Children(s, b, level) && Children(s, c, level)
    ensures Children(s, a + b + c, level)
    ensures LeavesOf(s, a + b + c, level) == LeavesOf(s, a, level) + LeavesOf(s, b, level) + LeavesOf(s, c, level)
  {
    LeavesOfAppend(s, a, b, level);
    LeavesOfAppend(s, a + b, c, level);
  }

  /** The records below every page other than the divided one are what they were. */
  lemma KeptInOrder(s: Store, c: Cut, q: nat)
    requires CanCut(s, c) && OnlyParent(s, c) && q in s && q != c.cp
    ensures Shape(AfterCut(s, c)) && q in AfterCut(s, c) && InOrder(AfterCut(s, c), q) == InOrder(s, q)
  {
    hide AfterCut, Leaves, OnlyParent;
    if Level(s[q]) > Level(s[c.cp]) {
      AboveLeaves(s, c, q);
      CutRecs(s, c, Leaves(s, q));
    } else {
      CutBelow(s, c);
      SameInOrder(s, AfterCut(s, c), c.cp, q);
    }
  }

  /** A child that is not divided keeps its bounds and its count. */
  lemma {:induction false} KeptChild(s: Store, c: Cut, e: nat, lo: Bound, hi: Bound, recnum: bool)
    requires CanCut(s, c) && OnlyParent(s, c) && e in s && e != c.cp && Level(s[e]) >= Level(s[c.cp])
    requires Shape(AfterCut(s, c)) && c.rp in AfterCut(s, c)
    requires recnum ==> c.moved == Live(InOrder(AfterCut(s, c), c.rp))
    requires Good(s, e, lo, hi, recnum)
    ensures e in AfterCut(s, c) && Good(AfterCut(s, c), e, lo, hi, recnum)
    ensures InOrder(AfterCut(s, c), e) == InOrder(s, e)
    decreases Level(s[e]), 1
  {
    hide AfterCut, InOrder, OnlyParent, Good;
    KeptInOrder(s, c, e);
    if Level(s[e]) == Level(s[c.cp]) {
      CutBelow(s, c);
      SameGood(s, AfterCut(s, c), c.cp, e, lo, hi, recnum);
    } else {
      AboveGood(s, c, e, lo, hi, recnum);
    }
  }

  /** All the entries but one lead to good subtrees with right counts. */
  ghost predicate OthersGood(t: Store, ents: seq<Entry>, skip: int, lo: Bound, hi: Bound, recnum: bool)
    requires Shape(t)
  {
    forall k :: 0 <= k < |ents| && k != skip ==>
      && ents[k].pgno in t && Good(t, ents[k].pgno, LowOf(ents, k, lo), HighOf(ents, k, hi), recnum)
      && (recnum ==> ents[k].nrecs == Live(InOrder(t, ents[k].pgno)))
  }

  lemma {:induction false} AboveOthers(s: Store, c: Cut, q: nat, lo: Bound, hi: Bound, recnum: bool)
    requires CanCut(s, c) && OnlyParent(s, c) && q in s && Level(s[q]) > Level(s[c.cp])
    requires Shape(AfterCut(s, c)) && c.rp in AfterCut(s, c)
    requires recnum ==> c.moved == Live(InOrder(AfterCut(s, c), c.rp))
    requires Good(s, q, lo, hi, recnum)
    ensures OthersGood(AfterCut(s, c), s[q].ents, if q == c.pp then c.i else -1, lo, hi, recnum)
    decreases Level(s[q]), 0, 0
  {
    hide AfterCut, InOrder;
    var t, ents, below := AfterCut(s, c), s[q].ents, s[q].level - 1;
    forall k | 0 <= k < |ents| && (q != c.pp || k != c.i)
      ensures ents[k].pgno in t && Good(t, ents[k].pgno, LowOf(ents, k, lo), HighOf(ents, k, hi), recnum)
      ensures recnum ==> ents[k].nrecs == Live(InOrder(t, ents[k].pgno))
    {
      assert Refers(s, q, k);
      assert GoodChild(s, ents, k, lo, hi, recnum, below);
      KeptChild(s, c, ents[k].pgno, LowOf(ents, k, lo), HighOf(ents, k, hi), recnum);
    }
  }

  lemma {:induction false} AboveGood(s: Store, c: Cut, q: nat, lo: Bound, hi: Bound, recnum: bool)
    requires CanCut(s, c) && OnlyParent(s, c) && q in s && Level(s[q]) > Level(s[c.cp])
    requires Shape(AfterCut(s, c)) && c.rp in AfterCut(s, c)
    requires recnum ==> c.moved == Live(InOrder(AfterCut(s, c), c.rp))
    requires Good(s, q, lo, hi, recnum)
    ensures q in AfterCut(s, c) && Good(AfterCut(s, c), q, lo, hi, recnum)
    decreases Level(s[q]), 0, 1
  {
    AboveOthers(s, c, q, lo, hi, recnum);
    CutPages(s, c);
    hide AfterCut, InOrder, OthersGood, OnlyParent;
    if q == c.pp {
      ParentGood(s, c, lo, hi, recnum);
    } else {
      GoodFromOthers(AfterCut(s, c), q, lo, hi, recnum);
    }
  }

  lemma GoodFromOthers(t: Store, q: nat, lo: Bound, hi: Bound, recnum: bool)
    requires Shape(t) && q in t && t[q].Internal? && Separators(t[q].ents, lo, hi)
    requires OthersGood(t, t[q].ents, -1, lo, hi, recnum)
    ensures Good(t, q, lo, hi, recnum)
  {
    var ents, below := t[q].ents, t[q].level - 1;
    hide Good, InOrder;
    assert Children(t, ents, below);
    assert forall i :: 0 <= i < |ents| ==> GoodChild(t, ents, i, lo, hi, recnum, below);
    GoodInternal(t, q, lo, hi, recnum);
  }

  lemma PartedSeparators(ents: seq<Entry>, c: Cut, lo: Bound, hi: Bound)
    requires Separators(ents, lo, hi) && c.i < |ents|
    requires LowOf(ents, c.i, lo).At? ==> Lt(LowOf(ents, c.i, lo).key, c.sep)
    requires BelowHigh(c.sep, HighOf(ents, c.i, hi))
    ensures Separators(Parted(ents, c), lo, hi)
  {
    hide Lt;
    var p := Parted(ents, c);
    forall i | 1 <= i < |p|
      ensures (lo.At? ==> Lt(lo.key, p[i].key)) && BelowHigh(p[i].key, hi)
    {
      if i == c.i + 1 {
        SeparatorBounds(ents, c, lo, hi);
      } else {
        assert p[i].key == ents[if i <= c.i then i else i - 1].key;
      }
    }
    forall i, j | 1 <= i < j < |p|
      ensures Lt(p[i].key, p[j].key)
    {
      if i == c.i + 1 {
        assert p[j] == ents[j - 1];
        SeparatorAbove(ents, c, hi, j - 1);
      } else if j == c.i + 1 {
        assert p[i].key == ents[i].key;
        if i < c.i {
          LtTrans(ents[i].key, ents[c.i].key, c.sep);
          LtTrans(c.sep, ents[c.i].key, c.sep);
        }
      } else {
        assert p[i].key == ents[if i <= c.i then i else i - 1].key;
        assert p[j].key == ents[if j <= c.i then j else j - 1].key;
      }
    }
  }

  lemma SeparatorBounds(ents: seq<Entry>, c: Cut, lo: Bound, hi: Bound)
    requires Separators(ents, lo, hi) && c.i < |ents|
    requires LowOf(ents, c.i, lo).At? ==> Lt(LowOf(ents, c.i, lo).key, c.sep)
    requires BelowHigh(c.sep, HighOf(ents, c.i, hi))
    ensures (lo.At? ==> Lt(lo.key, c.sep)) && BelowHigh(c.sep, hi)
  {
    hide Lt;
    if c.i > 0 && lo.At? {
      LtTrans(lo.key, ents[c.i].key, c.sep);
      LtTrans(ents[c.i].key, c.sep, c.sep);
    }
    if c.i + 1 < |ents| && hi.At? {
      LtTrans(c.sep, ents[c.i + 1].key, hi.key);
      LtTrans(ents[c.i + 1].key, hi.key, hi.key);
    }
  }

  lemma SeparatorAbove(ents: seq<Entry>, c: Cut, hi: Bound, k: nat)
    requires Separators(ents, Open, hi) && c.i < k < |ents|
    requires BelowHigh(c.sep, HighOf(ents, c.i, hi))
    ensures Lt(c.sep, ents[k].key)
  {
    hide Lt;
    if k > c.i + 1 {
      LtTrans(c.sep, ents[c.i + 1].key, ents[k].key);
      LtTrans(ents[c.i + 1].key, ents[k].key, ents[k].key);
    }
  }

  /** The two entries that take the place of the old one. */
  lemma MiddleGood(s: Store, c: Cut, lo: Bound, hi: Bound, recnum: bool)
    requires CanCut(s, c) && Good(s, c.pp, lo, hi, recnum)
    requires Shape(AfterCut(s, c)) && c.rp in AfterCut(s, c)
    requires recnum ==> c.moved == Live(InOrder(AfterCut(s, c), c.rp))
    ensures var t, ents := AfterCut(s, c), s[c.pp].ents;
            && c.cp in t
            && Good(t, c.cp, LowOf(ents, c.i, lo), At(c.sep), recnum)
            && Good(t, c.rp, At(c.sep), HighOf(ents, c.i, hi), recnum)
            && (recnum ==> ents[c.i].nrecs == Live(InOrder(t, c.cp)) + c.moved)
            && Separators(Parted(ents, c), lo, hi)
  {
    var t, ents, below := AfterCut(s, c), s[c.pp].ents, s[c.pp].level - 1;
    assert GoodChild(s, ents, c.i, lo, hi, recnum, below);
    assert Separators(ents, lo, hi);
    hide AfterCut, InOrder, Lt, Good, Separators, Shape;
    HalvesGood(s, c, LowOf(ents, c.i, lo), HighOf(ents, c.i, hi), recnum);
    PartedSeparators(ents, c, lo, hi);
    HalvesInOrder(s, c);
    LiveAppend(InOrder(t, c.cp), InOrder(t, c.rp));
  }

  /** The parent, once its other children are known to be kept. */
  lemma ParentGood(s: Store, c: Cut, lo: Bound, hi: Bound, recnum: bool)
    requires CanCut(s, c) && Good(s, c.pp, lo, hi, recnum)
    requires Shape(AfterCut(s, c)) && c.rp in AfterCut(s, c)
    requires recnum ==> c.moved == Live(InOrder(AfterCut(s, c), c.rp))
    requires OthersGood(AfterCut(s, c), s[c.pp].ents, c.i, lo, hi, recnum)
    ensures c.pp in AfterCut(s, c) && Good(AfterCut(s, c), c.pp, lo, hi, recnum)
  {
    hide AfterCut, InOrder, Good, Separators, OthersGood, GoodChild, Parted, Shape, Children, CanCut;
    CutLevels(s, c);
    MiddleGood(s, c, lo, hi, recnum);
    var t, ents, below := AfterCut(s, c), s[c.pp].ents, s[c.pp].level - 1;
    InternalLeaves(t, c.pp);
    PartedChildren(t, ents, c, lo, hi, recnum, below);
    GoodInternal(t, c.pp, lo, hi, recnum);
  }

  lemma PartedChildren(t: Store, ents: seq<Entry>, c: Cut, lo: Bound, hi: Bound, recnum: bool, below: nat)
    requires Shape(t) && c.i < |ents| && ents[c.i].pgno == c.cp
    requires Children(t, Parted(ents, c), below) && c.cp in t && c.rp in t
    requires Good(t, c.cp, LowOf(ents, c.i, lo), At(c.sep), recnum)
    requires Good(t, c.rp, At(c.sep), HighOf(ents, c.i, hi), recnum)
    requires recnum ==> c.moved == Live(InOrder(t, c.rp)) && ents[c.i].nrecs == Live(InOrder(t, c.cp)) + c.moved
    requires OthersGood(t, ents, c.i, lo, hi, recnum)
    ensures forall k :: 0 <= k < |Parted(ents, c)| ==> GoodChild(t, Parted(ents, c), k, lo, hi, recnum, below)
  {
    hide Good, InOrder, Shape, OthersGood, GoodChild, Parted, Children;
    forall k | 0 <= k < |Parted(ents, c)|
      ensures GoodChild(t, Parted(ents, c), k, lo, hi, recnum, below)
    {
      PartedChild(t, ents, c, k, lo, hi, recnum, below);
    }
  }

  lemma PartedChild(t: Store, ents: seq<Entry>, c: Cut, k: nat, lo: Bound, hi: Bound, recnum: bool, below: nat)
    requires Shape(t) && c.i < |ents| && ents[c.i].pgno == c.cp && k < |Parted(ents, c)|
    requires Children(t, Parted(ents, c), below) && c.cp in t && c.rp in t
    requires Good(t, c.cp, LowOf(ents, c.i, lo), At(c.sep), recnum)
    requires Good(t, c.rp, At(c.sep), HighOf(ents, c.i, hi), recnum)
    requires recnum ==> c.moved == Live(InOrder(t, c.rp)) && ents[c.i].nrecs == Live(InOrder(t, c.cp)) + c.moved
    requires OthersGood(t, ents, c.i, lo, hi, recnum)
    ensures GoodChild(t, Parted(ents, c), k, lo, hi, recnum, below)
  {
    hide Good, InOrder, Shape;
    var p := Parted(ents, c);
    PartedEntry(ents, c, k);
    if k + 1 < |p| {
      PartedEntry(ents, c, k + 1);
    }
    assert p[k].key == if k == c.i + 1 then c.sep else ents[if k <= c.i then k else k - 1].key;
  }

  /** Every subtree but the divided one stays good. */
  lemma KeptGood(s: Store, c: Cut, q: nat, lo: Bound, hi: Bound, recnum: bool)
    requires CanCut(s, c) && OnlyParent(s, c) && q in s && q != c.cp
    requires Shape(AfterCut(s, c)) && c.rp in AfterCut(s, c)
    requires recnum ==> c.moved == Live(InOrder(AfterCut(s, c), c.rp))
    requires Good(s, q, lo, hi, recnum)
    ensures q in AfterCut(s, c) && Good(AfterCut(s, c), q, lo, hi, recnum)
  {
    hide AfterCut, InOrder, OnlyParent, Good;
    if Level(s[q]) > Level(s[c.cp]) {
      AboveGood(s, c, q, lo, hi, recnum);
    } else {
      CutBelow(s, c);
      SameGood(s, AfterCut(s, c), c.cp, q, lo, hi, recnum);
    }
  }

  // ---- The chain of leaves ----

  lemma CutLinks(s: Store, c: Cut)
    requires CanCut(s, c)
    ensures var t := AfterCut(s, c);
            && c.cp in s && c.rp !in s && c.rp != PGNO_INVALID
            && (forall p <- s :: p != c.pp && p != c.cp && !(s[c.cp].Leaf? && p == s[c.cp].next) ==> p in t && t[p] == s[p])
            && (s[c.cp].Leaf? ==>
                  var next := s[c.cp].next;
                  && c.cp in t && t[c.cp].Leaf? && t[c.cp].prev == s[c.cp].prev && t[c.cp].next == c.rp
                  && c.rp in t && t[c.rp].Leaf? && t[c.rp].prev == c.cp && t[c.rp].next == next
                  && (next != PGNO_INVALID ==> next in s && next in t && s[next].Leaf? && t[next] == s[next].(prev := c.rp)))
  {
  }

  function InsertAt<T>(s: seq<T>, i: nat, x: T): (r: seq<T>)
    requires i <= |s|
    ensures |r| == |s| + 1
    ensures forall k :: 0 <= k < |r| ==> r[k] == if k < i then s[k] else if k == i then x else s[k - 1]
  {
    s[..i] + [x] + s[i..]
  }

  /** Where the divided leaf is the only one of its number, the new one comes right behind. */
  lemma DividedAt(c: Cut, ls: seq<nat>, m: nat)
    requires m < |ls| && ls[m] == c.cp && forall i :: 0 <= i < |ls| && i != m ==> ls[i] != c.cp
    ensures Divided(c, true, ls) == InsertAt(ls, m + 1, c.rp)
  {
    hide Divided;
    var a, b := ls[..m], ls[m + 1..];
    assert ls == a + [c.cp] + b;
    DividedThree(c, true, a, [c.cp], b);
    NotDivided(c, true, a);
    NotDivided(c, true, b);
    DividedOne(c);
    assert InsertAt(ls, m + 1, c.rp) == a + [c.cp, c.rp] + b;
  }

  lemma DividedOne(c: Cut)
    ensures Divided(c, true, [c.cp]) == [c.cp, c.rp]
  {
    assert [c.cp][..0] == [] && Divided(c, true, []) == [];
  }

  lemma CutChained(s: Store, c: Cut, ls: seq<nat>)
    requires CanCut(s, c) && (forall l <- ls :: l in s && s[l].Leaf?) && Chained(s, ls)
    requires s[c.cp].Leaf? ==> c.cp in ls
    ensures var t, leaf := AfterCut(s, c), s[c.cp].Leaf?;
            (forall l <- Divided(c, leaf, ls) :: l in t && t[l].Leaf?) && Chained(t, Divided(c, leaf, ls))
  {
    hide AfterCut;
    CutLinks(s, c);
    CutRecs(s, c, ls);
    if s[c.cp].Leaf? {
      var m :| 0 <= m < |ls| && ls[m] == c.cp;
      DividedAt(c, ls, m);
      hide CanCut, Divided, Recs;
      Spliced(s, AfterCut(s, c), c, ls, m);
    } else {
      assert Divided(c, false, ls) == ls;
      SameChain(s, AfterCut(s, c), ls);
    }
  }

  lemma SameChain(s: Store, t: Store, ls: seq<nat>)
    requires (forall l <- ls :: l in s && s[l].Leaf? && l in t && t[l] == s[l]) && Chained(s, ls)
    ensures Chained(t, ls)
  {
    forall i | 0 <= i < |ls|
      ensures Linked(t, ls, i)
    {
      assert Linked(s, ls, i) && t[ls[i]] == s[ls[i]];
    }
  }

  lemma Spliced(s: Store, t: Store, c: Cut, ls: seq<nat>, m: nat)
    requires (forall l <- ls :: l in s && s[l].Leaf?) && Chained(s, ls) && m < |ls| && ls[m] == c.cp
    requires c.rp !in s && c.rp != PGNO_INVALID && PGNO_INVALID !in s
    requires forall p <- s :: s[p].Leaf? && p != c.cp && p != s[c.cp].next ==> p in t && t[p] == s[p]
    requires c.cp in t && t[c.cp].Leaf? && t[c.cp].prev == s[c.cp].prev && t[c.cp].next == c.rp
    requires c.rp in t && t[c.rp].Leaf? && t[c.rp].prev == c.cp && t[c.rp].next == s[c.cp].next
    requires s[c.cp].next != PGNO_INVALID ==>
               var next := s[c.cp].next; next in s && next in t && s[next].Leaf? && t[next] == s[next].(prev := c.rp)
    ensures var after := InsertAt(ls, m + 1, c.rp);
            (forall l <- after :: l in t && t[l].Leaf?) && Chained(t, after)
  {
    hide Linked;
    var after := InsertAt(ls, m + 1, c.rp);
    forall i | 0 <= i < |after|
      ensures after[i] in t && t[after[i]].Leaf? && Linked(t, after, i)
    {
      SplicedAt(s, t, c, ls, m, i);
    }
    assert forall l <- ls :: l != c.rp;
    forall i, j | 0 <= i < j < |after|
      ensures after[i] != after[j]
    {
    }
  }

  lemma SplicedAt(s: Store, t: Store, c: Cut, ls: seq<nat>, m: nat, i: nat)
    requires (forall l <- ls :: l in s && s[l].Leaf?) && Chained(s, ls) && m < |ls| && ls[m] == c.cp && i <= |ls|
    requires c.rp !in s && c.rp != PGNO_INVALID && PGNO_INVALID !in s
    requires forall p <- s :: s[p].Leaf? && p != c.cp && p != s[c.cp].next ==> p in t && t[p] == s[p]
    requires c.cp in t && t[c.cp].Leaf? && t[c.cp].prev == s[c.cp].prev && t[c.cp].next == c.rp
    requires c.rp in t && t[c.rp].Leaf? && t[c.rp].prev == c.cp && t[c.rp].next == s[c.cp].next
    requires s[c.cp].next != PGNO_INVALID ==>
               var next := s[c.cp].next; next in s && next in t && s[next].Leaf? && t[next] == s[next].(prev := c.rp)
    ensures var after := InsertAt(ls, m + 1, c.rp);
            after[i] in t && t[after[i]].Leaf? && Linked(t, after, i)
  {
    assert Linked(s, ls, m) && (m + 1 < |ls| ==> Linked(s, ls, m + 1));
    if i != m + 1 {
      var k := if i <= m then i else i - 1;
      assert Linked(s, ls, k);
      assert ls[k] in ls;
      if k == m + 1 {
        assert ls[k] == s[c.cp].next;
      } else if k != m {
        assert m + 1 < |ls| ==> ls[k] != ls[m + 1];
        assert t[ls[k]] == s[ls[k]];
      }
    }
  }

  // ---- The theorem ----

  lemma CutParts(s: Store, c: Cut)
    requires CanCut(s, c)
    ensures c.pp in s && Refers(s, c.pp, c.i) && s[c.pp].ents[c.i].pgno == c.cp && Shape(s) && c.cp in s
    ensures Shape(AfterCut(s, c)) && c.rp in AfterCut(s, c)
  {
    CutShape(s, c);
    CutPages(s, c);
  }

  /** Splitting a page keeps the tree: all the records in order, the uniform depth of the
    * leaves, the separators, the record counts, and the links with the new page spliced in. */
  lemma CutKeeps(s: Store, c: Cut, root: nat, recnum: bool)
    requires Valid(s, root, recnum) && CanCut(s, c)
    requires s[c.cp].Leaf? ==> c.cp in Leaves(s, root)
    requires recnum ==> Shape(AfterCut(s, c)) && c.rp in AfterCut(s, c) && c.moved == Live(InOrder(AfterCut(s, c), c.rp))
    ensures Valid(AfterCut(s, c), root, recnum)
    ensures InOrder(AfterCut(s, c), root) == InOrder(s, root)
    ensures Leaves(AfterCut(s, c), root) == Divided(c, s[c.cp].Leaf?, Leaves(s, root))
    ensures Level(AfterCut(s, c)[root]) == Level(s[root])
  {
    hide AfterCut, CanCut, Shape, Good, InOrder, Leaves, Divided, Live, OnlyParent;
    CutParts(s, c);
    assert root != c.cp;
    ParentIsOnly(s, c, root);
    CutUnique(s, c, root);
    KeptInOrder(s, c, root);
    KeptGood(s, c, root, Open, Open, recnum);
    CutChained(s, c, Leaves(s, root));
    RootLeaves(s, c, root);
  }

  lemma RootLeaves(s: Store, c: Cut, q: nat)
    requires CanCut(s, c) && OnlyParent(s, c) && q in s && q != c.cp
    ensures Shape(AfterCut(s, c)) && q in AfterCut(s, c) && Level(AfterCut(s, c)[q]) == Level(s[q])
    ensures Leaves(AfterCut(s, c), q) == Divided(c, s[c.cp].Leaf?, Leaves(s, q))
  {
    hide AfterCut, Leaves, OnlyParent;
    CutShape(s, c);
    CutPages(s, c);
    if Level(s[q]) >= Level(s[c.cp]) {
      AboveChild(s, c, q);
    } else {
      CutBelow(s, c);
      SameLeaves(s, AfterCut(s, c), c.cp, q);
      NotDivided(c, s[c.cp].Leaf?, Leaves(s, q));
    }
  }

  /** The count the source moves to the parent: `__bam_total` of the new page. */
  lemma MovedCount(s: Store, c: Cut, lo: Bound, hi: Bound)
    requires CanCut(s, c) && Good(s, c.cp, lo, hi, true)
    ensures Shape(AfterCut(s, c)) && c.rp in AfterCut(s, c)
    ensures Total(RightHalf(s, c)) == Live(InOrder(AfterCut(s, c), c.rp))
  {
    hide AfterCut, Good, InOrder, Live;
    CutParts(s, c);
    CutPages(s, c);
    HalvesGood(s, c, lo, hi, true);
    TotalIsLive(AfterCut(s, c), c.rp, At(c.sep), hi);
  }

  function Sum(ents: seq<Entry>): int {
    if ents == [] then 0 else Sum(ents[..|ents| - 1]) + ents[|ents| - 1].nrecs
  }

  /** `__bam_total`. */
  function Total(n: Node): int {
    match n
    case Leaf(recs, _, _) => Live(recs)
    case Internal(ents, _) => Sum(ents)
  }

  lemma TotalIsLive(s: Store, p: nat, lo: Bound, hi: Bound)
    requires Shape(s) && p in s && Good(s, p, lo, hi, true)
    ensures Total(s[p]) == Live(InOrder(s, p))
  {
    match s[p]
    case Leaf(_, _, _) => RecsOne(s, p);
    case Internal(ents, level) =>
      var below := level - 1;
      forall i | 0 <= i < |ents|
        ensures ents[i].nrecs == Live(InOrder(s, ents[i].pgno))
      {
        assert GoodChild(s, ents, i, lo, hi, true, below);
      }
      assert Children(s, ents, below);
      SumIsLive(s, ents, below);
  }

  lemma {:induction false} SumIsLive(s: Store, ents: seq<Entry>, level: nat)
    requires Shape(s) && Children(s, ents, level)
    requires forall i :: 0 <= i < |ents| ==> ents[i].nrecs == Live(InOrder(s, ents[i].pgno))
    ensures Sum(ents) == Live(InOrderOf(s, ents, level))
  {
    hide Shape, Leaves, LeavesOf;
    if ents == [] {
      LeavesOfNone(s, level);
    } else {
      var n := |ents| - 1;
      LeavesOfLast(s, ents, level);
      SumIsLive(s, ents[..n], level);
      RecsAppend(s, LeavesOf(s, ents[..n], level), Leaves(s, ents[n].pgno));
      LiveAppend(InOrderOf(s, ents[..n], level), InOrder(s, ents[n].pgno));
    }
  }
}
