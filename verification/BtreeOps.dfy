/** The operations of a btree: searching by key and by record number, and splitting pages. */
module BtreeOps {
  import opened Bytes
  import opened BtreeShape
  import opened BtreeRoot
  import opened BtreeSearch
  import opened BtreeCounts

  const SIZEOF_PAGE: int := 26

  /** BINTERNAL_PSIZE: an entry on an internal page and its index. */
  function EntrySize(len: nat): int {
    (len + 12 + 3) / 4 * 4 + 2
  }

  function Used(ents: seq<Entry>): int {
    if ents == [] then 0 else Used(ents[..|ents| - 1]) + EntrySize(|ents[|ents| - 1].key|)
  }

  // ---- Searching one page ----

  ghost predicate Growing(ents: seq<Entry>) {
    forall i, j :: 1 <= i < j < |ents| ==> Lt(ents[i].key, ents[j].key)
  }

  lemma NotBefore(ents: seq<Entry>, i: nat, j: nat, key: Key)
    requires Growing(ents) && 1 <= i <= j < |ents|
    ensures !Lt(key, ents[j].key) ==> !Lt(key, ents[i].key)
    ensures Lt(key, ents[i].key) ==> Lt(key, ents[j].key)
    ensures key == ents[i].key && i < j ==> Lt(key, ents[j].key)
  {
    if i < j {
      LtTrans(key, ents[i].key, ents[j].key);
      LtTrans(ents[i].key, ents[j].key, key);
      LtTrans(ents[i].key, key, ents[j].key);
    } else {
      LtIrreflexive(key);
    }
  }

  /** The binary search of `__bam_search` on an internal page.  The key in slot 0 is never
    * looked at: every key is above it. */
  method SearchEntries(ents: seq<Entry>, key: Key) returns (indx: nat)
    requires ents != [] && Growing(ents)
    ensures Holds(ents, indx, key)
  {
    hide Growing, Lt;
    var base: nat, lim: nat := 0, |ents|;
    while lim != 0
      invariant base + lim <= |ents|
      invariant forall i :: 1 <= i < base ==> !Lt(key, ents[i].key)
      invariant forall i :: 1 <= i && base + lim <= i < |ents| ==> Lt(key, ents[i].key)
      decreases lim
    {
      indx := base + lim / 2;
      var cmp := if indx == 0 then 1 else Compare(key, ents[indx].key);
      if cmp == 0 {
        Exact(ents, indx, key);
        return;
      }
      if cmp > 0 {
        Passed(ents, indx, key, cmp);
        base := indx + 1;
        lim := lim - 1;
      } else {
        Ahead(ents, indx, key, cmp);
      }
      lim := lim / 2;
    }
    indx := if base > 0 then base - 1 else base;
  }

  lemma Exact(ents: seq<Entry>, indx: nat, key: Key)
    requires Growing(ents) && 1 <= indx < |ents| && Compare(key, ents[indx].key) == 0
    ensures Holds(ents, indx, key)
  {
    CompareIsDictionaryOrder(key, ents[indx].key);
    if indx + 1 < |ents| {
      NotBefore(ents, indx, indx + 1, key);
    }
  }

  lemma Passed(ents: seq<Entry>, indx: nat, key: Key, cmp: int)
    requires Growing(ents) && indx < |ents| && cmp > 0 && (indx > 0 ==> cmp == Compare(key, ents[indx].key))
    ensures forall i :: 1 <= i <= indx ==> !Lt(key, ents[i].key)
  {
    forall i | 1 <= i <= indx
      ensures !Lt(key, ents[i].key)
    {
      NotBefore(ents, i, indx, key);
    }
  }

  lemma Ahead(ents: seq<Entry>, indx: nat, key: Key, cmp: int)
    requires Growing(ents) && 1 <= indx < |ents| && cmp < 0 && cmp == Compare(key, ents[indx].key)
    ensures forall i :: indx <= i < |ents| ==> Lt(key, ents[i].key)
  {
    forall i | indx <= i < |ents|
      ensures Lt(key, ents[i].key)
    {
      NotBefore(ents, indx, i, key);
    }
  }

  lemma SortedSides(recs: seq<Rec>, indx: nat, key: Key)
    requires SortedRecs(recs) && indx < |recs|
    ensures Compare(key, recs[indx].key) > 0 ==> forall i :: 0 <= i <= indx ==> Lt(recs[i].key, key)
    ensures Compare(key, recs[indx].key) < 0 ==> forall i :: indx <= i < |recs| ==> Lt(key, recs[i].key)
    ensures Compare(key, recs[indx].key) == 0 <==> recs[indx].key == key
  {
    CompareIsDictionaryOrder(key, recs[indx].key);
    CompareIsDictionaryOrder(recs[indx].key, key);
    var here := recs[indx].key;
    if Compare(key, here) > 0 {
      assert Lt(here, key);
      hide Lt;
      forall i | 0 <= i <= indx
        ensures Lt(recs[i].key, key)
      {
        if i < indx {
          LtTrans(recs[i].key, here, key);
        }
      }
    } else if Compare(key, here) < 0 {
      assert Lt(key, here);
      hide Lt;
      forall i | indx <= i < |recs|
        ensures Lt(key, recs[i].key)
      {
        if i > indx {
          LtTrans(key, here, recs[i].key);
        }
      }
    }
  }

  /** The binary search of `__bam_search` on a leaf, where an index stands for a pair. */
  method SearchRecs(recs: seq<Rec>, key: Key) returns (indx: nat, exact: bool)
    requires SortedRecs(recs)
    ensures exact ==> indx < |recs| && recs[indx].key == key
    ensures !exact ==> forall last: bool :: Place(recs, key, last, indx, false)
  {
    hide Lt, SortedRecs;
    var base: nat, lim: nat := 0, |recs|;
    while lim != 0
      invariant base + lim <= |recs|
      invariant forall i :: 0 <= i < base ==> Lt(recs[i].key, key)
      invariant forall i :: base + lim <= i < |recs| ==> Lt(key, recs[i].key)
      decreases lim
    {
      indx := base + lim / 2;
      var cmp := Compare(key, recs[indx].key);
      SortedSides(recs, indx, key);
      if cmp == 0 {
        return indx, true;
      }
      if cmp > 0 {
        base := indx + 1;
        lim := lim - 1;
      }
      lim := lim / 2;
    }
    return base, false;
  }

  /** SR_DUPLAST and SR_DUPFIRST: to an end of the duplicate set. */
  method ToDuplicate(recs: seq<Rec>, key: Key, last: bool, from: nat) returns (indx: nat)
    requires SortedRecs(recs) && from < |recs| && recs[from].key == key
    ensures Place(recs, key, last, indx, true)
  {
    indx := from;
    if last {
      while indx + 1 < |recs| && recs[indx].key == recs[indx + 1].key
        invariant indx < |recs| && recs[indx].key == key
      {
        indx := indx + 1;
      }
    } else {
      while indx > 0 && recs[indx].key == recs[indx - 1].key
        invariant indx < |recs| && recs[indx].key == key
      {
        indx := indx - 1;
      }
    }
    SetEnds(recs, key, indx);
  }

  lemma SetEnds(recs: seq<Rec>, key: Key, indx: nat)
    requires SortedRecs(recs) && indx < |recs| && recs[indx].key == key
    ensures indx + 1 < |recs| && recs[indx + 1].key != key ==> forall i :: indx < i < |recs| ==> Lt(key, recs[i].key)
    ensures indx > 0 && recs[indx - 1].key != key ==> forall i :: 0 <= i < indx ==> Lt(recs[i].key, key)
  {
    hide Lt;
    if indx + 1 < |recs| && recs[indx + 1].key != key {
      LtTrans(key, recs[indx + 1].key, key);
      forall i | indx < i < |recs|
        ensures Lt(key, recs[i].key)
      {
        if i > indx + 1 {
          LtTrans(key, recs[indx + 1].key, recs[i].key);
        }
      }
    }
    if indx > 0 && recs[indx - 1].key != key {
      LtTrans(recs[indx - 1].key, key, key);
      forall i | 0 <= i < indx
        ensures Lt(recs[i].key, key)
      {
        if i < indx - 1 {
          LtTrans(recs[i].key, recs[indx - 1].key, key);
        }
      }
    }
  }

  lemma GoodGrows(s: Store, p: nat, lo: Bound, hi: Bound, recnum: bool)
    requires Shape(s) && p in s && Good(s, p, lo, hi, recnum)
    ensures s[p].Internal? ==> Growing(s[p].ents) && s[p].ents != [] && s[p].level > LEAFLEVEL
    ensures s[p].Leaf? ==> SortedRecs(s[p].recs)
  {
  }

  datatype Option<T> = None | Some(value: T)

  /** The record number of a key: which one of the live records its first record is, and none
    * if it has no record or that one is logically deleted. */
  ghost predicate RankOf(flat: seq<Rec>, key: Key, recnop: Option<int>) {
    exists pos: nat, exact: bool | Place(flat, key, false, pos, exact) ::
      && (recnop.Some? <==> exact && !flat[pos].deleted)
      && (recnop.Some? ==> Nth(flat, recnop.value, pos))
  }

  lemma Ranked(flat: seq<Rec>, key: Key, n: int, pos: nat)
    requires Place(flat, key, false, pos, true) && Nth(flat, n, pos)
    ensures RankOf(flat, key, Some(n))
  {
    hide Lt;
  }

  lemma Unranked(flat: seq<Rec>, key: Key, pos: nat, exact: bool)
    requires Place(flat, key, false, pos, exact) && (exact ==> flat[pos].deleted)
    ensures RankOf(flat, key, None)
  {
    hide Lt;
  }

  /** Ranking and selecting are inverse: the record with the number of a key is the key's. */
  lemma SelectRank(flat: seq<Rec>, key: Key, n: int, pos: nat)
    requires RankOf(flat, key, Some(n)) && Nth(flat, n, pos)
    ensures flat[pos].key == key && Place(flat, key, false, pos, true)
  {
    hide Lt, Live, Nth;
    var p: nat, exact: bool :| Place(flat, key, false, p, exact) && exact && !flat[p].deleted && Nth(flat, n, p);
    OneNth(flat, n, p, pos);
  }

  /** Selecting and ranking are inverse, too, where every key has one record: the key of the
    * n-th live record has the number n. */
  lemma RankSelected(flat: seq<Rec>, n: int, pos: nat)
    requires Ascending(flat) && Nth(flat, n, pos)
    ensures RankOf(flat, flat[pos].key, Some(n))
  {
    hide Lt, Live;
    Ranked(flat, flat[pos].key, n, pos);
  }

  /** A key has one rank. */
  lemma OneRank(flat: seq<Rec>, key: Key, a: Option<int>, b: Option<int>)
    requires RankOf(flat, key, a) && RankOf(flat, key, b)
    ensures a == b
  {
    hide Lt, Live;
    var p: nat, pe: bool :| Place(flat, key, false, p, pe) && (a.Some? <==> pe && !flat[p].deleted)
                            && (a.Some? ==> Nth(flat, a.value, p));
    var q: nat, qe: bool :| Place(flat, key, false, q, qe) && (b.Some? <==> qe && !flat[q].deleted)
                            && (b.Some? ==> Nth(flat, b.value, q));
    OnePlace(flat, key, false, p, pe, q, qe);
  }

  /** A record of the key that a number selects has that number. */
  ghost predicate RankOfSelected(flat: seq<Rec>, key: Key, recnop: Option<int>) {
    forall n: int, pos: nat | Nth(flat, n, pos) :: flat[pos].key == key ==> recnop == Some(n)
  }

  lemma RanksSelected(flat: seq<Rec>, key: Key, recnop: Option<int>)
    requires Ascending(flat) && RankOf(flat, key, recnop)
    ensures RankOfSelected(flat, key, recnop)
  {
    hide RankOf, Ascending, Live;
    forall n: int, pos: nat | Nth(flat, n, pos) && flat[pos].key == key
      ensures recnop == Some(n)
    {
      RankSelected(flat, n, pos);
      OneRank(flat, key, recnop, Some(n));
    }
  }

  /** Every key has one record. */
  ghost predicate Ascending(flat: seq<Rec>) {
    forall i, j :: 0 <= i < j < |flat| ==> Lt(flat[i].key, flat[j].key)
  }

  lemma SameKeysAscend(flat: seq<Rec>, pos: nat, r: Rec)
    requires Ascending(flat) && pos < |flat| && r.key == flat[pos].key
    ensures Ascending(flat[pos := r])
  {
    hide Lt;
    assert forall i :: 0 <= i < |flat| ==> flat[pos := r][i].key == flat[i].key;
  }

  lemma NewKeyAscends(flat: seq<Rec>, pos: nat, r: Rec)
    requires Ascending(flat) && Place(flat, r.key, true, pos, false)
    ensures Ascending(InsertAt(flat, pos, r))
  {
    hide Lt;
  }

  class Btree {
    const root: nat
    const recnum: bool
    /** DB_AM_DUP. */
    const dups: bool
    const pgsize: nat
    var pages: Store
    /** RE_NREC of an internal root page. */
    var nrec: int

    /** A tree has no duplicates if it keeps record numbers. */
    constructor (root: nat, recnum: bool, dups: bool, pgsize: nat)
      requires root != PGNO_INVALID && (recnum ==> !dups)
      ensures this.root == root && this.recnum == recnum && this.dups == dups
      ensures Ok() && InOrder(pages, this.root) == []
    {
      this.root, this.recnum, this.dups, this.pgsize, nrec := root, recnum, dups, pgsize, 0;
      pages := map[root := Leaf([], PGNO_INVALID, PGNO_INVALID)];
      new;
      RecsOne(pages, root);
    }

    ghost predicate Sound()
      reads this
    {
      && Valid(pages, root, recnum)
      && (recnum && pages[root].Internal? ==> nrec == Live(InOrder(pages, root)))
    }

    /** A sound tree in which, without duplicates, every key has one record, deleted or not. */
    ghost predicate Ok()
      reads this
    {
      Sound() && (recnum ==> !dups) && (!dups ==> Ascending(InOrder(pages, root)))
    }

    /** `__bam_search`: the leaf and the place on it, the stack of pages above it, and the
      * number of live records on the leaves before it. */
    method Search(key: Key, last: bool)
      returns (p: nat, indx: nat, exact: bool, recno: int, stack: seq<Step>, ghost before: seq<nat>, ghost after: seq<nat>)
      requires Ok()
      ensures p in pages && pages[p].Leaf? && Around(pages, root, before, p, after) && Path(pages, root, stack, p, key)
      ensures (forall l <- before :: l in pages && pages[l].Leaf?) && (forall l <- after :: l in pages && pages[l].Leaf?)
      ensures Place(pages[p].recs, key, last, indx, exact)
      ensures Place(InOrder(pages, root), key, last, |Recs(pages, before)| + indx, exact)
      ensures recnum ==> recno == Live(Recs(pages, before))
      ensures InOrder(pages, root) == Recs(pages, before) + pages[p].recs + Recs(pages, after)
    {
      hide Shape, Unique, Good, Chained, Leaves, Lt, Live, InOrder, Recs, SortedRecs, Place, Between, Path;
      p, recno, stack, before, after := root, 0, [], [], [];
      ghost var lo, hi := Open, Open;
      Start(pages, root, key, recnum);
      while pages[p].Internal?
        invariant p in pages && Reached(pages, root, before, p, after, key, lo, hi, recnum)
        invariant Path(pages, root, stack, p, key)
        invariant recnum ==> recno == Live(Recs(pages, before))
        decreases Level(pages[p])
      {
        GoodGrows(pages, p, lo, hi, recnum);
        var ents := pages[p].ents;
        indx := SearchEntries(ents, key);
        PathGrows(pages, root, stack, p, key, indx);
        stack := stack + [Step(p, indx)];
        before, after := Descend(pages, root, before, p, after, indx, key, lo, hi, recnum);
        lo, hi := LowOf(ents, indx, lo), HighOf(ents, indx, hi);
        if recnum {
          recno := recno + Sum(ents[..indx]);
        }
        p := ents[indx].pgno;
      }
      GoodGrows(pages, p, lo, hi, recnum);
      indx, exact := SearchRecs(pages[p].recs, key);
      if exact {
        indx := ToDuplicate(pages[p].recs, key, last, indx);
      }
      AroundPage(pages, root, before, p, after);
      PlaceInTree(pages, root, before, p, after, key, last, indx, exact);
    }

    /** `__bam_search` with a record number: the number that selects the key's record, and for
      * the record selected by a number that number. */
    method SearchRecno(key: Key) returns (recnop: Option<int>)
      requires Ok() && recnum
      ensures RankOf(InOrder(pages, root), key, recnop)
      ensures RankOfSelected(InOrder(pages, root), key, recnop)
    {
      hide RankOf, RankOfSelected, Ascending;
      recnop := FindRank(key);
      RanksSelected(InOrder(pages, root), key, recnop);
    }

    method FindRank(key: Key) returns (recnop: Option<int>)
      requires Ok() && recnum
      ensures RankOf(InOrder(pages, root), key, recnop)
    {
      hide Shape, Unique, Good, Chained, Leaves, Lt, Live, InOrder, Recs, Place, Between, RankOf, Ascending;
      var p, indx, recno;
      var found, stack;
      ghost var before, after;
      p, indx, found, recno, stack, before, after := Search(key, false);
      ghost var pos := |Recs(pages, before)| + indx;
      PlaceBounds(pages[p].recs, key, false, indx, found);
      if !found {
        Unranked(InOrder(pages, root), key, pos, found);
        return None;
      }
      InMiddle(Recs(pages, before), pages[p].recs, Recs(pages, after), indx);
      if pages[p].recs[indx].deleted {
        Unranked(InOrder(pages, root), key, pos, found);
        return None;
      }
      LiveNone(pages[p].recs);
      for i := 0 to indx
        invariant recno == Live(Recs(pages, before)) + Live(pages[p].recs[..i])
      {
        LiveNext(pages[p].recs, i);
        if !pages[p].recs[i].deleted {
          recno := recno + 1;
        }
      }
      Ranked(InOrder(pages, root), key, recno + 1, pos);
      recnop := Some(recno + 1);
    }

    /** `__bam_rsearch` for reading: the place of a record number. */
    method RSearch(recnop: nat)
      returns (found: bool, p: nat, indx: nat, ghost before: seq<nat>, ghost after: seq<nat>)
      requires Ok() && recnum
      ensures found <==> 1 <= recnop <= Live(InOrder(pages, root))
      ensures found ==> Around(pages, root, before, p, after) && pages[p].Leaf? && indx < |pages[p].recs|
                        && Nth(InOrder(pages, root), recnop, |Recs(pages, before)| + indx)
    {
      hide Shape, Unique, Good, Chained, Leaves, Lt, Live, InOrder, Recs, Nth;
      p, before, after := root, [], [];
      ghost var lo, hi := Open, Open;
      StartCount(pages, root, recnum, nrec, recnop);
      if recnop > (if pages[p].Internal? then nrec else |pages[p].recs|) {
        return false, p, 0, before, after;
      }
      var total := 0;
      while pages[p].Internal?
        invariant Counting(pages, root, before, p, after, lo, hi, recnop, total)
        decreases Level(pages[p])
      {
        GoodGrows(pages, p, lo, hi, recnum);
        var ents := pages[p].ents;
        ghost var from := total;
        indx, total := PickEntry(ents, recnop, total);
        before, after := DescendCount(pages, root, before, p, after, indx, lo, hi, recnop, from, total);
        lo, hi := LowOf(ents, indx, lo), HighOf(ents, indx, hi);
        p := ents[indx].pgno;
      }
      found, indx := PickRec(pages[p].recs, recnop - total);
      CountInTree(pages, root, before, p, after, lo, hi, recnop, total, found, indx);
    }

    /** `__bam_page` with `__bam_pinsert`: the page that entry `i` of page `pp` of a search stack
      * led to is divided at `split`, a place that is not within a duplicate set.  False is
      * DB_NEEDSPLIT: the parent has no room for the new entry. */
    method SplitPage(pp: nat, i: nat, split: nat, rp: nat, ghost stack: seq<Step>, ghost p: nat, ghost key: Key)
      returns (ok: bool)
      requires Ok() && Path(pages, root, stack, p, key) && Step(pp, i) in stack
      requires pp in pages && Refers(pages, pp, i) && pages[pp].ents[i].pgno in pages
      requires rp !in pages && rp != PGNO_INVALID
      requires Divides(pages[pages[pp].ents[i].pgno], split)
      modifies this`pages
      ensures Ok() && pages.Keys == old(pages).Keys + (if ok then {rp} else {})
      ensures !ok ==> pages == old(pages)
      ensures InOrder(pages, root) == old(InOrder(pages, root))
      ensures Level(pages[root]) == old(Level(pages[root]))
      ensures ok <==> HasRoom(old(pages)[pp], old(pages)[old(pages)[pp].ents[i].pgno], split, pgsize)
      ensures ok ==> IsCut(old(pages), pages, pp, i, rp, split)
    {
      hide AfterCut, Shape, Unique, Good, Chained, Leaves, Live, InOrder, Lt, Divides, Around, Between, Promoted, Used, EntrySize, IsCut, Path, Ascending;
      var cp := pages[pp].ents[i].pgno;
      ghost var before, after, lo, hi := StackLeads(pages, root, stack, p, key, Step(pp, i), recnum);
      DividesAround(pages, root, before, cp, after, split, lo, hi, recnum);
      var sep := Separator(pages[cp], split);
      if pgsize - SIZEOF_PAGE - Used(pages[pp].ents) < EntrySize(|sep|) {
        return false;
      }
      var left, right := Halves(pages[cp], cp, rp, split);
      var moved := if recnum then Total(right) else 0;
      ghost var c := Cut(pp, i, cp, rp, split, sep, moved);
      ghost var s := pages;
      SplitAllowed(s, root, c, recnum);
      if recnum {
        MovedCount(s, c, lo, hi);
      }
      CutKeeps(s, c, root, recnum);
      var node := pages[cp];
      pages := pages[pp := Internal(Parted(pages[pp].ents, Cut(pp, i, cp, rp, split, sep, moved)), pages[pp].level)]
                    [cp := left][rp := right];
      if node.Leaf? && node.next != PGNO_INVALID {
        pages := pages[node.next := pages[node.next].(prev := rp)];
      }
      SplitDone(s, c, left, right, pages);
      CutIs(s, pages, c);
      return true;
    }

    /** `__bam_root` with `__bam_broot`: the root is divided at `split`, and the halves become
      * its only children.  The whole key is promoted. */
    method SplitRoot(lp: nat, rp: nat, split: nat)
      requires Ok() && Divides(pages[root], split)
      requires lp !in pages && rp !in pages && lp != rp && lp != PGNO_INVALID && rp != PGNO_INVALID
      modifies this`pages, this`nrec
      ensures Ok() && pages.Keys == old(pages).Keys + {lp, rp}
      ensures InOrder(pages, root) == old(InOrder(pages, root))
      ensures Level(pages[root]) == old(Level(pages[root])) + 1
      ensures IsRootCut(old(pages), pages, root, lp, rp, split)
    {
      hide AfterRootCut, Shape, Unique, Good, Chained, Leaves, Live, InOrder, Lt, CanCutRoot, IsRootCut;
      var node := pages[root];
      var sep := WholeKey(node, split);
      var left, right := Halves(node, lp, rp, split);
      var lcount, rcount := if recnum then Total(left) else 0, if recnum then Total(right) else 0;
      ghost var c, s := RootCut(lp, rp, split, sep, lcount, rcount), pages;
      RootAllowed(s, root, c, recnum);
      if recnum {
        RootCounts(s, root, c, left, right);
        nrec := lcount + rcount;
      }
      RootCutKeeps(s, root, c, recnum);
      pages := pages[root := Internal([Entry([], lp, lcount), Entry(sep, rp, rcount)], Level(node) + 1)]
                    [lp := left][rp := right];
      RootDone(s, root, c, left, right, pages);
      RootCutIs(s, pages, root, c);
    }

    /** `__bam_adjust`: the counts along a search stack. */
    method Adjust(stack: seq<Step>, adjust: int)
      requires forall k :: 0 <= k < |stack| ==>
                 stack[k].pgno in pages && pages[stack[k].pgno].Internal? && stack[k].indx < |pages[stack[k].pgno].ents|
      requires forall j, k :: 0 <= j < k < |stack| ==> stack[j].pgno != stack[k].pgno
      requires forall k :: 0 <= k < |stack| ==> (stack[k].pgno == root <==> k == 0)
      modifies this`pages, this`nrec
      ensures pages.Keys == old(pages).Keys
      ensures forall k :: 0 <= k < |stack| ==>
                pages[stack[k].pgno] == Internal(Counted(old(pages)[stack[k].pgno].ents, stack[k].indx, adjust),
                                                 old(pages)[stack[k].pgno].level)
      ensures forall q <- old(pages) :: (forall k :: 0 <= k < |stack| ==> stack[k].pgno != q) ==> pages[q] == old(pages)[q]
      ensures nrec == old(nrec) + if stack == [] then 0 else adjust
    {
      ghost var s := pages;
      for m := 0 to |stack|
        invariant CountsTo(s, pages, stack, m, adjust)
        invariant nrec == old(nrec) + if m == 0 then 0 else adjust
      {
        CountsNext(s, pages, stack, m, adjust);
        var h := pages[stack[m].pgno];
        pages := pages[stack[m].pgno := Internal(Counted(h.ents, stack[m].indx, adjust), h.level)];
        if stack[m].pgno == root {
          nrec := nrec + adjust;
        }
      }
    }

    /** The leaf of a search gets other records and the counts above follow. */
    method Change(stack: seq<Step>, p: nat, recs: seq<Rec>, adjust: int, ghost key: Key,
                  ghost before: seq<nat>, ghost after: seq<nat>)
      requires Sound() && p in pages && pages[p].Leaf?
      requires Path(pages, root, stack, p, key) && Around(pages, root, before, p, after)
      requires Fitting(pages[p].recs, recs, key, adjust)
      modifies this`pages, this`nrec
      ensures Sound()
      ensures forall l <- before :: l in old(pages) && old(pages)[l].Leaf?
      ensures forall l <- after :: l in old(pages) && old(pages)[l].Leaf?
      ensures InOrder(pages, root) == Recs(old(pages), before) + recs + Recs(old(pages), after)
    {
      hide Shape, Unique, Good, Chained, Leaves, Live, InOrder, Recs, Path, Fitting, SortedRecs, Around;
      StackPages(pages, root, stack, p, key, recnum);
      ghost var s := pages;
      pages := pages[p := pages[p].(recs := recs)];
      Adjust(stack, adjust);
      ChangeAdjusted(s, pages, stack, p, recs, adjust);
      AdjustKeeps(s, pages, root, stack, p, key, recs, adjust, recnum, before, after);
      ChangeCount(s, pages, root, stack, p, key, recs, adjust, recnum, before, after);
    }

    /** A logical delete: the record stays, marked, and is no longer counted. */
    method MarkDeleted(key: Key) returns (done: bool, ghost pos: nat, ghost found: bool)
      requires Ok()
      modifies this`pages, this`nrec
      ensures Ok()
      ensures Place(old(InOrder(pages, root)), key, false, pos, found)
      ensures done <==> found && !old(InOrder(pages, root))[pos].deleted
      ensures done ==> pos < |old(InOrder(pages, root))| && old(InOrder(pages, root))[pos].key == key
                       && !old(InOrder(pages, root))[pos].deleted
                       && InOrder(pages, root)
                       == old(InOrder(pages, root))[pos := old(InOrder(pages, root))[pos].(deleted := true)]
      ensures !done ==> pages == old(pages)
    {
      hide Shape, Unique, Good, Chained, Leaves, Lt, Live, InOrder, Recs, Place, Path, Around, SortedRecs, Fitting, Ascending;
      var p, indx, exact, recno, stack;
      ghost var before, after;
      p, indx, exact, recno, stack, before, after := Search(key, false);
      PlaceBounds(pages[p].recs, key, false, indx, exact);
      pos, found := |Recs(pages, before)| + indx, exact;
      if exact {
        InMiddle(Recs(pages, before), pages[p].recs, Recs(pages, after), indx);
      }
      if !exact || pages[p].recs[indx].deleted {
        return false, pos, found;
      }
      var recs := pages[p].recs;
      var marked := recs[indx := recs[indx].(deleted := true)];
      LeafSorted(pages, root, before, p, after, recnum);
      MarkedFits(recs, indx, key);
      ghost var b, a := Recs(pages, before), Recs(pages, after);
      ghost var flat := InOrder(pages, root);
      Change(stack, p, marked, -1, key, before, after);
      MarkedFlat(b, recs, a, indx);
      if !dups {
        SameKeysAscend(flat, pos, flat[pos].(deleted := true));
      }
      return true, pos, found;
    }

    /** A put, on a leaf that has room for it.  Without duplicates it replaces the record of its
      * key, deleted or not; otherwise the new record goes behind those of its key. */
    method Insert(key: Key, data: seq<byte>) returns (replaced: bool, ghost pos: nat)
      requires Ok()
      modifies this`pages, this`nrec
      ensures Ok()
      ensures replaced <==> !dups && exists r :: r in old(InOrder(pages, root)) && r.key == key
      ensures if replaced then
                && pos < |old(InOrder(pages, root))| && old(InOrder(pages, root))[pos].key == key
                && InOrder(pages, root) == old(InOrder(pages, root))[pos := Rec(key, data, false)]
              else
                && pos <= |old(InOrder(pages, root))|
                && (forall i :: 0 <= i < pos ==> !Lt(key, old(InOrder(pages, root))[i].key))
                && (forall i :: pos <= i < |old(InOrder(pages, root))| ==> Lt(key, old(InOrder(pages, root))[i].key))
                && InOrder(pages, root) == InsertAt(old(InOrder(pages, root)), pos, Rec(key, data, false))
    {
      hide Shape, Unique, Good, Chained, Leaves, Lt, Live, InOrder, Recs, Place, Path, Around, SortedRecs, Fitting, Ascending;
      var p, indx, exact, recno, stack;
      ghost var before, after;
      p, indx, exact, recno, stack, before, after := Search(key, true);
      PlaceBounds(pages[p].recs, key, true, indx, exact);
      ghost var flat, here := InOrder(pages, root), |Recs(pages, before)| + indx;
      PlaceMember(flat, key, true, here, exact);
      replaced := exact && !dups;
      if replaced {
        pos := here;
        Overwrite(key, data, p, indx, stack, before, after);
        SameKeysAscend(flat, pos, Rec(key, data, false));
      } else {
        pos := AddBehind(key, data, p, indx, exact, stack, before, after);
        if !dups {
          NewKeyAscends(flat, pos, Rec(key, data, false));
        }
      }
    }

    /** DB_CURRENT: the data of a record is replaced; a deleted record is counted again. */
    method Overwrite(key: Key, data: seq<byte>, p: nat, indx: nat, stack: seq<Step>,
                     ghost before: seq<nat>, ghost after: seq<nat>)
      requires Sound() && p in pages && pages[p].Leaf? && indx < |pages[p].recs| && pages[p].recs[indx].key == key
      requires Path(pages, root, stack, p, key) && Around(pages, root, before, p, after)
      requires (forall l <- before :: l in pages && pages[l].Leaf?) && (forall l <- after :: l in pages && pages[l].Leaf?)
      requires InOrder(pages, root) == Recs(pages, before) + pages[p].recs + Recs(pages, after)
      modifies this`pages, this`nrec
      ensures Sound()
      ensures |old(Recs(pages, before))| + indx < |old(InOrder(pages, root))|
      ensures old(InOrder(pages, root))[|old(Recs(pages, before))| + indx].key == key
      ensures InOrder(pages, root)
           == old(InOrder(pages, root))[|old(Recs(pages, before))| + indx := Rec(key, data, false)]
    {
      hide Shape, Unique, Good, Chained, Leaves, Lt, Live, InOrder, Recs, Path, Around, SortedRecs, Fitting;
      var recs := pages[p].recs;
      LeafSorted(pages, root, before, p, after, recnum);
      ReplacedFits(recs, indx, key, data);
      ghost var b, a := Recs(pages, before), Recs(pages, after);
      Change(stack, p, recs[indx := Rec(key, data, false)], if recs[indx].deleted then 1 else 0, key, before, after);
      ReplacedFlat(b, recs, a, indx, Rec(key, data, false));
    }

    /** A new record behind the records of its key. */
    method AddBehind(key: Key, data: seq<byte>, p: nat, indx: nat, exact: bool, stack: seq<Step>,
                     ghost before: seq<nat>, ghost after: seq<nat>) returns (ghost pos: nat)
      requires Sound() && p in pages && pages[p].Leaf?
      requires Path(pages, root, stack, p, key) && Around(pages, root, before, p, after)
      requires (forall l <- before :: l in pages && pages[l].Leaf?) && (forall l <- after :: l in pages && pages[l].Leaf?)
      requires InOrder(pages, root) == Recs(pages, before) + pages[p].recs + Recs(pages, after)
      requires Place(pages[p].recs, key, true, indx, exact)
      requires Place(InOrder(pages, root), key, true, |Recs(pages, before)| + indx, exact)
      modifies this`pages, this`nrec
      ensures Sound()
      ensures pos == |old(Recs(pages, before))| + indx + (if exact then 1 else 0) <= |old(InOrder(pages, root))|
      ensures forall i :: 0 <= i < pos ==> !Lt(key, old(InOrder(pages, root))[i].key)
      ensures forall i :: pos <= i < |old(InOrder(pages, root))| ==> Lt(key, old(InOrder(pages, root))[i].key)
      ensures InOrder(pages, root) == InsertAt(old(InOrder(pages, root)), pos, Rec(key, data, false))
    {
      hide Shape, Unique, Good, Chained, Leaves, Lt, Live, InOrder, Recs, Place, Path, Around, SortedRecs, Fitting;
      var recs := pages[p].recs;
      PlaceBounds(recs, key, true, indx, exact);
      LeafSorted(pages, root, before, p, after, recnum);
      FlatSorted(pages, root, recnum);
      var at := if exact then indx + 1 else indx;
      pos := |Recs(pages, before)| + at;
      PlaceSides(recs, key, indx, exact);
      PlaceSides(InOrder(pages, root), key, |Recs(pages, before)| + indx, exact);
      var added := InsertAt(recs, at, Rec(key, data, false));
      AddedFits(recs, at, key, data);
      ghost var b, a := Recs(pages, before), Recs(pages, after);
      Change(stack, p, added, 1, key, before, after);
      AddedFlat(b, recs, a, at, Rec(key, data, false));
    }
  }

  lemma PlaceMember(flat: seq<Rec>, key: Key, last: bool, pos: nat, exact: bool)
    requires Place(flat, key, last, pos, exact)
    ensures exact <==> exists r :: r in flat && r.key == key
  {
    LtIrreflexive(key);
    if exact {
      assert flat[pos] in flat;
    }
  }

  lemma ReplacedFits(recs: seq<Rec>, indx: nat, key: Key, data: seq<byte>)
    requires SortedRecs(recs) && indx < |recs| && recs[indx].key == key
    ensures Fitting(recs, recs[indx := Rec(key, data, false)], key, if recs[indx].deleted then 1 else 0)
  {
    hide Lt, Live;
    var r := recs[indx := Rec(key, data, false)];
    assert forall i :: 0 <= i < |recs| ==> r[i].key == recs[i].key && recs[i] in recs;
    LiveAround(recs, indx);
    LiveAround(r, indx);
    assert r[..indx] == recs[..indx] && r[indx + 1..] == recs[indx + 1..];
  }

  lemma ReplacedFlat(b: seq<Rec>, m: seq<Rec>, a: seq<Rec>, indx: nat, r: Rec)
    requires indx < |m|
    ensures (b + m + a)[|b| + indx] == m[indx]
    ensures (b + m + a)[|b| + indx := r] == b + m[indx := r] + a
  {
  }

  // ---- Changing a leaf ----

  /** The pages of the first `m` steps of a stack have their new counts. */
  ghost predicate CountsTo(s: Store, t: Store, stack: seq<Step>, m: nat, adjust: int) {
    && t.Keys == s.Keys
    && (forall k :: 0 <= k < |stack| ==>
          && stack[k].pgno in s && s[stack[k].pgno].Internal? && stack[k].indx < |s[stack[k].pgno].ents|
          && t[stack[k].pgno] ==
               if k < m then Internal(Counted(s[stack[k].pgno].ents, stack[k].indx, adjust), s[stack[k].pgno].level)
               else s[stack[k].pgno])
    && (forall q <- s :: (forall k :: 0 <= k < |stack| ==> stack[k].pgno != q) ==> t[q] == s[q])
  }

  lemma CountsNext(s: Store, t: Store, stack: seq<Step>, m: nat, adjust: int)
    requires CountsTo(s, t, stack, m, adjust) && m < |stack|
    requires forall j, k :: 0 <= j < k < |stack| ==> stack[j].pgno != stack[k].pgno
    ensures stack[m].pgno in t && t[stack[m].pgno].Internal? && stack[m].indx < |t[stack[m].pgno].ents|
    ensures var h := t[stack[m].pgno];
            CountsTo(s, t[stack[m].pgno := Internal(Counted(h.ents, stack[m].indx, adjust), h.level)], stack, m + 1, adjust)
  {
    hide Counted;
  }

  lemma StackPages(s: Store, root: nat, stack: seq<Step>, p: nat, key: Key, recnum: bool)
    requires Valid(s, root, recnum) && Path(s, root, stack, p, key) && p in s && s[p].Leaf?
    ensures forall k :: 0 <= k < |stack| ==>
              && stack[k].pgno in s && s[stack[k].pgno].Internal? && stack[k].indx < |s[stack[k].pgno].ents|
              && stack[k].pgno != p && (stack[k].pgno == root <==> k == 0)
    ensures forall j, k :: 0 <= j < k < |stack| ==> stack[j].pgno != stack[k].pgno
    ensures stack != [] <==> s[root].Internal?
  {
    hide Path, Unique, Good, Chained, Leaves;
    PathStart(s, root, stack, p, key);
    forall k | 0 <= k < |stack|
      ensures stack[k].pgno in s && s[stack[k].pgno].Internal? && stack[k].indx < |s[stack[k].pgno].ents|
      ensures stack[k].pgno != p && (stack[k].pgno == root <==> k == 0)
    {
      PathEntry(s, root, stack, p, key, k);
      PathLevels(s, root, stack, p, key, 0, k);
      PathLevels(s, root, stack, p, key, k, |stack|);
    }
    forall j, k | 0 <= j < k < |stack|
      ensures stack[j].pgno != stack[k].pgno
    {
      PathLevels(s, root, stack, p, key, j, k);
    }
  }

  lemma ChangeAdjusted(s: Store, t: Store, stack: seq<Step>, p: nat, recs: seq<Rec>, adjust: int)
    requires p in s && s[p].Leaf? && t.Keys == s.Keys
    requires forall k :: 0 <= k < |stack| ==>
               && stack[k].pgno in s && s[stack[k].pgno].Internal? && stack[k].indx < |s[stack[k].pgno].ents|
               && stack[k].pgno != p
    requires var s1 := s[p := s[p].(recs := recs)];
             && (forall k :: 0 <= k < |stack| ==>
                   t[stack[k].pgno] == Internal(Counted(s1[stack[k].pgno].ents, stack[k].indx, adjust), s1[stack[k].pgno].level))
             && (forall q <- s1 :: (forall k :: 0 <= k < |stack| ==> stack[k].pgno != q) ==> t[q] == s1[q])
    ensures Adjusted(s, t, stack, p, recs, adjust)
  {
    var s1 := s[p := s[p].(recs := recs)];
    assert p in s1;
  }

  lemma ChangeCount(s: Store, t: Store, root: nat, stack: seq<Step>, p: nat, key: Key, recs: seq<Rec>, adjust: int,
                    recnum: bool, before: seq<nat>, after: seq<nat>)
    requires Valid(s, root, recnum) && Valid(t, root, recnum) && Around(s, root, before, p, after) && s[p].Leaf?
    requires Fitting(s[p].recs, recs, key, adjust)
    requires (forall l <- before :: l in s && s[l].Leaf?) && (forall l <- after :: l in s && s[l].Leaf?)
    requires InOrder(t, root) == Recs(s, before) + recs + Recs(s, after)
    ensures Live(InOrder(t, root)) == Live(InOrder(s, root)) + adjust
  {
    hide Valid, Live, Recs, SortedRecs;
    WholeOrder(s, root, before, p, after, recnum);
    LiveAppend(Recs(s, before) + recs, Recs(s, after));
    LiveAppend(Recs(s, before), recs);
    LiveAppend(Recs(s, before) + s[p].recs, Recs(s, after));
    LiveAppend(Recs(s, before), s[p].recs);
  }

  lemma WholeOrder(s: Store, root: nat, before: seq<nat>, p: nat, after: seq<nat>, recnum: bool)
    requires Valid(s, root, recnum) && Around(s, root, before, p, after) && s[p].Leaf?
    requires (forall l <- before :: l in s && s[l].Leaf?) && (forall l <- after :: l in s && s[l].Leaf?)
    ensures InOrder(s, root) == Recs(s, before) + s[p].recs + Recs(s, after)
  {
    hide Unique, Good, Chained, Recs;
    assert Leaves(s, p) == [p];
    RecsOne(s, p);
    RecsAppend(s, before + [p], after);
    RecsAppend(s, before, [p]);
  }

  lemma PlaceSides(recs: seq<Rec>, key: Key, indx: nat, exact: bool)
    requires Place(recs, key, true, indx, exact) && SortedRecs(recs)
    ensures var at := if exact then indx + 1 else indx;
            && at <= |recs|
            && (forall i :: 0 <= i < at ==> !Lt(key, recs[i].key))
            && (forall i :: at <= i < |recs| ==> Lt(key, recs[i].key))
  {
    LtIrreflexive(key);
    hide Lt;
    var at := if exact then indx + 1 else indx;
    forall i | 0 <= i < at
      ensures !Lt(key, recs[i].key)
    {
      LtTrans(recs[i].key, key, key);
      LtTrans(key, recs[i].key, key);
      if exact && i < indx {
        assert !Lt(recs[indx].key, recs[i].key);
      }
    }
  }

  /** The records of any valid tree are sorted. */
  lemma FlatSorted(s: Store, root: nat, recnum: bool)
    requires Valid(s, root, recnum)
    ensures SortedRecs(InOrder(s, root))
  {
    SubtreeSorted(s, root, Open, Open, recnum);
  }

  lemma {:induction false} SubtreeSorted(s: Store, p: nat, lo: Bound, hi: Bound, recnum: bool)
    requires Shape(s) && p in s && Good(s, p, lo, hi, recnum)
    ensures SortedRecs(InOrder(s, p))
    decreases Level(s[p]), 1, 0
  {
    hide Good, SortedRecs, Recs, LeavesOf;
    if s[p].Leaf? {
      GoodGrows(s, p, lo, hi, recnum);
      RecsOne(s, p);
      assert Leaves(s, p) == [p];
    } else {
      GoodParts(s, p, lo, hi, recnum);
      InternalOrder(s, p);
      var ents := s[p].ents;
      FirstSorted(s, ents, |ents|, lo, hi, recnum, s[p].level - 1);
      assert ents[..|ents|] == ents;
    }
  }

  lemma {:induction false} FirstSorted(s: Store, ents: seq<Entry>, k: nat, lo: Bound, hi: Bound, recnum: bool, below: nat)
    requires Shape(s) && Children(s, ents, below) && Separators(ents, lo, hi) && k <= |ents|
    requires forall i :: 0 <= i < |ents| ==> GoodChild(s, ents, i, lo, hi, recnum, below)
    ensures Children(s, ents[..k], below) && SortedRecs(InOrderOf(s, ents[..k], below))
    decreases below + 1, 0, k
  {
    hide Shape, Good, Leaves, LeavesOf, Lt, Recs, SortedRecs, Separators;
    if k == 0 {
      NothingSorted(s, ents[..k], below);
    } else {
      var n, a := k - 1, ents[..k];
      LeavesOfLast(s, a, below);
      assert a[..n] == ents[..n] && GoodChild(s, ents, n, lo, hi, recnum, below);
      FirstSorted(s, ents, n, lo, hi, recnum, below);
      SubtreeSorted(s, ents[n].pgno, LowOf(ents, n, lo), HighOf(ents, n, hi), recnum);
      RecsAppend(s, LeavesOf(s, ents[..n], below), Leaves(s, ents[n].pgno));
      RangeOf(s, ents[n].pgno, LowOf(ents, n, lo), HighOf(ents, n, hi), recnum);
      if n > 0 {
        RangeOfFirst(s, ents, n, lo, hi, recnum, below);
        SortedTwo(InOrderOf(s, ents[..n], below), InOrder(s, ents[n].pgno), ents[n].key, lo, HighOf(ents, n, hi));
      } else {
        NothingOf(s, ents[..n], below);
        assert [] + InOrder(s, ents[n].pgno) == InOrder(s, ents[n].pgno);
      }
    }
  }

  lemma NothingSorted(s: Store, ents: seq<Entry>, below: nat)
    requires Shape(s) && ents == []
    ensures Children(s, ents, below) && SortedRecs(InOrderOf(s, ents, below))
  {
    NothingOf(s, ents, below);
  }

  lemma SortedTwo(a: seq<Rec>, b: seq<Rec>, key: Key, lo: Bound, hi: Bound)
    requires SortedRecs(a) && SortedRecs(b) && InRange(a, lo, At(key)) && InRange(b, At(key), hi)
    ensures SortedRecs(a + b)
  {
    hide Lt;
    var c := a + b;
    forall i, j | 0 <= i < j < |c|
      ensures !Lt(c[j].key, c[i].key)
    {
      if i < |a| <= j {
        assert a[i] in a && b[j - |a|] in b;
        LtTrans(a[i].key, key, b[j - |a|].key);
        LtTrans(a[i].key, b[j - |a|].key, key);
      }
    }
  }

  lemma LeafSorted(s: Store, root: nat, before: seq<nat>, p: nat, after: seq<nat>, recnum: bool)
    requires Valid(s, root, recnum) && Around(s, root, before, p, after) && s[p].Leaf?
    ensures SortedRecs(s[p].recs)
  {
    hide Lt, Unique, Good, Chained, SortedRecs;
    FlatSorted(s, root, recnum);
    assert forall l <- before :: l in before + after;
    assert forall l <- after :: l in before + after;
    WholeOrder(s, root, before, p, after, recnum);
    MiddleSorted(Recs(s, before), s[p].recs, Recs(s, after));
  }

  lemma MiddleSorted(b: seq<Rec>, m: seq<Rec>, a: seq<Rec>)
    requires SortedRecs(b + m + a)
    ensures SortedRecs(m)
  {
    var flat := b + m + a;
    forall i, j | 0 <= i < j < |m|
      ensures !Lt(m[j].key, m[i].key)
    {
      assert flat[|b| + i] == m[i] && flat[|b| + j] == m[j];
    }
  }

  lemma MarkedFits(recs: seq<Rec>, indx: nat, key: Key)
    requires SortedRecs(recs) && indx < |recs| && !recs[indx].deleted
    ensures Fitting(recs, recs[indx := recs[indx].(deleted := true)], key, -1)
  {
    hide Lt, Live, SortedRecs;
    MarkedLive(recs, indx);
    MarkedKeys(recs, indx);
  }

  lemma MarkedKeys(recs: seq<Rec>, indx: nat)
    requires SortedRecs(recs) && indx < |recs|
    ensures var marked := recs[indx := recs[indx].(deleted := true)];
            SortedRecs(marked) && forall r <- marked :: exists x :: x in recs && x.key == r.key
  {
    hide Lt;
    var marked := recs[indx := recs[indx].(deleted := true)];
    assert forall i :: 0 <= i < |recs| ==> marked[i].key == recs[i].key && recs[i] in recs;
  }

  lemma MarkedLive(recs: seq<Rec>, indx: nat)
    requires indx < |recs| && !recs[indx].deleted
    ensures Live(recs[indx := recs[indx].(deleted := true)]) == Live(recs) - 1
  {
    var marked := recs[indx := recs[indx].(deleted := true)];
    LiveAround(recs, indx);
    LiveAround(marked, indx);
    assert marked[..indx] == recs[..indx] && marked[indx + 1..] == recs[indx + 1..];
  }

  lemma LiveAround(recs: seq<Rec>, i: nat)
    requires i < |recs|
    ensures Live(recs) == Live(recs[..i]) + (if recs[i].deleted then 0 else 1) + Live(recs[i + 1..])
  {
    assert recs == recs[..i + 1] + recs[i + 1..];
    LiveAppend(recs[..i + 1], recs[i + 1..]);
    LiveNext(recs, i);
  }

  lemma MarkedFlat(b: seq<Rec>, m: seq<Rec>, a: seq<Rec>, indx: nat)
    requires indx < |m|
    ensures (b + m + a)[|b| + indx] == m[indx]
    ensures (b + m + a)[|b| + indx := m[indx].(deleted := true)] == b + m[indx := m[indx].(deleted := true)] + a
  {
  }

  lemma AddedFits(recs: seq<Rec>, at: nat, key: Key, data: seq<byte>)
    requires SortedRecs(recs) && at <= |recs|
    requires forall i :: 0 <= i < at ==> !Lt(key, recs[i].key)
    requires forall i :: at <= i < |recs| ==> Lt(key, recs[i].key)
    ensures Fitting(recs, InsertAt(recs, at, Rec(key, data, false)), key, 1)
  {
    AddedSorted(recs, at, key, data);
    AddedLive(recs, at, Rec(key, data, false));
    hide Lt, SortedRecs, Live;
    var added := InsertAt(recs, at, Rec(key, data, false));
    forall r <- added | r.key != key
      ensures exists x :: x in recs && x.key == r.key
    {
      var i :| 0 <= i < |added| && added[i] == r;
      assert (if i < at then recs[i] else recs[i - 1]) in recs;
    }
  }

  lemma AddedSorted(recs: seq<Rec>, at: nat, key: Key, data: seq<byte>)
    requires SortedRecs(recs) && at <= |recs|
    requires forall i :: 0 <= i < at ==> !Lt(key, recs[i].key)
    requires forall i :: at <= i < |recs| ==> Lt(key, recs[i].key)
    ensures SortedRecs(InsertAt(recs, at, Rec(key, data, false)))
  {
    hide Lt;
    var added := InsertAt(recs, at, Rec(key, data, false));
    forall i, j | 0 <= i < j < |added|
      ensures !Lt(added[j].key, added[i].key)
    {
      if i == at {
        LtTrans(key, added[j].key, key);
      }
    }
  }

  lemma AddedLive(recs: seq<Rec>, at: nat, r: Rec)
    requires at <= |recs| && !r.deleted
    ensures Live(InsertAt(recs, at, r)) == Live(recs) + 1
  {
    hide Live, InsertAt;
    var a, b := recs[..at], recs[at..];
    assert recs == a + b;
    AddedParts(recs, at, r);
    LiveAppend(a, b);
    LiveAppend(a + [r], b);
    LiveAppend(a, [r]);
    LiveOne(r);
  }

  lemma AddedParts(recs: seq<Rec>, at: nat, r: Rec)
    requires at <= |recs|
    ensures InsertAt(recs, at, r) == recs[..at] + [r] + recs[at..]
  {
  }

  lemma LiveOne(r: Rec)
    ensures Live([r]) == if r.deleted then 0 else 1
  {
    assert [r][..0] == [];
  }

  lemma AddedFlat(b: seq<Rec>, m: seq<Rec>, a: seq<Rec>, at: nat, r: Rec)
    requires at <= |m|
    ensures InsertAt(b + m + a, |b| + at, r) == b + InsertAt(m, at, r) + a
  {
  }

  // ---- Splitting ----

  /** A search stack has come down to every page on it: its keys, and the leaves around it. */
  lemma {:induction false} ReachedAlong(s: Store, root: nat, stack: seq<Step>, p: nat, key: Key, recnum: bool, k: nat)
    returns (before: seq<nat>, after: seq<nat>, lo: Bound, hi: Bound)
    requires Valid(s, root, recnum) && Path(s, root, stack, p, key) && k <= |stack|
    ensures PageAt(stack, p, k) in s
    ensures Reached(s, root, before, PageAt(stack, p, k), after, key, lo, hi, recnum)
    decreases k
  {
    hide Path, Good, Unique, Chained, Leaves, Around, Between, Lt, Shape;
    if k == 0 {
      PathStart(s, root, stack, p, key);
      Start(s, root, key, recnum);
      before, after, lo, hi := [], [], Open, Open;
    } else {
      before, after, lo, hi := ReachedAlong(s, root, stack, p, key, recnum, k - 1);
      PathEntry(s, root, stack, p, key, k - 1);
      var x := stack[k - 1];
      before, after := Descend(s, root, before, x.pgno, after, x.indx, key, lo, hi, recnum);
      lo, hi := LowOf(s[x.pgno].ents, x.indx, lo), HighOf(s[x.pgno].ents, x.indx, hi);
    }
  }

  lemma StackLeads(s: Store, root: nat, stack: seq<Step>, p: nat, key: Key, x: Step, recnum: bool)
    returns (before: seq<nat>, after: seq<nat>, lo: Bound, hi: Bound)
    requires Valid(s, root, recnum) && Path(s, root, stack, p, key) && x in stack
    ensures x.pgno in s && Refers(s, x.pgno, x.indx)
    ensures Reached(s, root, before, s[x.pgno].ents[x.indx].pgno, after, key, lo, hi, recnum)
  {
    hide Path, Valid, Reached;
    var k :| 0 <= k < |stack| && stack[k] == x;
    PathEntry(s, root, stack, p, key, k);
    before, after, lo, hi := ReachedAlong(s, root, stack, p, key, recnum, k + 1);
  }

  /** A place at which a page may be divided: between records of different keys. */
  predicate Divides(n: Node, split: nat) {
    match n
    case Leaf(recs, _, _) => 0 < split < |recs| && recs[split - 1].key != recs[split].key
    case Internal(ents, _) => 0 < split < |ents|
  }

  /** What the source checks by construction, for a page below the root. */
  ghost predicate SplitReady(s: Store, root: nat, cp: nat, split: nat) {
    && cp in s && Divides(s[cp], split)
    && match s[cp]
       case Leaf(recs, _, next) =>
         && Lt(recs[split - 1].key, recs[split].key)
         && (next != PGNO_INVALID ==> next != cp && next in s && s[next].Leaf?)
         && Shape(s) && root in s && cp in Leaves(s, root)
       case Internal(_, _) => true
  }

  lemma DividesAround(s: Store, root: nat, before: seq<nat>, cp: nat, after: seq<nat>, split: nat,
                      lo: Bound, hi: Bound, recnum: bool)
    requires Valid(s, root, recnum) && Around(s, root, before, cp, after) && Divides(s[cp], split)
    requires Good(s, cp, lo, hi, recnum)
    ensures SplitReady(s, root, cp, split)
  {
    hide Lt, Unique;
    match s[cp]
    case Leaf(recs, _, _) =>
      var ls := Leaves(s, root);
      assert Leaves(s, cp) == [cp] && ls[|before|] == cp;
      assert Linked(s, ls, |before|);
      LtTrans(recs[split - 1].key, recs[split].key, recs[split].key);
    case Internal(_, _) =>
  }

  function WholeKey(n: Node, split: nat): Key
    requires Divides(n, split)
  {
    match n
    case Leaf(recs, _, _) => recs[split].key
    case Internal(ents, _) => ents[split].key
  }

  /** The key promoted to the parent: the whole key, or the shortest prefix of it that tells
    * the halves of a leaf apart if that takes less room. */
  function Promoted(n: Node, split: nat): Key
    requires Divides(n, split)
  {
    match n
    case Leaf(recs, _, _) =>
      var b := recs[split].key;
      var nksize := SeparatorLength(recs[split - 1].key, b);
      if nksize <= |b| && EntrySize(nksize) < EntrySize(|b|) then b[..nksize] else b
    case Internal(ents, _) => ents[split].key
  }

  /** The parent has room for the new entry. */
  predicate HasRoom(parent: Node, child: Node, split: nat, pgsize: nat)
    requires parent.Internal? && Divides(child, split)
  {
    EntrySize(|Promoted(child, split)|) <= pgsize - SIZEOF_PAGE - Used(parent.ents)
  }

  /** The pages after a split of entry `i` of page `pp` at `split`. */
  ghost predicate IsCut(s: Store, t: Store, pp: nat, i: nat, rp: nat, split: nat) {
    exists c: Cut | CanCut(s, c) ::
      && c.pp == pp && c.i == i && c.rp == rp && c.split == split
      && c.cp in s && Divides(s[c.cp], split) && c.sep == Promoted(s[c.cp], split)
      && t == AfterCut(s, c)
  }

  lemma CutIs(s: Store, t: Store, c: Cut)
    requires CanCut(s, c) && c.cp in s && Divides(s[c.cp], c.split) && c.sep == Promoted(s[c.cp], c.split)
    requires t == AfterCut(s, c)
    ensures IsCut(s, t, c.pp, c.i, c.rp, c.split)
  {
    hide AfterCut, CanCut, Divides, Promoted;
  }

  /** The pages after a split of the root. */
  ghost predicate IsRootCut(s: Store, t: Store, root: nat, lp: nat, rp: nat, split: nat) {
    exists c: RootCut | CanCutRoot(s, root, c) ::
      && c.lp == lp && c.rp == rp && c.split == split
      && Divides(s[root], split) && c.sep == WholeKey(s[root], split)
      && t == AfterRootCut(s, root, c)
  }

  lemma RootCutIs(s: Store, t: Store, root: nat, c: RootCut)
    requires CanCutRoot(s, root, c) && Divides(s[root], c.split) && c.sep == WholeKey(s[root], c.split)
    requires t == AfterRootCut(s, root, c)
    ensures IsRootCut(s, t, root, c.lp, c.rp, c.split)
  {
  }

  lemma EntrySizeGrows(a: nat, b: nat)
    requires a <= b
    ensures EntrySize(a) <= EntrySize(b)
  {
  }

  /** No separating prefix of the right key makes a smaller entry. */
  lemma SmallestSeparator(a: Key, b: Key, n: nat, sep: Key)
    requires Lt(a, b) && n <= |b| && forall k :: 0 <= k < n ==> !Lt(a, b[..k])
    requires sep == if EntrySize(n) < EntrySize(|b|) then b[..n] else b
    ensures sep <= b
    ensures forall k | 0 <= k <= |b| && Lt(a, b[..k]) :: EntrySize(|sep|) <= EntrySize(k)
  {
    hide Lt, EntrySize;
    forall k | 0 <= k <= |b| && Lt(a, b[..k])
      ensures EntrySize(|sep|) <= EntrySize(k)
    {
      EntrySizeGrows(n, k);
    }
  }

  /** Where the keys ascend, the promoted key divides them. */
  method Separator(n: Node, split: nat) returns (sep: Key)
    requires Divides(n, split)
    ensures sep == Promoted(n, split)
    ensures n.Leaf? && Lt(n.recs[split - 1].key, n.recs[split].key) ==>
              && Lt(n.recs[split - 1].key, sep) && !Lt(n.recs[split].key, sep) && sep <= n.recs[split].key
              && forall k | 0 <= k <= |n.recs[split].key| && Lt(n.recs[split - 1].key, n.recs[split].key[..k]) ::
                   EntrySize(|sep|) <= EntrySize(k)
    ensures n.Internal? ==> sep == n.ents[split].key
  {
    hide Compare, SeparatorLength, EntrySize;
    match n {
      case Leaf(recs, _, _) =>
        var a, b := recs[split - 1].key, recs[split].key;
        var nksize := DefPfx(a, b);
        sep := if nksize <= |b| && EntrySize(nksize) < EntrySize(|b|) then b[..nksize] else b;
        LtIrreflexive(b);
        CompareIsDictionaryOrder(b, sep);
        if Lt(a, b) {
          SmallestSeparator(a, b, nksize, sep);
        }
      case Internal(ents, _) => sep := ents[split].key;
    }
  }

  /** `__bam_copy` to the two halves. */
  method Halves(n: Node, cp: nat, rp: nat, split: nat) returns (left: Node, right: Node)
    requires Divides(n, split)
    ensures match n
            case Leaf(recs, prev, next) =>
              left == Leaf(recs[..split], prev, rp) && right == Leaf(recs[split..], cp, next)
            case Internal(ents, level) =>
              left == Internal(ents[..split], level) && right == Internal(Without(ents[split..]), level)
  {
    match n {
      case Leaf(recs, prev, next) =>
        left, right := Leaf(recs[..split], prev, rp), Leaf(recs[split..], cp, next);
      case Internal(ents, level) =>
        left, right := Internal(ents[..split], level), Internal(Without(ents[split..]), level);
    }
  }

  lemma SplitAllowed(s: Store, root: nat, c: Cut, recnum: bool)
    requires Valid(s, root, recnum) && SplitReady(s, root, c.cp, c.split)
    requires c.pp in s && s[c.pp].Internal? && c.i < |s[c.pp].ents| && s[c.pp].ents[c.i].pgno == c.cp
    requires c.rp !in s && c.rp != PGNO_INVALID
    requires s[c.cp].Leaf? ==> Lt(s[c.cp].recs[c.split - 1].key, c.sep) && !Lt(s[c.cp].recs[c.split].key, c.sep)
    requires s[c.cp].Internal? ==> c.sep == s[c.cp].ents[c.split].key
    ensures CanCut(s, c) && (s[c.cp].Leaf? ==> c.cp in Leaves(s, root))
    ensures c.cp != c.pp
  {
    hide Good, Unique, Chained, Lt;
    assert Children(s, s[c.pp].ents, s[c.pp].level - 1);
  }

  lemma SplitDone(s: Store, c: Cut, left: Node, right: Node, t: Store)
    requires CanCut(s, c) && left == LeftHalf(s, c) && right == RightHalf(s, c) && c.cp != c.pp
    requires var halves := s[c.pp := Internal(Parted(s[c.pp].ents, c), s[c.pp].level)][c.cp := left][c.rp := right];
             t == if s[c.cp].Leaf? && s[c.cp].next != PGNO_INVALID
                  then halves[s[c.cp].next := halves[s[c.cp].next].(prev := c.rp)] else halves
    ensures t == AfterCut(s, c)
  {
    if s[c.cp].Leaf? {
      var next := s[c.cp].next;
      assert next in s ==> next != c.cp && next != c.rp;
    }
  }

  lemma RootAllowed(s: Store, root: nat, c: RootCut, recnum: bool)
    requires Valid(s, root, recnum) && Divides(s[root], c.split)
    requires c.lp !in s && c.rp !in s && c.lp != c.rp && c.lp != PGNO_INVALID && c.rp != PGNO_INVALID
    requires c.sep == WholeKey(s[root], c.split)
    ensures CanCutRoot(s, root, c)
  {
    hide Lt, Unique;
    match s[root]
    case Leaf(recs, _, _) =>
      assert Leaves(s, root) == [root] && Linked(s, [root], 0);
      LtTrans(recs[c.split - 1].key, recs[c.split].key, recs[c.split].key);
      LtIrreflexive(c.sep);
    case Internal(_, _) =>
  }

  lemma RootCounts(s: Store, root: nat, c: RootCut, left: Node, right: Node)
    requires Valid(s, root, true) && CanCutRoot(s, root, c)
    requires match s[root]
             case Leaf(recs, prev, next) =>
               left == Leaf(recs[..c.split], prev, c.rp) && right == Leaf(recs[c.split..], c.lp, next)
             case Internal(ents, level) =>
               left == Internal(ents[..c.split], level) && right == Internal(Without(ents[c.split..]), level)
    requires c.left == Total(left) && c.right == Total(right)
    ensures c.left + c.right == Live(InOrder(s, root))
    ensures var t := AfterRootCut(s, root, c);
            Shape(t) && c.rp in t && c.right == Live(InOrder(t, c.rp))
  {
    hide AfterRootCut, AfterCut, Lifted, CanCut, Good, Leaves, InOrder, Live, Unique, Chained, Shape, Lt;
    var total := c.left + c.right;
    TotalHalves(s[root], c.split);
    TotalIsLive(s, root, Open, Open);
    RootCutIsCut(s, root, c);
    RootCutLift(s, root, c);
    LiftedChild(s, root, c.lp, total, true);
    MovedCount(Lifted(s, root, c.lp, total), AsCut(root, c), Open, Open);
    RightIs(Lifted(s, root, c.lp, total), AsCut(root, c), s[root], right);
  }

  lemma RightIs(s: Store, c: Cut, n: Node, right: Node)
    requires CanCut(s, c) && c.cp in s && s[c.cp] == n
    requires match n
             case Leaf(recs, _, next) => right == Leaf(recs[c.split..], c.cp, next)
             case Internal(ents, level) => right == Internal(Without(ents[c.split..]), level)
    ensures right == RightHalf(s, c)
  {
  }

  lemma TotalHalves(n: Node, split: nat)
    requires match n case Leaf(recs, _, _) => split <= |recs| case Internal(ents, _) => split < |ents|
    ensures match n
            case Leaf(recs, _, _) => Live(recs[..split]) + Live(recs[split..]) == Total(n)
            case Internal(ents, _) => Sum(ents[..split]) + Sum(Without(ents[split..])) == Total(n)
  {
    match n
    case Leaf(recs, _, _) =>
      assert recs[..split] + recs[split..] == recs;
      LiveAppend(recs[..split], recs[split..]);
    case Internal(ents, _) =>
      assert ents[..split] + ents[split..] == ents;
      SumAppend(ents[..split], ents[split..]);
      SameSum(ents[split..], Without(ents[split..]));
  }

  lemma {:induction false} SumAppend(a: seq<Entry>, b: seq<Entry>)
    ensures Sum(a + b) == Sum(a) + Sum(b)
  {
    if b == [] {
      assert a + b == a;
    } else {
      assert (a + b)[..|a + b| - 1] == a + b[..|b| - 1];
      SumAppend(a, b[..|b| - 1]);
    }
  }

  lemma {:induction false} SameSum(a: seq<Entry>, b: seq<Entry>)
    requires |a| == |b| && forall i :: 0 <= i < |a| ==> a[i].nrecs == b[i].nrecs
    ensures Sum(a) == Sum(b)
  {
    if a != [] {
      SameSum(a[..|a| - 1], b[..|b| - 1]);
    }
  }

  lemma RootDone(s: Store, root: nat, c: RootCut, left: Node, right: Node, t: Store)
    requires CanCutRoot(s, root, c)
    requires match s[root]
             case Leaf(recs, prev, next) =>
               left == Leaf(recs[..c.split], prev, c.rp) && right == Leaf(recs[c.split..], c.lp, next)
             case Internal(ents, level) =>
               left == Internal(ents[..c.split], level) && right == Internal(Without(ents[c.split..]), level)
    requires t == s[root := Internal([Entry([], c.lp, c.left), Entry(c.sep, c.rp, c.right)], Level(s[root]) + 1)]
                   [c.lp := left][c.rp := right]
    ensures t == AfterRootCut(s, root, c) && root in t && t[root].Internal?
    ensures t.Keys == s.Keys + {c.lp, c.rp}
  {
  }

  // ---- Searching by record number ----

  /** A search for record `recno` has come down to page `p`, with `total` records before it. */
  ghost predicate Counting(s: Store, root: nat, before: seq<nat>, p: nat, after: seq<nat>, lo: Bound, hi: Bound,
                           recno: nat, total: int) {
    && Shape(s) && root in s && Around(s, root, before, p, after) && Good(s, p, lo, hi, true)
    && total == Live(Recs(s, before))
    && (total < recno || (total == 0 && recno == 0))
    && (recno <= total + Live(InOrder(s, p)) || recno > Live(InOrder(s, root)))
  }

  lemma StartCount(s: Store, root: nat, recnum: bool, nrec: int, recno: nat)
    requires Valid(s, root, recnum) && recnum && (s[root].Internal? ==> nrec == Live(InOrder(s, root)))
    ensures Counting(s, root, [], root, [], Open, Open, recno, 0)
    ensures recno > (if s[root].Internal? then nrec else |s[root].recs|) ==> recno > Live(InOrder(s, root))
  {
    if s[root].Leaf? {
      RecsOne(s, root);
      LiveBound(s[root].recs);
    }
  }

  lemma {:induction false} LiveBound(recs: seq<Rec>)
    ensures Live(recs) <= |recs|
  {
    if recs != [] {
      LiveBound(recs[..|recs| - 1]);
    }
  }

  /** The walk over the counts of an internal page. */
  method PickEntry(ents: seq<Entry>, recno: nat, from: int) returns (indx: nat, total: int)
    requires ents != [] && (from < recno || (from == 0 && recno == 0))
    ensures indx < |ents| && total == from + Sum(ents[..indx])
    ensures total < recno || (indx == 0 && total == from)
    ensures indx + 1 == |ents| || recno <= total + ents[indx].nrecs
  {
    indx, total := 0, from;
    while true
      invariant indx < |ents| && total == from + Sum(ents[..indx])
      invariant total < recno || (indx == 0 && total == from)
      decreases |ents| - indx
    {
      var bi := ents[indx];
      indx := indx + 1;
      if indx == |ents| || total + bi.nrecs >= recno {
        break;
      }
      assert ents[..indx][..indx - 1] == ents[..indx - 1];
      total := total + bi.nrecs;
    }
    indx := indx - 1;
  }

  /** The walk over the records of a leaf. */
  method PickRec(recs: seq<Rec>, recno: int) returns (found: bool, indx: nat)
    ensures found ==> Nth(recs, recno, indx)
    ensures !found ==> recno <= 0 || recno > Live(recs)
  {
    var count := 0;
    indx := 0;
    while indx < |recs|
      invariant indx <= |recs| && count == Live(recs[..indx])
      invariant recno <= 0 || count < recno
    {
      LiveNext(recs, indx);
      if !recs[indx].deleted {
        if count + 1 == recno {
          return true, indx;
        }
        count := count + 1;
      }
      indx := indx + 1;
    }
    assert recs[..indx] == recs;
    return false, indx;
  }

  lemma LiveNone(recs: seq<Rec>)
    ensures Live(recs[..0]) == 0
  {
  }

  lemma LiveNext(recs: seq<Rec>, i: nat)
    requires i < |recs|
    ensures Live(recs[..i + 1]) == Live(recs[..i]) + if recs[i].deleted then 0 else 1
  {
    assert recs[..i + 1][..i] == recs[..i];
  }

  lemma DescendCount(s: Store, root: nat, before: seq<nat>, p: nat, after: seq<nat>, i: nat, lo: Bound, hi: Bound,
                     recno: nat, from: int, total: int) returns (b: seq<nat>, a: seq<nat>)
    requires Counting(s, root, before, p, after, lo, hi, recno, from) && s[p].Internal?
    requires i < |s[p].ents| && total == from + Sum(s[p].ents[..i])
    requires total < recno || (total == 0 && recno == 0)
    requires i + 1 == |s[p].ents| || recno <= total + s[p].ents[i].nrecs
    ensures s[p].ents[i].pgno in s && Level(s[s[p].ents[i].pgno]) == s[p].level - 1
    ensures Counting(s, root, b, s[p].ents[i].pgno, a, LowOf(s[p].ents, i, lo), HighOf(s[p].ents, i, hi), recno, total)
  {
    hide Shape, Good, Leaves, LeavesOf, Recs, Live, Sum, Separators, Around;
    AroundPage(s, root, before, p, after);
    GoodParts(s, p, lo, hi, true);
    AroundChild(s, root, before, p, after, i);
    var ents, below := s[p].ents, s[p].level - 1;
    b, a := before + LeavesOf(s, ents[..i], below), LeavesOf(s, ents[i + 1..], below) + after;
    AroundPage(s, root, b, ents[i].pgno, a);
    RecsAppend(s, before, LeavesOf(s, ents[..i], below));
    assert GoodChild(s, ents, i, lo, hi, true, below);
    SumOfFirst(s, ents, i, lo, hi, below);
    LiveAppend(Recs(s, before), InOrderOf(s, ents[..i], below));
    if i + 1 == |ents| {
      SumOfFirst(s, ents, |ents|, lo, hi, below);
      assert ents[..|ents|] == ents;
      SumNext(ents, i);
      InternalLeaves(s, p);
    }
  }

  lemma AroundPage(s: Store, root: nat, before: seq<nat>, p: nat, after: seq<nat>)
    requires Shape(s) && root in s && Around(s, root, before, p, after)
    ensures p in s
    ensures (forall l <- before :: l in s && s[l].Leaf?) && (forall l <- after :: l in s && s[l].Leaf?)
  {
    assert forall l <- before :: l in before + after;
    assert forall l <- after :: l in before + after;
  }

  lemma SumNext(ents: seq<Entry>, i: nat)
    requires i < |ents|
    ensures Sum(ents[..i + 1]) == Sum(ents[..i]) + ents[i].nrecs
  {
    assert ents[..i + 1][..i] == ents[..i];
  }

  lemma CountInTree(s: Store, root: nat, before: seq<nat>, p: nat, after: seq<nat>, lo: Bound, hi: Bound,
                    recno: nat, total: int, found: bool, indx: nat)
    requires Counting(s, root, before, p, after, lo, hi, recno, total) && s[p].Leaf?
    requires found ==> Nth(s[p].recs, recno - total, indx)
    requires !found ==> recno - total <= 0 || recno - total > Live(s[p].recs)
    ensures found <==> 1 <= recno <= Live(InOrder(s, root))
    ensures forall l <- before :: l in s && s[l].Leaf?
    ensures found ==> Nth(InOrder(s, root), recno, |Recs(s, before)| + indx)
  {
    hide Shape, Recs, Live, Good;
    AroundPage(s, root, before, p, after);
    assert Leaves(s, p) == [p];
    RecsOne(s, p);
    RecsAppend(s, before + [p], after);
    RecsAppend(s, before, [p]);
    var b, m, a := Recs(s, before), s[p].recs, Recs(s, after);
    LiveAppend(b + m, a);
    LiveAppend(b, m);
    if found {
      InMiddle(b, m, a, indx);
      LivePrefix(m, indx, |m|);
      assert m[..|m|] == m;
      LiveNext(m, indx);
      LivePrefix(m, indx + 1, |m|);
    }
  }

  lemma InMiddle(b: seq<Rec>, m: seq<Rec>, a: seq<Rec>, indx: nat)
    requires indx < |m|
    ensures (b + m + a)[|b| + indx] == m[indx]
    ensures Live((b + m + a)[..|b| + indx]) == Live(b) + Live(m[..indx])
  {
    assert (b + m + a)[..|b| + indx] == b + m[..indx];
    LiveAppend(b, m[..indx]);
  }

  lemma PlaceBounds(recs: seq<Rec>, key: Key, last: bool, indx: nat, exact: bool)
    requires Place(recs, key, last, indx, exact)
    ensures indx <= |recs| && (exact ==> indx < |recs| && recs[indx].key == key)
  {
  }

  lemma Start(s: Store, root: nat, key: Key, recnum: bool)
    requires Valid(s, root, recnum)
    ensures Reached(s, root, [], root, [], key, Open, Open, recnum)
    ensures Live(Recs(s, [])) == 0 && Path(s, root, [], root, key)
  {
  }
}
