/** What a search of a btree finds, by key and by record number. */
module BtreeSearch {
  import opened Bytes
  import opened BtreeShape

  // ---- Places in the sequence of records ----

  /** The place of a key: of its first or last record, or where it would be inserted. */
  ghost predicate Place(flat: seq<Rec>, key: Key, last: bool, pos: nat, exact: bool) {
    if exact then
      && pos < |flat| && flat[pos].key == key
      && (if last then forall i :: pos < i < |flat| ==> Lt(key, flat[i].key)
          else forall i :: 0 <= i < pos ==> Lt(flat[i].key, key))
    else
      && pos <= |flat|
      && (forall i :: 0 <= i < pos ==> Lt(flat[i].key, key))
      && (forall i :: pos <= i < |flat| ==> Lt(key, flat[i].key))
  }

  lemma LtIrreflexive(a: Key)
    ensures !Lt(a, a)
  {
    CompareIsDictionaryOrder(a, a);
  }

  /** A key has one place in a sequence, so a search that finds the place finds the same
    * record or insertion point as long as the sequence stays the same. */
  lemma OnePlace(flat: seq<Rec>, key: Key, last: bool, p: nat, pe: bool, q: nat, qe: bool)
    requires Place(flat, key, last, p, pe) && Place(flat, key, last, q, qe)
    ensures p == q && pe == qe
  {
    LtIrreflexive(key);
    LtTrans(key, key, key);
    hide Lt;
    if p < q {
      LtTrans(flat[p].key, key, flat[p].key);
    } else if q < p {
      LtTrans(flat[q].key, key, flat[q].key);
    }
    if p < |flat| {
      LtTrans(key, flat[p].key, key);
    }
  }

  /** The place of the `n`-th record that is not logically deleted. */
  ghost predicate Nth(flat: seq<Rec>, n: int, pos: nat) {
    pos < |flat| && !flat[pos].deleted && Live(flat[..pos]) == n - 1
  }

  lemma {:induction false} LivePrefix(flat: seq<Rec>, i: nat, j: nat)
    requires i <= j <= |flat|
    ensures Live(flat[..i]) <= Live(flat[..j]) <= Live(flat[..i]) + (j - i)
    ensures i < j && !flat[i].deleted ==> Live(flat[..i]) < Live(flat[..j])
    decreases j
  {
    if i < j {
      assert flat[..j][..j - 1] == flat[..j - 1];
      LivePrefix(flat, i, j - 1);
    }
  }

  /** Selection is unambiguous, hence the inverse of ranking. */
  lemma OneNth(flat: seq<Rec>, n: int, p: nat, q: nat)
    requires Nth(flat, n, p) && Nth(flat, n, q)
    ensures p == q
  {
    if p < q {
      LivePrefix(flat, p, q);
    } else if q < p {
      LivePrefix(flat, q, p);
    }
  }

  /** There is an `n`-th record exactly up to the number of records. */
  lemma {:induction false} SomeNth(flat: seq<Rec>, n: int)
    ensures (exists pos :: Nth(flat, n, pos)) <==> 1 <= n <= Live(flat)
  {
    if flat == [] {
    } else {
      var front := flat[..|flat| - 1];
      SomeNth(front, n);
      if pos: nat :| Nth(front, n, pos) {
        assert flat[..pos] == front[..pos];
        assert Nth(flat, n, pos);
      }
      if pos: nat :| Nth(flat, n, pos) {
        if pos < |front| {
          assert flat[..pos] == front[..pos];
          assert Nth(front, n, pos);
        }
      }
      if n == Live(flat) && !flat[|front|].deleted {
        assert Nth(flat, n, |front|);
      }
    }
  }

  // ---- Keys below a page lie within its bounds ----

  ghost predicate InRange(recs: seq<Rec>, lo: Bound, hi: Bound) {
    forall r <- recs :: AboveLow(lo, r.key) && BelowHigh(r.key, hi)
  }

  lemma {:induction false} RangeOf(s: Store, p: nat, lo: Bound, hi: Bound, recnum: bool)
    requires Shape(s) && p in s && Good(s, p, lo, hi, recnum)
    ensures InRange(InOrder(s, p), lo, hi)
    decreases Level(s[p]), 1, 0
  {
    match s[p]
    case Leaf(_, _, _) => RecsOne(s, p);
    case Internal(ents, level) =>
      var below := level - 1;
      assert Children(s, ents, below);
      assert forall i :: 0 <= i < |ents| ==> GoodChild(s, ents, i, lo, hi, recnum, below);
      RangeOfFirst(s, ents, |ents|, lo, hi, recnum, below);
      assert ents[..|ents|] == ents;
  }

  /** The first `k` children hold only keys below the separator behind them. */
  lemma {:induction false} RangeOfFirst(s: Store, ents: seq<Entry>, k: nat, lo: Bound, hi: Bound, recnum: bool, below: nat)
    requires Shape(s) && Children(s, ents, below) && Separators(ents, lo, hi) && 0 < k <= |ents|
    requires forall i :: 0 <= i < |ents| ==> GoodChild(s, ents, i, lo, hi, recnum, below)
    ensures Children(s, ents[..k], below)
    ensures InRange(InOrderOf(s, ents[..k], below), lo, HighOf(ents, k - 1, hi))
    decreases below + 1, 0, k
  {
    hide Shape, Good, Leaves, LeavesOf, Lt, Recs;
    var n, a := k - 1, ents[..k];
    LeavesOfLast(s, a, below);
    assert a[..n] == ents[..n] && GoodChild(s, ents, n, lo, hi, recnum, below);
    RangeOf(s, ents[n].pgno, LowOf(ents, n, lo), HighOf(ents, n, hi), recnum);
    RecsAppend(s, LeavesOf(s, ents[..n], below), Leaves(s, ents[n].pgno));
    var last := InOrder(s, ents[n].pgno);
    if n == 0 {
      LeavesOfNone(s, below);
      RecsNone(s);
    } else {
      RangeOfFirst(s, ents, n, lo, hi, recnum, below);
      Widen(InOrderOf(s, ents[..n], below), lo, At(ents[n].key), lo, HighOf(ents, n, hi));
      Widen(last, At(ents[n].key), HighOf(ents, n, hi), lo, HighOf(ents, n, hi));
    }
  }

  lemma RecsNone(s: Store)
    ensures Recs(s, []) == []
  {
  }

  /** The children from `k` on hold only keys from their first separator on. */
  lemma {:induction false} RangeOfRest(s: Store, ents: seq<Entry>, k: nat, m: nat, lo: Bound, hi: Bound, recnum: bool, below: nat)
    requires Shape(s) && Children(s, ents, below) && Separators(ents, lo, hi) && 0 < k < m <= |ents|
    requires forall i :: 0 <= i < |ents| ==> GoodChild(s, ents, i, lo, hi, recnum, below)
    ensures Children(s, ents[k..m], below)
    ensures InRange(InOrderOf(s, ents[k..m], below), At(ents[k].key), Open)
    decreases m
  {
    hide Shape, Good, Leaves, LeavesOf, Lt, Recs;
    var n, a := m - 1, ents[k..m];
    LeavesOfLast(s, a, below);
    assert a[..|a| - 1] == ents[k..n] && GoodChild(s, ents, n, lo, hi, recnum, below);
    RangeOf(s, ents[n].pgno, LowOf(ents, n, lo), HighOf(ents, n, hi), recnum);
    RecsAppend(s, LeavesOf(s, ents[k..n], below), Leaves(s, ents[n].pgno));
    if n == k {
      LeavesOfNone(s, below);
      RecsNone(s);
    } else {
      RangeOfRest(s, ents, k, n, lo, hi, recnum, below);
    }
    var last := InOrder(s, ents[n].pgno);
    forall r <- last
      ensures !Lt(r.key, ents[k].key)
    {
      if n > k {
        LtTrans(ents[k].key, ents[n].key, r.key);
        LtTrans(ents[k].key, r.key, ents[k].key);
      }
    }
  }

  /** Wider bounds. */
  lemma Widen(recs: seq<Rec>, lo: Bound, hi: Bound, lo2: Bound, hi2: Bound)
    requires InRange(recs, lo, hi)
    requires lo2 == lo || (lo.At? && (lo2.At? ==> Lt(lo2.key, lo.key)))
    requires hi2 == hi || (hi.At? && (hi2.At? ==> Lt(hi.key, hi2.key)))
    ensures InRange(recs, lo2, hi2)
  {
    hide Lt;
    forall r <- recs
      ensures AboveLow(lo2, r.key) && BelowHigh(r.key, hi2)
    {
      if lo2 != lo && lo2.At? {
        LtTrans(lo2.key, lo.key, r.key);
        LtTrans(lo2.key, r.key, lo2.key);
      }
      if hi2 != hi && hi2.At? {
        LtTrans(r.key, hi.key, hi2.key);
        LtTrans(hi.key, hi2.key, hi2.key);
      }
    }
  }

  // ---- Descending to the child that holds a key ----

  /** The child whose bounds hold the key. */
  predicate Holds(ents: seq<Entry>, i: nat, key: Key) {
    && i < |ents|
    && (i > 0 ==> !Lt(key, ents[i].key))
    && (i + 1 < |ents| ==> Lt(key, ents[i + 1].key))
  }

  /** The leaves of a page around those of one child. */
  ghost predicate Around(s: Store, root: nat, before: seq<nat>, p: nat, after: seq<nat>)
    requires Shape(s) && root in s
  {
    && p in s
    && Leaves(s, root) == before + Leaves(s, p) + after
    && (forall l <- before + after :: l in s && s[l].Leaf?)
  }

  lemma AroundChild(s: Store, root: nat, before: seq<nat>, p: nat, after: seq<nat>, i: nat)
    requires Shape(s) && root in s && Around(s, root, before, p, after) && s[p].Internal? && i < |s[p].ents|
    ensures var ents, below := s[p].ents, s[p].level - 1;
            && Children(s, ents[..i], below) && Children(s, ents[i + 1..], below)
            && Around(s, root, before + LeavesOf(s, ents[..i], below), ents[i].pgno, LeavesOf(s, ents[i + 1..], below) + after)
  {
    hide LeavesOf, Leaves;
    InternalLeaves(s, p);
    var ents, below := s[p].ents, s[p].level - 1;
    assert ents == ents[..i] + [ents[i]] + ents[i + 1..];
    ThreeLeaves(s, ents[..i], [ents[i]], ents[i + 1..], below);
    LeavesOfOne(s, ents[i], below);
  }

  /** Everything before the subtree is below the key and everything behind it is above. */
  ghost predicate Between(s: Store, before: seq<nat>, after: seq<nat>, key: Key)
    requires forall l <- before + after :: l in s && s[l].Leaf?
  {
    && (forall r <- Recs(s, before) :: Lt(r.key, key))
    && (forall r <- Recs(s, after) :: Lt(key, r.key))
  }

  /** The keys to the left and to the right of the child that holds the key. */
  lemma HoldsBetween(s: Store, p: nat, i: nat, key: Key, lo: Bound, hi: Bound, recnum: bool)
    requires Shape(s) && p in s && s[p].Internal? && Good(s, p, lo, hi, recnum) && Holds(s[p].ents, i, key)
    ensures var ents, below := s[p].ents, s[p].level - 1;
            && Children(s, ents[..i], below) && Children(s, ents[i + 1..], below)
            && (forall r <- InOrderOf(s, ents[..i], below) :: Lt(r.key, key))
            && (forall r <- InOrderOf(s, ents[i + 1..], below) :: Lt(key, r.key))
  {
    hide Shape, Good, Leaves, LeavesOf, Lt, Recs, InOrderOf, GoodChild, Separators;
    GoodParts(s, p, lo, hi, recnum);
    var ents, below := s[p].ents, s[p].level - 1;
    if i > 0 {
      RangeOfFirst(s, ents, i, lo, hi, recnum, below);
      forall r <- InOrderOf(s, ents[..i], below)
        ensures Lt(r.key, key)
      {
        LtTrans(r.key, ents[i].key, key);
      }
    } else {
      NothingOf(s, ents[..i], below);
    }
    if i + 1 < |ents| {
      RangeOfRest(s, ents, i + 1, |ents|, lo, hi, recnum, below);
      assert ents[i + 1..|ents|] == ents[i + 1..];
      forall r <- InOrderOf(s, ents[i + 1..], below)
        ensures Lt(key, r.key)
      {
        LtTrans(key, ents[i + 1].key, r.key);
      }
    } else {
      NothingOf(s, ents[i + 1..], below);
    }
  }

  lemma NothingOf(s: Store, ents: seq<Entry>, below: nat)
    requires Shape(s) && ents == []
    ensures Children(s, ents, below) && InOrderOf(s, ents, below) == []
  {
  }

  /** A search for the key has come down to page `p`. */
  ghost predicate Reached(s: Store, root: nat, before: seq<nat>, p: nat, after: seq<nat>, key: Key,
                          lo: Bound, hi: Bound, recnum: bool)
    requires Shape(s) && root in s
  {
    && Around(s, root, before, p, after) && Between(s, before, after, key)
    && Good(s, p, lo, hi, recnum) && AboveLow(lo, key) && BelowHigh(key, hi)
  }

  /** One step of the descent. */
  lemma Descend(s: Store, root: nat, before: seq<nat>, p: nat, after: seq<nat>, i: nat, key: Key,
                lo: Bound, hi: Bound, recnum: bool) returns (b: seq<nat>, a: seq<nat>)
    requires Shape(s) && root in s && Reached(s, root, before, p, after, key, lo, hi, recnum)
    requires s[p].Internal? && Holds(s[p].ents, i, key)
    ensures s[p].ents[i].pgno in s && Level(s[s[p].ents[i].pgno]) == s[p].level - 1
    ensures Reached(s, root, b, s[p].ents[i].pgno, a, key, LowOf(s[p].ents, i, lo), HighOf(s[p].ents, i, hi), recnum)
    ensures (forall l <- before :: l in s && s[l].Leaf?) && (forall l <- b :: l in s && s[l].Leaf?)
    ensures recnum ==> Live(Recs(s, b)) == Live(Recs(s, before)) + Sum(s[p].ents[..i])
  {
    hide Shape, Good, Leaves, LeavesOf, Lt, Recs, Live, Sum;
    GoodParts(s, p, lo, hi, recnum);
    AroundChild(s, root, before, p, after, i);
    HoldsBetween(s, p, i, key, lo, hi, recnum);
    var ents, below := s[p].ents, s[p].level - 1;
    b, a := before + LeavesOf(s, ents[..i], below), LeavesOf(s, ents[i + 1..], below) + after;
    RecsAppend(s, before, LeavesOf(s, ents[..i], below));
    RecsAppend(s, LeavesOf(s, ents[i + 1..], below), after);
    assert GoodChild(s, ents, i, lo, hi, recnum, below);
    if recnum {
      SumOfFirst(s, ents, i, lo, hi, below);
      LiveAppend(Recs(s, before), InOrderOf(s, ents[..i], below));
    }
  }

  lemma SumOfFirst(s: Store, ents: seq<Entry>, i: nat, lo: Bound, hi: Bound, below: nat)
    requires Shape(s) && Children(s, ents, below) && i <= |ents|
    requires forall i :: 0 <= i < |ents| ==> GoodChild(s, ents, i, lo, hi, true, below)
    ensures Children(s, ents[..i], below) && Sum(ents[..i]) == Live(InOrderOf(s, ents[..i], below))
  {
    hide Shape, Good, Live, InOrder;
    var a := ents[..i];
    forall k | 0 <= k < |a|
      ensures a[k].nrecs == Live(InOrder(s, a[k].pgno))
    {
      assert GoodChild(s, ents, k, lo, hi, true, below);
    }
    SumIsLive(s, a, below);
  }

  /** The place found on a leaf is the place in the whole tree. */
  lemma PlaceInTree(s: Store, root: nat, before: seq<nat>, p: nat, after: seq<nat>, key: Key, last: bool,
                    indx: nat, exact: bool)
    requires Shape(s) && root in s && Around(s, root, before, p, after) && Between(s, before, after, key)
    requires s[p].Leaf? && Place(s[p].recs, key, last, indx, exact)
    ensures Place(InOrder(s, root), key, last, |Recs(s, before)| + indx, exact)
    ensures InOrder(s, root) == Recs(s, before) + s[p].recs + Recs(s, after)
  {
    hide Lt, Shape, Recs;
    RecsAppend(s, before + [p], after);
    RecsAppend(s, before, [p]);
    RecsOne(s, p);
    assert Leaves(s, p) == [p];
    var b, m, a := Recs(s, before), s[p].recs, Recs(s, after);
    PlaceBetween(b, m, a, key, last, indx, exact);
  }

  lemma PlaceBetween(b: seq<Rec>, m: seq<Rec>, a: seq<Rec>, key: Key, last: bool, indx: nat, exact: bool)
    requires Place(m, key, last, indx, exact)
    requires (forall r <- b :: Lt(r.key, key)) && (forall r <- a :: Lt(key, r.key))
    ensures Place(b + m + a, key, last, |b| + indx, exact)
  {
    hide Lt;
    var flat := b + m + a;
    assert forall i :: 0 <= i < |b| ==> flat[i] == b[i] && b[i] in b;
    assert forall i :: |b| <= i < |b| + |m| ==> flat[i] == m[i - |b|];
    assert forall i :: |b| + |m| <= i < |flat| ==> flat[i] == a[i - |b| - |m|] && a[i - |b| - |m|] in a;
  }
}
