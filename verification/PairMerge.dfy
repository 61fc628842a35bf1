/** Order of key/data pairs (__db_compare_both, db4/db/db_sort_multiple.c) and the plain
    sequence operations that the merges over compressed chunks stand for. */
module PairMerge {
  import opened Bytes
  import opened Chunks

  /** Key order, then data order in databases with sorted duplicates. */
  function CompareBoth(dup: bool, a: Pair, b: Pair): int {
    var c := Compare(a.key, b.key);
    if c != 0 || !dup then c else Compare(a.data, b.data)
  }

  predicate Less(dup: bool, a: Pair, b: Pair) {
    CompareBoth(dup, a, b) < 0
  }

  predicate Same(dup: bool, a: Pair, b: Pair) {
    CompareBoth(dup, a, b) == 0
  }

  predicate Sorted(dup: bool, ps: seq<Pair>) {
    forall i, j :: 0 <= i < j < |ps| ==> Less(dup, ps[i], ps[j])
  }

  predicate WeaklySorted(dup: bool, ps: seq<Pair>) {
    forall i, j :: 0 <= i < j < |ps| ==> !Less(dup, ps[j], ps[i])
  }

  /** Every pair of ps lies below p. */
  predicate Below(dup: bool, ps: seq<Pair>, p: Pair) {
    forall i :: 0 <= i < |ps| ==> Less(dup, ps[i], p)
  }

  /** Every pair of ps lies above p. */
  predicate Above(dup: bool, p: Pair, ps: seq<Pair>) {
    forall i :: 0 <= i < |ps| ==> Less(dup, p, ps[i])
  }

  /** Keys are compared first, and data only in databases with sorted duplicates. */
  lemma LessIsDictionaryOrder(dup: bool, a: Pair, b: Pair)
    ensures Less(dup, a, b) <==> DictLess(a.key, b.key) || (a.key == b.key && dup && DictLess(a.data, b.data))
    ensures a.key != b.key || (dup && a.data != b.data) ==> (Less(dup, a, b) <==> !Less(dup, b, a))
  {
    hide Compare, DictLess;
    CompareIsDictionaryOrder(a.key, b.key);
    CompareIsDictionaryOrder(a.data, b.data);
    CompareIsDictionaryOrder(b.key, a.key);
    CompareIsDictionaryOrder(b.data, a.data);
  }

  lemma OrderFacts(dup: bool, a: Pair, b: Pair)
    ensures Less(dup, a, b) || Same(dup, a, b) || Less(dup, b, a)
    ensures Less(dup, a, b) ==> !Same(dup, a, b) && !Less(dup, b, a)
    ensures Less(dup, b, a) ==> !Same(dup, a, b)
    ensures Same(dup, a, b) <==> Same(dup, b, a)
    ensures Same(dup, a, b) <==> a.key == b.key && (dup ==> a.data == b.data)
  {
    CompareIsDictionaryOrder(a.key, b.key);
    CompareIsDictionaryOrder(a.data, b.data);
    CompareIsDictionaryOrder(b.key, a.key);
    CompareIsDictionaryOrder(b.data, a.data);
  }

  /** Weak chains compose, and one strict link makes the whole strict. */
  lemma OrderTransitive(dup: bool, a: Pair, b: Pair, c: Pair)
    requires !Less(dup, b, a) && !Less(dup, c, b)
    ensures !Less(dup, c, a)
    ensures Less(dup, a, b) || Less(dup, b, c) ==> Less(dup, a, c)
    ensures Same(dup, a, b) && Same(dup, b, c) ==> Same(dup, a, c)
  {
    hide Compare;
    OrderFacts(dup, a, b);
    OrderFacts(dup, b, c);
    OrderFacts(dup, a, c);
    CompareIsDictionaryOrder(a.key, b.key);
    CompareIsDictionaryOrder(b.key, c.key);
    CompareTransitive(a.key, b.key, c.key);
    if dup && a.key == b.key == c.key {
      CompareIsDictionaryOrder(a.data, b.data);
      CompareIsDictionaryOrder(b.data, c.data);
      CompareTransitive(a.data, b.data, c.data);
    }
  }

  lemma BelowSmaller(dup: bool, ps: seq<Pair>, p: Pair, q: Pair)
    requires Below(dup, ps, p) && !Less(dup, q, p)
    ensures Below(dup, ps, q)
  {
    hide Less, Same;
    forall i | 0 <= i < |ps| ensures Less(dup, ps[i], q) {
      OrderFacts(dup, ps[i], p);
      OrderTransitive(dup, ps[i], p, q);
    }
  }

  lemma AboveLarger(dup: bool, p: Pair, q: Pair, ps: seq<Pair>)
    requires Above(dup, q, ps) && !Less(dup, q, p)
    ensures Above(dup, p, ps)
  {
    hide Less, Same;
    forall i | 0 <= i < |ps| ensures Less(dup, p, ps[i]) {
      OrderFacts(dup, q, ps[i]);
      OrderTransitive(dup, p, q, ps[i]);
    }
  }

  /** A sorted sequence cut in two around p. */
  lemma SortedAround(dup: bool, left: seq<Pair>, p: Pair, right: seq<Pair>)
    requires Sorted(dup, left + right) && Below(dup, left, p) && Above(dup, p, right)
    ensures Sorted(dup, left + [p] + right)
  {
    hide Less;
    var all, was := left + [p] + right, left + right;
    forall i, j | 0 <= i < j < |all| ensures Less(dup, all[i], all[j]) {
      var i' := if i <= |left| then i else i - 1;
      var j' := if j < |left| then j else j - 1;
      if i != |left| && j != |left| {
        assert all[i] == was[i'] && all[j] == was[j'];
      }
    }
  }

  lemma SortedParts(dup: bool, left: seq<Pair>, right: seq<Pair>)
    requires Sorted(dup, left + right)
    ensures Sorted(dup, left) && Sorted(dup, right)
    ensures right != [] ==> Below(dup, left, right[0]) && Above(dup, right[0], right[1..])
    ensures left != [] ==> Above(dup, left[|left| - 1], right)
  {
    hide Less;
    var all := left + right;
    assert forall i :: 0 <= i < |left| ==> left[i] == all[i];
    assert forall i :: 0 <= i < |right| ==> right[i] == all[|left| + i];
  }

  // ---------------------------------------------------------------- inserting

  /** The stream after its leading run of pairs that compare equal to p. */
  function SkipSame(dup: bool, p: Pair, st: seq<Pair>): (r: seq<Pair>)
    ensures |r| <= |st|
  {
    if st != [] && Same(dup, st[0], p) then SkipSame(dup, p, st[1..]) else st
  }

  /** Sorted merge of the stream st into the stored pairs cs: of a run of equal stream
      pairs the first is taken; it replaces an equal stored pair, unless stop is set,
      when the merge ends at the first such collision. */
  function Merge(dup: bool, stop: bool, cs: seq<Pair>, st: seq<Pair>): seq<Pair>
    decreases |cs| + |st|
  {
    if st == [] then cs
    else
      var rest := SkipSame(dup, st[0], st[1..]);
      if cs == [] || Less(dup, st[0], cs[0]) then [st[0]] + Merge(dup, stop, cs, rest)
      else if Less(dup, cs[0], st[0]) then [cs[0]] + Merge(dup, stop, cs[1..], st)
      else if stop then cs
      else [st[0]] + Merge(dup, stop, cs[1..], rest)
  }

  /** Whether some stream pair is already stored. */
  predicate Collides(dup: bool, cs: seq<Pair>, st: seq<Pair>) {
    exists i, j :: 0 <= i < |cs| && 0 <= j < |st| && Same(dup, cs[i], st[j])
  }

  /** The state of a merge under way: pairs already placed, stored pairs and stream pairs
      still to be looked at, and the result all this is to lead to. */
  ghost predicate Merging(dup: bool, stop: bool, left: seq<Pair>, right: seq<Pair>, st: seq<Pair>, goal: seq<Pair>) {
    && Sorted(dup, left + right)
    && WeaklySorted(dup, st)
    && (st != [] ==> Below(dup, left, st[0]))
    && goal == left + Merge(dup, stop, right, st)
  }

  lemma BelowAll(dup: bool, ps: seq<Pair>, st: seq<Pair>)
    requires WeaklySorted(dup, st) && st != [] && Below(dup, ps, st[0])
    ensures forall j :: 0 <= j < |st| ==> Below(dup, ps, st[j])
    ensures forall i, j :: 0 <= i < |ps| && 0 <= j < |st| ==> !Same(dup, ps[i], st[j])
  {
    hide Less, Same;
    forall j | 0 <= j < |st| ensures Below(dup, ps, st[j]) {
      OrderFacts(dup, st[0], st[j]);
      BelowSmaller(dup, ps, st[0], st[j]);
    }
    forall i, j | 0 <= i < |ps| && 0 <= j < |st| ensures !Same(dup, ps[i], st[j]) {
      assert Below(dup, ps, st[j]);
      OrderFacts(dup, ps[i], st[j]);
    }
  }

  /** Pairs below the whole stream collide with nothing. */
  lemma CollidesBeyond(dup: bool, left: seq<Pair>, right: seq<Pair>, st: seq<Pair>)
    requires WeaklySorted(dup, st) && (st != [] ==> Below(dup, left, st[0]))
    ensures Collides(dup, left + right, st) <==> Collides(dup, right, st)
  {
    hide Less, Same;
    var all := left + right;
    if st != [] {
      BelowAll(dup, left, st);
    }
    if Collides(dup, all, st) {
      var i, j :| 0 <= i < |all| && 0 <= j < |st| && Same(dup, all[i], st[j]);
      assert i >= |left| && Same(dup, right[i - |left|], st[j]);
    }
    if Collides(dup, right, st) {
      var i, j :| 0 <= i < |right| && 0 <= j < |st| && Same(dup, right[i], st[j]);
      assert Same(dup, all[|left| + i], st[j]);
    }
  }

  /** A stream pair below all stored pairs, and the run it leads, collide with nothing. */
  lemma CollidesAfterTaking(dup: bool, right: seq<Pair>, st: seq<Pair>)
    requires Sorted(dup, right) && WeaklySorted(dup, st) && st != []
    requires right == [] || Less(dup, st[0], right[0])
    ensures Collides(dup, right, st) <==> Collides(dup, right, SkipSame(dup, st[0], st[1..]))
  {
    hide Less, Same, SkipSame;
    var k := RunShape(dup, st);
    if Collides(dup, right, st) {
      var i, j :| 0 <= i < |right| && 0 <= j < |st| && Same(dup, right[i], st[j]);
      if right != [] {
        OrderFacts(dup, st[0], right[0]);
      }
      StoredAbove(dup, right, st[0], right[i]);
      OrderFacts(dup, right[i], st[j]);
      if j < k {
        SameTransfers(dup, st[j], st[0], right[i]);
      }
      assert j >= k && Same(dup, right[i], st[k..][j - k]);
    }
    if Collides(dup, right, st[k..]) {
      var i, j :| 0 <= i < |right| && 0 <= j < |st[k..]| && Same(dup, right[i], st[k..][j]);
      assert Same(dup, right[i], st[j + k]);
    }
  }

  /** Skipping removes a prefix of pairs like p, and stops at the first other pair. */
  lemma {:induction false} SkipSameSuffix(dup: bool, p: Pair, st: seq<Pair>) returns (k: nat)
    ensures k <= |st| && SkipSame(dup, p, st) == st[k..]
    ensures forall i :: 0 <= i < k ==> Same(dup, st[i], p)
    ensures k < |st| ==> !Same(dup, st[k], p)
  {
    hide Same;
    if st != [] && Same(dup, st[0], p) {
      var j := SkipSameSuffix(dup, p, st[1..]);
      k := j + 1;
      forall i | 0 <= i < k ensures Same(dup, st[i], p) {
        assert i > 0 ==> st[i] == st[1..][i - 1];
      }
    } else {
      k := 0;
    }
  }

  lemma SkipSameFacts(dup: bool, p: Pair, st: seq<Pair>)
    requires WeaklySorted(dup, [p] + st)
    ensures var rest := SkipSame(dup, p, st);
            rest == st[|st| - |rest|..] && WeaklySorted(dup, rest) &&
            (rest != [] ==> Less(dup, p, rest[0])) &&
            forall i :: 0 <= i < |st| - |rest| ==> Same(dup, st[i], p)
  {
    hide Less, Same, SkipSame;
    var k := SkipSameSuffix(dup, p, st);
    var ext := [p] + st;
    assert forall i :: 0 <= i < |st| ==> ext[i + 1] == st[i];
    if k < |st| {
      assert !Less(dup, ext[k + 1], ext[0]);
      OrderFacts(dup, p, st[k]);
      OrderFacts(dup, st[k], p);
    }
  }

  lemma MergeKeeps(dup: bool, stop: bool, cs: seq<Pair>, st: seq<Pair>)
    requires cs != [] && (st == [] || Less(dup, cs[0], st[0]))
    ensures Merge(dup, stop, cs, st) == [cs[0]] + Merge(dup, stop, cs[1..], st)
  {
    hide Less;
    if st != [] {
      OrderFacts(dup, cs[0], st[0]);
    }
  }

  /** Keeping the next stored pair. */
  lemma KeepStored(dup: bool, stop: bool, left: seq<Pair>, right: seq<Pair>, st: seq<Pair>, goal: seq<Pair>)
    requires Merging(dup, stop, left, right, st, goal) && right != []
    requires st == [] || Less(dup, right[0], st[0])
    ensures Merging(dup, stop, left + [right[0]], right[1..], st, goal)
  {
    hide Less, Same, Merge, Sorted, WeaklySorted;
    var r := right[0];
    MergeKeeps(dup, stop, right, st);
    assert left + [r] + right[1..] == left + right;
    assert left + [r] + Merge(dup, stop, right[1..], st) == left + ([r] + Merge(dup, stop, right[1..], st));
  }

  lemma {:induction false} MergeNothing(dup: bool, stop: bool, cs: seq<Pair>)
    ensures Merge(dup, stop, cs, []) == cs
  {
  }

  /** Putting p between two parts of a sorted sequence, over an equal pair if there is one. */
  lemma Insertion(dup: bool, left: seq<Pair>, p: Pair, right: seq<Pair>, over: bool)
    requires Sorted(dup, left + right) && Below(dup, left, p)
    requires if over then right != [] && Same(dup, right[0], p) else right == [] || Less(dup, p, right[0])
    ensures Sorted(dup, left + [p] + if over then right[1..] else right)
  {
    hide Less, Same;
    SortedParts(dup, left, right);
    var after := if over then right[1..] else right;
    if right != [] {
      OrderFacts(dup, right[0], p);
      AboveLarger(dup, p, right[0], right[1..]);
      assert forall i :: 1 <= i < |right| ==> right[i] == right[1..][i - 1];
    }
    if over {
      assert left + right == left + [right[0]] + after;
      SortedWithout(dup, left, right[0], after);
    }
    SortedAround(dup, left, p, after);
  }

  lemma SortedWithout(dup: bool, left: seq<Pair>, p: Pair, right: seq<Pair>)
    requires Sorted(dup, left + [p] + right)
    ensures Sorted(dup, left + right)
  {
    hide Less;
    var was, now := left + [p] + right, left + right;
    assert forall i :: 0 <= i < |now| ==> now[i] == was[if i < |left| then i else i + 1];
  }

  lemma MergeTakes(dup: bool, stop: bool, cs: seq<Pair>, st: seq<Pair>, over: bool)
    requires st != []
    requires if over then !stop && cs != [] && Same(dup, cs[0], st[0])
             else cs == [] || Less(dup, st[0], cs[0])
    ensures Merge(dup, stop, cs, st)
            == [st[0]] + Merge(dup, stop, if over then cs[1..] else cs, SkipSame(dup, st[0], st[1..]))
  {
    hide Less, Same, SkipSame;
    if cs != [] {
      OrderFacts(dup, cs[0], st[0]);
    }
  }

  lemma StreamAfter(dup: bool, left: seq<Pair>, st: seq<Pair>)
    requires st != [] && WeaklySorted(dup, st) && Below(dup, left, st[0])
    ensures var rest := SkipSame(dup, st[0], st[1..]);
            WeaklySorted(dup, rest) && (rest != [] ==> Below(dup, left + [st[0]], rest[0]))
  {
    hide Less, Same, SkipSame, WeaklySorted;
    assert [st[0]] + st[1..] == st;
    SkipSameFacts(dup, st[0], st[1..]);
    var rest := SkipSame(dup, st[0], st[1..]);
    if rest != [] {
      OrderFacts(dup, st[0], rest[0]);
      BelowSmaller(dup, left, st[0], rest[0]);
    }
  }

  /** Placing the next stream pair, in front of the stored pairs or over an equal one. */
  lemma TakeStream(dup: bool, stop: bool, left: seq<Pair>, right: seq<Pair>, st: seq<Pair>, goal: seq<Pair>, over: bool)
    requires Merging(dup, stop, left, right, st, goal) && st != []
    requires if over then !stop && right != [] && Same(dup, right[0], st[0])
             else right == [] || Less(dup, st[0], right[0])
    ensures Merging(dup, stop, left + [st[0]], if over then right[1..] else right,
                    SkipSame(dup, st[0], st[1..]), goal)
  {
    hide Less, Same, Merge, SkipSame, Sorted, WeaklySorted;
    var p := st[0];
    var after := if over then right[1..] else right;
    var rest := SkipSame(dup, p, st[1..]);
    MergeTakes(dup, stop, right, st, over);
    Insertion(dup, left, p, right, over);
    StreamAfter(dup, left, st);
    assert left + [p] + Merge(dup, stop, after, rest) == left + ([p] + Merge(dup, stop, after, rest));
  }

  /** A collision where overwriting is not allowed ends the merge: the rest of the stream
      might as well be empty. */
  lemma StopAtCollision(dup: bool, left: seq<Pair>, right: seq<Pair>, st: seq<Pair>, goal: seq<Pair>)
    requires Merging(dup, true, left, right, st, goal)
    requires st != [] && right != [] && Same(dup, right[0], st[0])
    ensures Merging(dup, true, left, right, [], goal)
  {
    OrderFacts(dup, right[0], st[0]);
  }

  /** Stored pairs below the whole stream stay in front of the merge. */
  lemma {:induction false} MergeSkips(dup: bool, stop: bool, left: seq<Pair>, right: seq<Pair>, st: seq<Pair>)
    requires st != [] ==> Below(dup, left, st[0])
    ensures Merge(dup, stop, left + right, st) == left + Merge(dup, stop, right, st)
  {
    hide Less, Merge;
    if left == [] {
      assert left + right == right;
    } else {
      MergeSkips(dup, stop, left[1..], right, st);
      var all := left + right;
      assert all[1..] == left[1..] + right && all[0] == left[0];
      MergeKeeps(dup, stop, all, st);
      assert [left[0]] + (left[1..] + Merge(dup, stop, right, st)) == left + Merge(dup, stop, right, st);
    }
  }

  /** Moving the boundary between placed and pending pairs does not change the goal. */
  lemma Resplit(dup: bool, stop: bool, left: seq<Pair>, right: seq<Pair>, left': seq<Pair>, right': seq<Pair>,
                st: seq<Pair>, goal: seq<Pair>)
    requires Merging(dup, stop, left, right, st, goal)
    requires left + right == left' + right' && (st != [] ==> Below(dup, left', st[0]))
    ensures Merging(dup, stop, left', right', st, goal)
  {
    hide Merge, Less;
    MergeSkips(dup, stop, left, right, st);
    MergeSkips(dup, stop, left', right', st);
  }

  /** The merge of a sorted database and a sorted stream is sorted. */
  lemma {:induction false} MergeSorted(dup: bool, stop: bool, cs: seq<Pair>, st: seq<Pair>)
    requires Sorted(dup, cs) && WeaklySorted(dup, st)
    ensures Sorted(dup, Merge(dup, stop, cs, st))
  {
    assert [] + cs == cs && [] + Merge(dup, stop, cs, st) == Merge(dup, stop, cs, st);
    MergingSorted(dup, stop, [], cs, st, Merge(dup, stop, cs, st));
  }

  lemma {:induction false} MergingSorted(dup: bool, stop: bool, left: seq<Pair>, right: seq<Pair>, st: seq<Pair>, goal: seq<Pair>)
    requires Merging(dup, stop, left, right, st, goal)
    ensures Sorted(dup, goal)
    decreases |right| + |st|
  {
    hide Less, Merge;
    if st == [] {
      MergeNothing(dup, stop, right);
    } else if right == [] || Less(dup, st[0], right[0]) {
      TakeStream(dup, stop, left, right, st, goal, false);
      MergingSorted(dup, stop, left + [st[0]], right, SkipSame(dup, st[0], st[1..]), goal);
    } else if Less(dup, right[0], st[0]) {
      KeepStored(dup, stop, left, right, st, goal);
      MergingSorted(dup, stop, left + [right[0]], right[1..], st, goal);
    } else {
      OrderFacts(dup, right[0], st[0]);
      if stop {
        StopAtCollision(dup, left, right, st, goal);
        MergeNothing(dup, stop, right);
      } else {
        TakeStream(dup, stop, left, right, st, goal, true);
        MergingSorted(dup, stop, left + [st[0]], right[1..], SkipSame(dup, st[0], st[1..]), goal);
      }
    }
  }

  /** Merging, together with what is known about the return code: hit says whether the
      whole merge meets a forbidden collision, bulk whether it has met it already. */
  ghost predicate Inserting(dup: bool, stop: bool, left: seq<Pair>, right: seq<Pair>, st: seq<Pair>, goal: seq<Pair>,
                            hit: bool, bulk: bool) {
    && Merging(dup, stop, left, right, st, goal)
    && (stop ==> (hit <==> bulk || Collides(dup, right, st)))
    && (!stop ==> !bulk)
  }

  lemma InsertingKeeps(dup: bool, stop: bool, left: seq<Pair>, right: seq<Pair>, st: seq<Pair>, goal: seq<Pair>,
                       hit: bool, bulk: bool)
    requires Inserting(dup, stop, left, right, st, goal, hit, bulk) && right != []
    requires st == [] || Less(dup, right[0], st[0])
    ensures Inserting(dup, stop, left + [right[0]], right[1..], st, goal, hit, bulk)
  {
    KeepStored(dup, stop, left, right, st, goal);
    hide Less, Same, Collides, Sorted, Merge;
    assert [right[0]] + right[1..] == right;
    CollidesBeyond(dup, [right[0]], right[1..], st);
  }

  lemma InsertingTakes(dup: bool, stop: bool, left: seq<Pair>, right: seq<Pair>, st: seq<Pair>, goal: seq<Pair>,
                       hit: bool, bulk: bool, over: bool)
    requires Inserting(dup, stop, left, right, st, goal, hit, bulk) && st != []
    requires if over then !stop && right != [] && Same(dup, right[0], st[0])
             else right == [] || Less(dup, st[0], right[0])
    ensures Inserting(dup, stop, left + [st[0]], if over then right[1..] else right,
                      SkipSame(dup, st[0], st[1..]), goal, hit, bulk)
  {
    TakeStream(dup, stop, left, right, st, goal, over);
    hide Less, Same, Collides, Merge, SkipSame;
    SortedParts(dup, left, right);
    if !over {
      CollidesAfterTaking(dup, right, st);
    }
  }

  lemma InsertingStops(dup: bool, left: seq<Pair>, right: seq<Pair>, st: seq<Pair>, goal: seq<Pair>, hit: bool, bulk: bool)
    requires Inserting(dup, true, left, right, st, goal, hit, bulk)
    requires st != [] && right != [] && Same(dup, right[0], st[0])
    ensures Inserting(dup, true, left, right, [], goal, hit, true)
  {
    StopAtCollision(dup, left, right, st, goal);
    assert Collides(dup, right, st);
  }

  lemma InsertingResplit(dup: bool, stop: bool, left: seq<Pair>, right: seq<Pair>, left': seq<Pair>, right': seq<Pair>,
                         st: seq<Pair>, goal: seq<Pair>, hit: bool, bulk: bool)
    requires Inserting(dup, stop, left, right, st, goal, hit, bulk)
    requires left + right == left' + right' && (st != [] ==> Below(dup, left', st[0]))
    ensures Inserting(dup, stop, left', right', st, goal, hit, bulk)
  {
    Resplit(dup, stop, left, right, left', right', st, goal);
    hide Less, Same, Collides, Merge, Sorted;
    CollidesBeyond(dup, left, right, st);
    CollidesBeyond(dup, left', right', st);
  }

  // ---------------------------------------------------------------- what a merge contains

  /** x leads a run of equal pairs in the stream. */
  predicate LeadsRun(dup: bool, st: seq<Pair>, x: Pair) {
    exists i :: 0 <= i < |st| && st[i] == x && Unlike(dup, st[..i], x)
  }

  /** No pair of ps compares equal to x. */
  predicate Unlike(dup: bool, ps: seq<Pair>, x: Pair) {
    forall i :: 0 <= i < |ps| ==> !Same(dup, ps[i], x)
  }

  /** The leading run of the stream, of length k, and what comes after it. */
  lemma RunShape(dup: bool, st: seq<Pair>) returns (k: nat)
    requires WeaklySorted(dup, st) && st != []
    ensures 0 < k <= |st| && st[k..] == SkipSame(dup, st[0], st[1..]) && WeaklySorted(dup, st[k..])
    ensures forall i :: 0 <= i < k ==> Same(dup, st[i], st[0])
    ensures forall i :: k <= i < |st| ==> Less(dup, st[0], st[i])
  {
    hide Less, Same, SkipSame;
    assert [st[0]] + st[1..] == st;
    SkipSameFacts(dup, st[0], st[1..]);
    var rest := SkipSame(dup, st[0], st[1..]);
    k := |st| - |rest|;
    OrderFacts(dup, st[0], st[0]);
    assert forall i :: 1 <= i < k ==> st[i] == st[1..][i - 1];
    forall i | k <= i < |st| ensures Less(dup, st[0], st[i]) {
      assert rest[0] == st[k];
      OrderFacts(dup, st[0], st[k]);
      OrderFacts(dup, st[k], st[k]);
      OrderTransitive(dup, st[0], st[k], st[i]);
    }
  }

  lemma RunUnlike(dup: bool, st: seq<Pair>, k: nat, x: Pair)
    requires 0 < k <= |st| && forall i :: 0 <= i < k ==> Same(dup, st[i], st[0])
    ensures Unlike(dup, st, x) <==> !Same(dup, st[0], x) && Unlike(dup, st[k..], x)
  {
    hide Less, Same;
    forall i | 0 <= i < k ensures Same(dup, st[i], x) <==> Same(dup, st[0], x) {
      SameTransfers(dup, st[i], st[0], x);
    }
    assert forall i :: 0 <= i < |st| - k ==> st[k..][i] == st[i + k];
    assert forall i :: k <= i < |st| ==> st[i] == st[k..][i - k];
  }

  lemma RunStep(dup: bool, st: seq<Pair>, x: Pair)
    requires WeaklySorted(dup, st) && st != []
    ensures var rest := SkipSame(dup, st[0], st[1..]);
            (LeadsRun(dup, st, x) <==> x == st[0] || LeadsRun(dup, rest, x)) &&
            (Unlike(dup, st, x) <==> !Same(dup, st[0], x) && Unlike(dup, rest, x))
  {
    hide Less, Same, SkipSame, WeaklySorted, Unlike;
    var k := RunShape(dup, st);
    RunUnlike(dup, st, k, x);
    RunLeaders(dup, st, k, x);
  }

  lemma RunLeaders(dup: bool, st: seq<Pair>, k: nat, x: Pair)
    requires 0 < k <= |st| && forall i :: 0 <= i < k ==> Same(dup, st[i], st[0])
    requires forall i :: k <= i < |st| ==> Less(dup, st[0], st[i])
    ensures LeadsRun(dup, st, x) <==> x == st[0] || LeadsRun(dup, st[k..], x)
  {
    hide Less, Same, Unlike;
    if LeadsRun(dup, st, x) {
      var i :| 0 <= i < |st| && st[i] == x && Unlike(dup, st[..i], x);
      if i > 0 {
        LaterLeader(dup, st, k, i);
        assert st[k..][i - k] == x;
      }
    }
    if x == st[0] {
      assert st[..0] == [];
      EmptyStream(dup, x);
    } else if LeadsRun(dup, st[k..], x) {
      var i :| 0 <= i < |st[k..]| && st[k..][i] == x && Unlike(dup, st[k..][..i], x);
      OrderFacts(dup, st[0], st[k + i]);
      assert st[..k + i][k..] == st[k..][..i];
      RunUnlike(dup, st[..k + i], k, x);
    }
  }

  lemma LaterLeader(dup: bool, st: seq<Pair>, k: nat, i: nat)
    requires 0 < k <= |st| && 0 < i < |st| && Unlike(dup, st[..i], st[i])
    requires forall j :: 0 <= j < k ==> Same(dup, st[j], st[0])
    ensures i >= k && Unlike(dup, st[k..][..i - k], st[k..][i - k])
  {
    hide Less, Same;
    assert st[..i][0] == st[0];
    OrderFacts(dup, st[0], st[i]);
    var rest := st[k..][..i - k];
    assert rest == st[..i][k..];
    forall j | 0 <= j < |rest| ensures !Same(dup, rest[j], st[i]) {
      assert rest[j] == st[..i][j + k];
    }
  }

  lemma SameTransfers(dup: bool, a: Pair, b: Pair, x: Pair)
    requires Same(dup, a, b)
    ensures Same(dup, a, x) <==> Same(dup, b, x)
  {
    OrderFacts(dup, a, b);
    OrderFacts(dup, a, x);
    OrderFacts(dup, b, x);
  }

  /** What an overwriting merge holds: the leader of every run of equal stream pairs, and
      every stored pair that no stream pair equals. Together with MergeSorted this fixes
      the result completely. */
  lemma {:induction false} MergeMembers(dup: bool, cs: seq<Pair>, st: seq<Pair>, x: Pair)
    requires Sorted(dup, cs) && WeaklySorted(dup, st)
    ensures x in Merge(dup, false, cs, st) <==> LeadsRun(dup, st, x) || (x in cs && Unlike(dup, st, x))
    decreases |cs| + |st|
  {
    hide Less, Same, SkipSame, LeadsRun, Unlike, Merge, Sorted, WeaklySorted;
    if st == [] {
      EmptyStream(dup, x);
      MergeNothing(dup, false, cs);
    } else {
      RunStep(dup, st, x);
      var k := RunShape(dup, st);
      var rest := st[k..];
      if cs != [] {
        assert cs == [cs[0]] + cs[1..];
        SortedParts(dup, [cs[0]], cs[1..]);
      }
      if cs == [] || Less(dup, st[0], cs[0]) {
        MergeTakes(dup, false, cs, st, false);
        MergeMembers(dup, cs, rest, x);
        if x in cs {
          StoredAbove(dup, cs, st[0], x);
        }
      } else if Less(dup, cs[0], st[0]) {
        MergeKeeps(dup, false, cs, st);
        MergeMembers(dup, cs[1..], st, x);
        if x == cs[0] {
          StreamAbove(dup, st, x);
        }
      } else {
        OrderFacts(dup, cs[0], st[0]);
        MergeTakes(dup, false, cs, st, true);
        MergeMembers(dup, cs[1..], rest, x);
        ReplacedOnly(dup, cs, st[0], x);
      }
    }
  }

  lemma EmptyStream(dup: bool, x: Pair)
    ensures !LeadsRun(dup, [], x) && Unlike(dup, [], x)
  {
  }

  lemma StoredAbove(dup: bool, cs: seq<Pair>, p: Pair, x: Pair)
    requires Sorted(dup, cs) && cs != [] && Less(dup, p, cs[0]) && x in cs
    ensures !Same(dup, p, x)
  {
    var i :| 0 <= i < |cs| && cs[i] == x;
    OrderFacts(dup, p, cs[0]);
    OrderFacts(dup, cs[0], x);
    hide Less, Same;
    if i > 0 {
      assert Less(dup, cs[0], cs[i]);
      OrderTransitive(dup, p, cs[0], x);
    }
    OrderFacts(dup, p, x);
  }

  lemma StreamAbove(dup: bool, st: seq<Pair>, x: Pair)
    requires WeaklySorted(dup, st) && st != [] && Less(dup, x, st[0])
    ensures Unlike(dup, st, x) && !LeadsRun(dup, st, x)
  {
    BelowAll(dup, [x], st);
    hide Less;
    forall i | 0 <= i < |st| ensures !Same(dup, st[i], x) {
      assert !Same(dup, [x][0], st[i]);
      OrderFacts(dup, x, st[i]);
    }
    OrderFacts(dup, x, x);
  }

  lemma ReplacedOnly(dup: bool, cs: seq<Pair>, p: Pair, x: Pair)
    requires Sorted(dup, cs) && cs != [] && Same(dup, cs[0], p)
    ensures x in cs && !Same(dup, p, x) <==> x in cs[1..]
  {
    hide Less;
    OrderFacts(dup, cs[0], p);
    SameTransfers(dup, cs[0], p, x);
    OrderFacts(dup, cs[0], cs[0]);
    if x in cs[1..] {
      var i :| 0 <= i < |cs[1..]| && cs[1..][i] == x;
      assert Less(dup, cs[0], cs[i + 1]);
      OrderFacts(dup, cs[0], x);
    }
  }

  lemma SkipSamePrefix(dup: bool, p: Pair, st: seq<Pair>, k: nat)
    requires |st| - |SkipSame(dup, p, st)| <= k <= |st|
    ensures SkipSame(dup, p, st[..k]) == st[|st| - |SkipSame(dup, p, st)|..k]
  {
    hide Same, SkipSame;
    var i := SkipSameSuffix(dup, p, st);
    var j := SkipSameSuffix(dup, p, st[..k]);
    assert forall m :: 0 <= m < k ==> st[..k][m] == st[m];
    assert st[..k][i..] == st[i..k];
  }

  /** Cutting the stream somewhere after its leading run cuts what follows the run. */
  lemma CutAfterRun(dup: bool, st: seq<Pair>, j: nat) returns (k: nat)
    requires st != [] && j <= |SkipSame(dup, st[0], st[1..])|
    ensures k == |st| - |SkipSame(dup, st[0], st[1..])| + j && 0 < k <= |st|
    ensures st[..k] != [] && st[..k][0] == st[0]
    ensures SkipSame(dup, st[..k][0], st[..k][1..]) == SkipSame(dup, st[0], st[1..])[..j]
    ensures j < |SkipSame(dup, st[0], st[1..])| ==> k < |st| && st[k] == SkipSame(dup, st[0], st[1..])[j]
  {
    hide Same, SkipSame;
    var rest := SkipSame(dup, st[0], st[1..]);
    k := |st| - |rest| + j;
    var skipped := SkipSameSuffix(dup, st[0], st[1..]);
    SkipSamePrefix(dup, st[0], st[1..], k - 1);
    assert st[..k][1..] == st[1..][..k - 1];
    assert rest == st[1..][|st| - 1 - |rest|..];
  }

  /** Where sorted duplicates may not be overwritten, the merge is the overwriting merge of
      the stream up to its first collision. */
  lemma {:induction false} StopsAtFirstCollision(dup: bool, cs: seq<Pair>, st: seq<Pair>) returns (k: nat)
    requires Sorted(dup, cs) && WeaklySorted(dup, st)
    ensures k <= |st| && !Collides(dup, cs, st[..k])
    ensures k < |st| ==> Collides(dup, cs, [st[k]])
    ensures Merge(dup, true, cs, st) == Merge(dup, false, cs, st[..k])
    decreases |cs| + |st|
  {
    hide Less, Same, SkipSame, Merge, WeaklySorted, Sorted, Collides;
    if st == [] {
      k := 0;
      MergeNothing(dup, true, cs);
      MergeNothing(dup, false, cs);
      assert !Collides(dup, cs, []) by { NoCollision(dup, cs); }
    } else if cs == [] || Less(dup, st[0], cs[0]) {
      var m := RunShape(dup, st);
      var j := StopsAtFirstCollision(dup, cs, st[m..]);
      k := CutAfterRun(dup, st, j);
      MergeTakes(dup, true, cs, st, false);
      MergeTakes(dup, false, cs, st[..k], false);
      WeaklySortedPrefix(dup, st, k);
      CollidesAfterTaking(dup, cs, st[..k]);
    } else if Less(dup, cs[0], st[0]) {
      assert cs == [cs[0]] + cs[1..];
      SortedParts(dup, [cs[0]], cs[1..]);
      k := StopsAtFirstCollision(dup, cs[1..], st);
      MergeKeeps(dup, true, cs, st);
      assert st[..k] == [] || st[..k][0] == st[0];
      MergeKeeps(dup, false, cs, st[..k]);
      WeaklySortedPrefix(dup, st, k);
      CollidesBeyond(dup, [cs[0]], cs[1..], st[..k]);
      if k < |st| {
        CollidesInTail(dup, cs, st[k]);
      }
    } else {
      k := 0;
      OrderFacts(dup, cs[0], st[0]);
      MergeStops(dup, cs, st);
      assert st[..0] == [];
      MergeNothing(dup, false, cs);
      assert !Collides(dup, cs, []) by { NoCollision(dup, cs); }
    }
  }

  lemma NoCollision(dup: bool, cs: seq<Pair>)
    ensures !Collides(dup, cs, [])
  {
  }

  lemma MergeStops(dup: bool, cs: seq<Pair>, st: seq<Pair>)
    requires cs != [] && st != [] && Same(dup, cs[0], st[0])
    ensures Merge(dup, true, cs, st) == cs && Collides(dup, cs, [st[0]])
  {
    OrderFacts(dup, cs[0], st[0]);
    hide Less, Same;
    assert [st[0]][0] == st[0];
  }

  lemma WeaklySortedPrefix(dup: bool, st: seq<Pair>, k: nat)
    requires WeaklySorted(dup, st) && k <= |st|
    ensures WeaklySorted(dup, st[..k])
  {
  }

  /** A merge that must not overwrite loses no stored pair. */
  lemma NothingLost(dup: bool, cs: seq<Pair>, st: seq<Pair>, x: Pair)
    requires Sorted(dup, cs) && WeaklySorted(dup, st) && x in cs
    ensures x in Merge(dup, true, cs, st)
  {
    hide Same, Less, Merge;
    var k := StopsAtFirstCollision(dup, cs, st);
    MergeMembers(dup, cs, st[..k], x);
    var i :| 0 <= i < |cs| && cs[i] == x;
    forall j | 0 <= j < k ensures !Same(dup, st[..k][j], x) {
      OrderFacts(dup, st[..k][j], x);
      assert !Same(dup, cs[i], st[..k][j]);
    }
  }

  /** The first k stream pairs are new, and the next one is stored. */
  predicate NewUpTo(was: seq<Pair>, st: seq<Pair>, k: nat) {
    k <= |st| && (k < |st| ==> st[k] in was) && forall i :: 0 <= i < k ==> st[i] !in was
  }

  /** With sorted duplicates, a merge that must not overwrite adds the stream pairs up to the
      first one that is stored, and keeps everything stored. */
  lemma AddsUntilStored(was: seq<Pair>, st: seq<Pair>) returns (k: nat)
    requires Sorted(true, was) && WeaklySorted(true, st)
    ensures NewUpTo(was, st, k) && (k < |st| <==> Collides(true, was, st))
    ensures forall x :: x in Merge(true, true, was, st) <==> x in was || x in st[..k]
  {
    hide Less, Same, Merge, Sorted, WeaklySorted, LeadsRun, Unlike, Collides;
    k := StopsAtFirstCollision(true, was, st);
    SharedPair(was, st[..k]);
    SharedPair(was, st);
    if k < |st| {
      SharedPair(was, [st[k]]);
    }
    WeaklySortedPrefix(true, st, k);
    forall x
      ensures x in Merge(true, true, was, st) <==> x in was || x in st[..k]
    {
      MergeMembers(true, was, st[..k], x);
      Likeness(st[..k], x);
    }
  }

  lemma SharedPair(was: seq<Pair>, st: seq<Pair>)
    ensures Collides(true, was, st) <==> exists p :: p in was && p in st
  {
    hide Same;
    forall i, j | 0 <= i < |was| && 0 <= j < |st|
      ensures Same(true, was[i], st[j]) <==> was[i] == st[j]
    {
      OrderFacts(true, was[i], st[j]);
    }
    if Collides(true, was, st) {
      var i, j :| 0 <= i < |was| && 0 <= j < |st| && Same(true, was[i], st[j]);
      assert was[i] in was && was[i] in st;
    }
  }

  /** With sorted duplicates, pairs are alike only when they are equal. */
  lemma Likeness(st: seq<Pair>, x: Pair)
    ensures Unlike(true, st, x) <==> x !in st
    ensures LeadsRun(true, st, x) <==> x in st
  {
    hide Same;
    forall i | 0 <= i < |st|
      ensures Same(true, st[i], x) <==> st[i] == x
    {
      OrderFacts(true, st[i], x);
    }
    if x in st {
      var k := FirstAt(st, x);
    }
  }

  lemma FirstAt(st: seq<Pair>, x: Pair) returns (k: nat)
    requires x in st
    ensures k < |st| && st[k] == x && Unlike(true, st[..k], x)
  {
    hide Same;
    k := 0;
    while st[k] != x
      invariant k < |st| && x !in st[..k]
      decreases |st| - k
    {
      k := k + 1;
    }
    forall i | 0 <= i < k
      ensures !Same(true, st[..k][i], x)
    {
      OrderFacts(true, st[..k][i], x);
    }
  }

  lemma CollidesInTail(dup: bool, cs: seq<Pair>, p: Pair)
    requires cs != [] && Collides(dup, cs[1..], [p])
    ensures Collides(dup, cs, [p])
  {
    var i, j :| 0 <= i < |cs[1..]| && 0 <= j < 1 && Same(dup, cs[1..][i], [p][j]);
    assert Same(dup, cs[i + 1], [p][0]);
  }

  // ---------------------------------------------------------------- deleting

  /** Deletes the stream's pairs from cs, up to the first that is not stored. */
  function Remove(dup: bool, cs: seq<Pair>, st: seq<Pair>): seq<Pair> {
    if st == [] || cs == [] then cs
    else if Less(dup, cs[0], st[0]) then [cs[0]] + Remove(dup, cs[1..], st)
    else if Same(dup, cs[0], st[0]) then Remove(dup, cs[1..], st[1..])
    else cs
  }

  /** A stream pair is not stored when its turn comes: it never was, or an equal pair was
      deleted just before. */
  predicate Missing(dup: bool, cs: seq<Pair>, st: seq<Pair>, j: nat)
    requires j < |st|
  {
    Unlike(dup, cs, st[j]) || !Unlike(dup, st[..j], st[j])
  }

  /** Whether some stream pair is not stored when its turn comes. */
  predicate Misses(dup: bool, cs: seq<Pair>, st: seq<Pair>) {
    exists j: nat :: j < |st| && Missing(dup, cs, st, j)
  }

  /** The state of a deletion under way. */
  ghost predicate Deleting(dup: bool, left: seq<Pair>, right: seq<Pair>, st: seq<Pair>, goal: seq<Pair>) {
    && Sorted(dup, left + right)
    && WeaklySorted(dup, st)
    && (st != [] ==> Below(dup, left, st[0]))
    && goal == left + Remove(dup, right, st)
  }

  lemma KeepUndeleted(dup: bool, left: seq<Pair>, right: seq<Pair>, st: seq<Pair>, goal: seq<Pair>)
    requires Deleting(dup, left, right, st, goal) && right != []
    requires st == [] || Less(dup, right[0], st[0])
    ensures Deleting(dup, left + [right[0]], right[1..], st, goal)
  {
    hide Less, Same, Sorted, WeaklySorted;
    var r := right[0];
    assert Remove(dup, right, st) == [r] + Remove(dup, right[1..], st);
    assert left + [r] + right[1..] == left + right;
    assert left + [r] + Remove(dup, right[1..], st) == left + ([r] + Remove(dup, right[1..], st));
  }

  lemma DropDeleted(dup: bool, left: seq<Pair>, right: seq<Pair>, st: seq<Pair>, goal: seq<Pair>)
    requires Deleting(dup, left, right, st, goal) && right != [] && st != [] && Same(dup, right[0], st[0])
    ensures Deleting(dup, left, right[1..], st[1..], goal)
  {
    OrderFacts(dup, right[0], st[0]);
    hide Less, Same;
    assert left + right == left + [right[0]] + right[1..];
    SortedWithout(dup, left, right[0], right[1..]);
    if |st| > 1 {
      OrderFacts(dup, st[0], st[1]);
      BelowSmaller(dup, left, st[0], st[1]);
    }
  }

  /** An absent stream pair ends the deletion. */
  lemma StopAtMissing(dup: bool, left: seq<Pair>, right: seq<Pair>, st: seq<Pair>, goal: seq<Pair>)
    requires Deleting(dup, left, right, st, goal) && st != [] && (right == [] || Less(dup, st[0], right[0]))
    ensures Deleting(dup, left, right, [], goal) && goal == left + right && Misses(dup, right, st)
  {
    hide Less, Same;
    if right != [] {
      OrderFacts(dup, st[0], right[0]);
      SortedParts(dup, left, right);
      forall i | 0 <= i < |right| ensures !Same(dup, right[i], st[0]) {
        StoredAbove(dup, right, st[0], right[i]);
        OrderFacts(dup, st[0], right[i]);
      }
    }
    assert Missing(dup, right, st, 0);
  }

  lemma {:induction false} RemoveSkips(dup: bool, left: seq<Pair>, right: seq<Pair>, st: seq<Pair>)
    requires st != [] ==> Below(dup, left, st[0])
    ensures Remove(dup, left + right, st) == left + Remove(dup, right, st)
  {
    hide Less;
    if left == [] {
      assert left + right == right;
    } else {
      RemoveSkips(dup, left[1..], right, st);
      var all := left + right;
      assert all[1..] == left[1..] + right && all[0] == left[0];
      assert Remove(dup, all, st) == [left[0]] + Remove(dup, all[1..], st);
      assert [left[0]] + (left[1..] + Remove(dup, right, st)) == left + Remove(dup, right, st);
    }
  }

  lemma ResplitDeleting(dup: bool, left: seq<Pair>, right: seq<Pair>, left': seq<Pair>, right': seq<Pair>,
                        st: seq<Pair>, goal: seq<Pair>)
    requires Deleting(dup, left, right, st, goal)
    requires left + right == left' + right' && (st != [] ==> Below(dup, left', st[0]))
    ensures Deleting(dup, left', right', st, goal)
  {
    hide Remove, Less;
    RemoveSkips(dup, left, right, st);
    RemoveSkips(dup, left', right', st);
  }

  /** Stored pairs below the stream do not matter for what it misses. */
  lemma MissesBeyond(dup: bool, left: seq<Pair>, right: seq<Pair>, st: seq<Pair>)
    requires WeaklySorted(dup, st) && (st != [] ==> Below(dup, left, st[0]))
    ensures forall j: nat :: j < |st| ==> (Missing(dup, left + right, st, j) <==> Missing(dup, right, st, j))
    ensures Misses(dup, left + right, st) <==> Misses(dup, right, st)
  {
    hide Less, Same;
    var all := left + right;
    if st != [] {
      BelowAll(dup, left, st);
    }
    forall j: nat | j < |st| ensures Unlike(dup, all, st[j]) <==> Unlike(dup, right, st[j]) {
      assert forall i :: 0 <= i < |right| ==> right[i] == all[|left| + i];
      assert forall i :: 0 <= i < |left| ==> all[i] == left[i];
    }
  }

  /** A deleted pair and the stream pair that named it drop out together; a stream pair that
      named it again is missing either way. */
  lemma MissingAfterDropping(dup: bool, right: seq<Pair>, st: seq<Pair>, j: nat)
    requires Sorted(dup, right) && right != [] && st != [] && Same(dup, right[0], st[0]) && j < |st|
    ensures if j == 0 then !Missing(dup, right, st, 0)
            else Missing(dup, right, st, j) <==> Missing(dup, right[1..], st[1..], j - 1)
  {
    hide Less, Same, Unlike, Sorted;
    if j == 0 {
      assert [right[0]] + right[1..] == right;
      UnlikeCons(dup, right[0], right[1..], st[0]);
      NothingLike(dup, st[..0], st[0]);
    } else {
      assert [right[0]] + right[1..] == right;
      UnlikeCons(dup, right[0], right[1..], st[j]);
      assert [st[0]] + st[1..][..j - 1] == st[..j];
      UnlikeCons(dup, st[0], st[1..][..j - 1], st[j]);
      SameTransfers(dup, right[0], st[0], st[j]);
      if Same(dup, st[0], st[j]) {
        RestUnlike(dup, right, st[j]);
      }
    }
  }

  lemma NothingLike(dup: bool, ps: seq<Pair>, x: Pair)
    requires ps == []
    ensures Unlike(dup, ps, x)
  {
  }

  lemma RestUnlike(dup: bool, ps: seq<Pair>, x: Pair)
    requires Sorted(dup, ps) && ps != [] && Same(dup, ps[0], x)
    ensures Unlike(dup, ps[1..], x)
  {
    hide Less, Same;
    forall i | 0 <= i < |ps[1..]| ensures !Same(dup, ps[1..][i], x) {
      assert Less(dup, ps[0], ps[i + 1]);
      OrderFacts(dup, ps[0], ps[i + 1]);
      SameTransfers(dup, ps[0], x, ps[i + 1]);
      OrderFacts(dup, x, ps[i + 1]);
    }
  }

  lemma MissesAfterDropping(dup: bool, right: seq<Pair>, st: seq<Pair>)
    requires Sorted(dup, right) && right != [] && st != [] && Same(dup, right[0], st[0])
    ensures Misses(dup, right, st) <==> Misses(dup, right[1..], st[1..])
  {
    hide Less, Same, Missing, Sorted;
    forall j: nat | j < |st|
      ensures if j == 0 then !Missing(dup, right, st, 0)
              else Missing(dup, right, st, j) <==> Missing(dup, right[1..], st[1..], j - 1)
    {
      MissingAfterDropping(dup, right, st, j);
    }
    if Misses(dup, right, st) {
      var j: nat :| j < |st| && Missing(dup, right, st, j);
      assert Missing(dup, right[1..], st[1..], j - 1);
    }
    if Misses(dup, right[1..], st[1..]) {
      var j: nat :| j < |st[1..]| && Missing(dup, right[1..], st[1..], j);
      assert j + 1 < |st| && Missing(dup, right, st, j + 1);
    }
  }

  lemma {:induction false} SubsequenceGrows(a: Pair, qs: seq<Pair>, ps: seq<Pair>)
    requires Subsequence(qs, ps)
    ensures Subsequence(qs, [a] + ps) && Subsequence([a] + qs, [a] + ps)
  {
    var more := [a] + ps;
    if ps == [] {
      assert more[..0] == [] && ([a] + qs)[..0] == [];
    } else {
      var init := ps[..|ps| - 1];
      assert more[..|more| - 1] == [a] + init;
      if qs == [] {
        SubsequenceGrows(a, [], init);
      } else if Subsequence(qs, init) {
        SubsequenceGrows(a, qs, init);
      } else {
        SubsequenceGrows(a, qs[..|qs| - 1], init);
        assert ([a] + qs)[..|qs|] == [a] + qs[..|qs| - 1];
      }
    }
  }

  lemma {:induction false} SubsequenceSelf(ps: seq<Pair>)
    ensures Subsequence(ps, ps)
  {
    if ps != [] {
      SubsequenceSelf(ps[..|ps| - 1]);
    }
  }

  lemma {:induction false} RemoveSubsequence(dup: bool, cs: seq<Pair>, st: seq<Pair>)
    ensures Subsequence(Remove(dup, cs, st), cs)
    decreases |cs|
  {
    hide Less, Same;
    if st == [] || cs == [] {
      SubsequenceSelf(cs);
    } else {
      assert [cs[0]] + cs[1..] == cs;
      if Less(dup, cs[0], st[0]) {
        RemoveSubsequence(dup, cs[1..], st);
        SubsequenceGrows(cs[0], Remove(dup, cs[1..], st), cs[1..]);
      } else if Same(dup, cs[0], st[0]) {
        RemoveSubsequence(dup, cs[1..], st[1..]);
        SubsequenceGrows(cs[0], Remove(dup, cs[1..], st[1..]), cs[1..]);
      } else {
        SubsequenceSelf(cs);
      }
    }
  }

  /** Deletion keeps exactly the stored pairs that the stream does not name before its
      first missing pair (position k); RemoveSubsequence says it keeps their order. */
  lemma {:induction false} RemoveMembers(dup: bool, cs: seq<Pair>, st: seq<Pair>) returns (k: nat)
    requires Sorted(dup, cs) && WeaklySorted(dup, st)
    ensures k <= |st| && !Misses(dup, cs, st[..k]) && (k < |st| ==> Missing(dup, cs, st, k))
    ensures forall x :: x in Remove(dup, cs, st) <==> x in cs && Unlike(dup, st[..k], x)
    decreases |cs|
  {
    hide Less, Same, Remove, Missing, Misses;
    if st == [] || cs == [] || Less(dup, st[0], cs[0]) {
      k := 0;
      RemoveStops(dup, cs, st);
    } else {
      assert cs == [cs[0]] + cs[1..];
      SortedParts(dup, [cs[0]], cs[1..]);
      assert WeaklySorted(dup, st[1..]);
      OrderFacts(dup, cs[0], st[0]);
      if Less(dup, cs[0], st[0]) {
        k := RemoveMembers(dup, cs[1..], st);
        RemoveKeepsFirst(dup, cs, st, k);
      } else {
        var j := RemoveMembers(dup, cs[1..], st[1..]);
        k := j + 1;
        RemoveDropsFirst(dup, cs, st, k);
      }
    }
  }

  lemma RemoveStops(dup: bool, cs: seq<Pair>, st: seq<Pair>)
    requires Sorted(dup, cs) && (st == [] || cs == [] || Less(dup, st[0], cs[0]))
    ensures Remove(dup, cs, st) == cs && (st != [] ==> Missing(dup, cs, st, 0))
    ensures !Misses(dup, cs, st[..0])
  {
    hide Less, Same;
    if st != [] && cs != [] {
      OrderFacts(dup, st[0], cs[0]);
      forall i | 0 <= i < |cs| ensures !Same(dup, cs[i], st[0]) {
        StoredAbove(dup, cs, st[0], cs[i]);
        OrderFacts(dup, st[0], cs[i]);
      }
    }
  }

  lemma RemoveKeepsFirst(dup: bool, cs: seq<Pair>, st: seq<Pair>, k: nat)
    requires Sorted(dup, cs) && WeaklySorted(dup, st) && cs != [] && st != [] && Less(dup, cs[0], st[0])
    requires k <= |st| && !Misses(dup, cs[1..], st[..k]) && (k < |st| ==> Missing(dup, cs[1..], st, k))
    requires forall x :: x in Remove(dup, cs[1..], st) <==> x in cs[1..] && Unlike(dup, st[..k], x)
    ensures !Misses(dup, cs, st[..k]) && (k < |st| ==> Missing(dup, cs, st, k))
    ensures forall x :: x in Remove(dup, cs, st) <==> x in cs && Unlike(dup, st[..k], x)
  {
    assert Remove(dup, cs, st) == [cs[0]] + Remove(dup, cs[1..], st);
    hide Less, Same, Remove, Sorted, Misses, Missing, WeaklySorted;
    assert cs == [cs[0]] + cs[1..];
    assert !Misses(dup, cs, st[..k]) by {
      hide Unlike;
      WeaklySortedPrefix(dup, st, k);
      assert st[..k] != [] ==> st[..k][0] == st[0];
      MissesBeyond(dup, [cs[0]], cs[1..], st[..k]);
    }
    MissesBeyond(dup, [cs[0]], cs[1..], st);
    FirstUnlike(dup, cs, st, k);
  }

  /** A stored pair below the whole stream is named by none of it. */
  lemma FirstUnlike(dup: bool, cs: seq<Pair>, st: seq<Pair>, k: nat)
    requires WeaklySorted(dup, st) && cs != [] && st != [] && Less(dup, cs[0], st[0]) && k <= |st|
    ensures Unlike(dup, st[..k], cs[0])
  {
    hide Less, Same;
    BelowAll(dup, [cs[0]], st);
    forall j | 0 <= j < |st| ensures !Same(dup, st[j], cs[0]) {
      assert !Same(dup, [cs[0]][0], st[j]);
      OrderFacts(dup, cs[0], st[j]);
    }
  }

  lemma RemoveDropsFirst(dup: bool, cs: seq<Pair>, st: seq<Pair>, k: nat)
    requires Sorted(dup, cs) && cs != [] && st != [] && Same(dup, cs[0], st[0])
    requires 0 < k <= |st| && !Misses(dup, cs[1..], st[1..][..k - 1])
    requires k < |st| ==> Missing(dup, cs[1..], st[1..], k - 1)
    requires forall x :: x in Remove(dup, cs[1..], st[1..]) <==> x in cs[1..] && Unlike(dup, st[1..][..k - 1], x)
    ensures !Misses(dup, cs, st[..k]) && (k < |st| ==> Missing(dup, cs, st, k))
    ensures forall x :: x in Remove(dup, cs, st) <==> x in cs && Unlike(dup, st[..k], x)
  {
    RemoveDrops(dup, cs, st);
    hide Less, Same, Remove, Misses, Missing, Sorted;
    assert !Misses(dup, cs, st[..k]) by {
      hide Unlike;
      assert st[..k][1..] == st[1..][..k - 1] && st[..k][0] == st[0];
      MissesAfterDropping(dup, cs, st[..k]);
    }
    forall x ensures x in cs[1..] && Unlike(dup, st[1..][..k - 1], x) <==> x in cs && Unlike(dup, st[..k], x) {
      ReplacedOnly(dup, cs, st[0], x);
      assert [st[0]] + st[1..][..k - 1] == st[..k];
      UnlikeCons(dup, st[0], st[1..][..k - 1], x);
    }
    if k < |st| {
      MissingAfterDropping(dup, cs, st, k);
    }
  }

  lemma RemoveDrops(dup: bool, cs: seq<Pair>, st: seq<Pair>)
    requires cs != [] && st != [] && Same(dup, cs[0], st[0])
    ensures Remove(dup, cs, st) == Remove(dup, cs[1..], st[1..])
  {
    OrderFacts(dup, cs[0], st[0]);
  }

  lemma UnlikeCons(dup: bool, p: Pair, ps: seq<Pair>, x: Pair)
    ensures Unlike(dup, [p] + ps, x) <==> !Same(dup, p, x) && Unlike(dup, ps, x)
  {
    hide Same;
    var all := [p] + ps;
    assert all[0] == p && forall i :: 0 <= i < |ps| ==> all[i + 1] == ps[i];
  }
}
