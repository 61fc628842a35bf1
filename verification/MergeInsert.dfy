/** __bamc_compress_merge_insert (db4/btree/bt_compress.c) refines the sorted merge. */
module MergeInsert {
  import opened Bytes
  import opened Chunks
  import opened PairMerge
  import opened CompressedTree
  import opened ChunkMerging

  datatype Flag = Current | KeyFirst | KeyLast | NoDupData | OverwriteDup | NoOverwrite

  /** The modes in which an equal pair already stored is an error. */
  predicate NoReplace(dup: bool, flag: Flag) {
    dup && (flag == KeyFirst || flag == KeyLast || flag == NoDupData)
  }

  /** What prevDestKey points at: nothing, a decompression buffer, or a stream item. */
  datatype Ref = NoRef | InCursor(slot: Slot) | InStream(slot: Slot)

  /** The stream side of the merge: the items ikey1 and ikey2, which of them ikey is, the
      position in the stream, whether there is a current item and whether it still lies in
      front of the next chunk. */
  datatype Input = Input(one: Pair, two: Pair, slot: Slot, next: nat, more: bool, small: bool) {
    function Item(s: Slot): Pair {
      if s == Two then two else one
    }

    function Ikey(): Pair {
      Item(slot)
    }
  }

  /** The local variables of the merge. */
  datatype Locals = Locals(input: Input, prevDest: Ref, moreCompressed: bool, bulk: bool)

  function Other(s: Slot): Slot {
    if s == One then Two else One
  }

  /** What the proof follows: the chunks before, between and after the ones being merged,
      the chunk taken apart and the place in it, the rest of the stream, and the result
      and return code all this is to lead to. */
  datatype View = View(pre: seq<seq<Pair>>, flushed: seq<seq<Pair>>, post: seq<seq<Pair>>,
                       ps: seq<Pair>, i: nat, st: seq<Pair>, goal: seq<Pair>, hit: bool)

  function Placed(v: View, pairs: seq<Pair>): seq<Pair> {
    Flat(v.pre + v.flushed) + pairs
  }

  function Pending(f: Locals, v: View): seq<Pair>
    requires v.i <= |v.ps|
  {
    (if f.moreCompressed then v.ps[v.i..] else []) + Flat(v.post)
  }

  /** The chunks written so far for the chunk taken, with the one being built. */
  function Written(flushed: seq<seq<Pair>>, pairs: seq<Pair>): seq<seq<Pair>> {
    flushed + if pairs == [] then [] else [pairs]
  }

  /** Every chunk but the last is full: the next pair would not have fitted. */
  ghost predicate Greedy(ovflsize: nat, ws: seq<seq<Pair>>) {
    && (forall i :: 0 <= i < |ws| ==> ws[i] != [])
    && forall i :: 0 <= i < |ws| - 1 ==> ChunkSize(ws[i] + [ws[i + 1][0]]) > ovflsize
  }

  /** Neither what is written nor what is still to come from the stream lies below the chunk
      taken. */
  ghost predicate NotBelow(dup: bool, ws: seq<seq<Pair>>, ps: seq<Pair>, st: seq<Pair>) {
    ps != [] ==>
      && (st != [] ==> !Less(dup, st[0], ps[0]))
      && (ws != [] ==> ws[0] != [] && !Less(dup, ws[0][0], ps[0]))
  }

  ghost predicate Filled(dup: bool, ovflsize: nat, flushed: seq<seq<Pair>>, pairs: seq<Pair>, ps: seq<Pair>, st: seq<Pair>) {
    && Sorted(dup, ps) && WeaklySorted(dup, st)
    && (pairs == [] ==> flushed == [])
    && Greedy(ovflsize, Written(flushed, pairs))
    && NotBelow(dup, Written(flushed, pairs), ps, st)
  }

  lemma GreedyGrows(ovflsize: nat, flushed: seq<seq<Pair>>, pairs: seq<Pair>, cur: Pair)
    requires pairs != [] && Greedy(ovflsize, flushed + [pairs])
    ensures Greedy(ovflsize, flushed + [pairs + [cur]])
    ensures (flushed + [pairs + [cur]])[0][0] == (flushed + [pairs])[0][0]
  {
    hide ChunkSize;
    var was, now := flushed + [pairs], flushed + [pairs + [cur]];
    forall i | 0 <= i < |now|
      ensures now[i] != [] && now[i][0] == was[i][0] && (i < |flushed| ==> now[i] == was[i])
    {
      assert was[i] != [];
    }
    forall i | 0 <= i < |now| - 1
      ensures ChunkSize(now[i] + [now[i + 1][0]]) > ovflsize
    {
      assert ChunkSize(was[i] + [was[i + 1][0]]) > ovflsize;
    }
  }

  /** Storing a pair keeps the written chunks full. */
  lemma StoreFills(dup: bool, ovflsize: nat, flushed: seq<seq<Pair>>, pairs: seq<Pair>, ps: seq<Pair>, st: seq<Pair>,
                   cur: Pair, full: bool)
    requires Filled(dup, ovflsize, flushed, pairs, ps, st)
    requires full <==> pairs != [] && ChunkSize(pairs + [cur]) > ovflsize
    requires ps != [] ==> !Less(dup, cur, ps[0])
    ensures if full then Filled(dup, ovflsize, flushed + [pairs], [cur], ps, st)
            else Filled(dup, ovflsize, flushed, pairs + [cur], ps, st)
  {
    hide Less, ChunkSize, Sorted, WeaklySorted;
    var ws := Written(flushed, pairs);
    if full {
      assert Written(flushed + [pairs], [cur]) == ws + [[cur]];
    } else if pairs == [] {
      assert Written(flushed, [cur]) == [[cur]];
    } else {
      GreedyGrows(ovflsize, flushed, pairs, cur);
    }
  }

  lemma SortedFromFirst(dup: bool, ps: seq<Pair>, i: nat)
    requires Sorted(dup, ps) && i < |ps|
    ensures !Less(dup, ps[i], ps[0])
  {
    OrderFacts(dup, ps[i], ps[0]);
  }

  lemma FirstSorted(dup: bool, ovflsize: nat, flushed: seq<seq<Pair>>, pairs: seq<Pair>, ps: seq<Pair>, st: seq<Pair>,
                    i: nat)
    requires Filled(dup, ovflsize, flushed, pairs, ps, st) && i < |ps|
    ensures !Less(dup, ps[i], ps[0])
  {
    SortedFromFirst(dup, ps, i);
  }

  /** Moving on in the stream. */
  lemma StreamStaysAbove(dup: bool, ovflsize: nat, flushed: seq<seq<Pair>>, pairs: seq<Pair>, ps: seq<Pair>, st: seq<Pair>)
    requires Filled(dup, ovflsize, flushed, pairs, ps, st) && st != []
    ensures ps != [] ==> !Less(dup, st[0], ps[0])
    ensures Filled(dup, ovflsize, flushed, pairs, ps, SkipSame(dup, st[0], st[1..]))
  {
    hide Less, Same, Greedy, SkipSame, Sorted, WeaklySorted;
    var k := RunShape(dup, st);
    if ps != [] && k < |st| {
      OrderFacts(dup, ps[0], st[k]);
      OrderFacts(dup, st[0], st[k]);
      OrderTransitive(dup, ps[0], st[0], st[k]);
    }
  }

  lemma ItemFills(dup: bool, ovflsize: nat, flushed: seq<seq<Pair>>, pairs: seq<Pair>, ps: seq<Pair>, st: seq<Pair>,
                  full: bool)
    requires Filled(dup, ovflsize, flushed, pairs, ps, st) && st != []
    requires full <==> pairs != [] && ChunkSize(pairs + [st[0]]) > ovflsize
    ensures var rest := SkipSame(dup, st[0], st[1..]);
            if full then Filled(dup, ovflsize, flushed + [pairs], [st[0]], ps, rest)
            else Filled(dup, ovflsize, flushed, pairs + [st[0]], ps, rest)
  {
    hide Less, Filled, SkipSame, ChunkSize;
    StreamStaysAbove(dup, ovflsize, flushed, pairs, ps, st);
    StoreFills(dup, ovflsize, flushed, pairs, ps, st, st[0], full);
    if full {
      StreamStaysAbove(dup, ovflsize, flushed + [pairs], [st[0]], ps, st);
    } else {
      StreamStaysAbove(dup, ovflsize, flushed, pairs + [st[0]], ps, st);
    }
  }

  lemma StreamEnds(dup: bool, ovflsize: nat, flushed: seq<seq<Pair>>, pairs: seq<Pair>, ps: seq<Pair>, st: seq<Pair>)
    requires Filled(dup, ovflsize, flushed, pairs, ps, st)
    ensures Filled(dup, ovflsize, flushed, pairs, ps, [])
  {
    hide Less, Greedy, Sorted;
  }

  lemma NothingWritten(dup: bool, ovflsize: nat, ps: seq<Pair>, st: seq<Pair>)
    requires Sorted(dup, ps) && WeaklySorted(dup, st)
    requires ps != [] && st != [] ==> !Less(dup, st[0], ps[0])
    ensures Filled(dup, ovflsize, [], [], ps, st)
  {
  }

  lemma InsertingSorted(dup: bool, stop: bool, left: seq<Pair>, right: seq<Pair>, st: seq<Pair>, goal: seq<Pair>,
                        hit: bool, bulk: bool)
    requires Inserting(dup, stop, left, right, st, goal, hit, bulk)
    ensures Sorted(dup, left + right) && WeaklySorted(dup, st)
  {
  }

  // ---------------------------------------------------------------- where chunks end

  /** An old chunk begins between two pairs. */
  ghost predicate Parted(dup: bool, was: seq<seq<Pair>>, p: Pair, q: Pair) {
    exists j | 0 <= j < |was| :: was[j] != [] && Less(dup, p, was[j][0]) && !Less(dup, q, was[j][0])
  }

  /** A chunk is full, or it ends where an old chunk began. */
  ghost predicate EndsWell(dup: bool, ovflsize: nat, was: seq<seq<Pair>>, g: seq<Pair>, next: seq<Pair>) {
    && g != [] && next != []
    && (ChunkSize(g + [next[0]]) > ovflsize || Parted(dup, was, g[|g| - 1], next[0]))
  }

  /** A merge begins a new chunk only where the chunk before is full. */
  ghost predicate Spaced(dup: bool, ovflsize: nat, was: seq<seq<Pair>>, gs: seq<seq<Pair>>) {
    forall i | 0 < i < |gs| :: EndsWell(dup, ovflsize, was, gs[i - 1], gs[i])
  }

  /** The chunks from `front` on are the old ones from `m` on, and the rest of the stream does
      not lie below them. */
  ghost predicate Untouched(dup: bool, was: seq<seq<Pair>>, gs: seq<seq<Pair>>, front: nat, m: nat, st: seq<Pair>) {
    && front <= |gs| && m <= |was| && gs[front..] == was[m..]
    && (st != [] ==> (front == 0 && m == 0)
                     || (front < |gs| && gs[front] != [] && !Less(dup, st[0], gs[front][0])))
  }

  ghost predicate NoneEmpty(gs: seq<seq<Pair>>) {
    forall i :: 0 <= i < |gs| ==> gs[i] != []
  }

  /** Nor does a merge join chunks: no old chunk begins inside one. */
  ghost predicate Unjoined(dup: bool, was: seq<seq<Pair>>, gs: seq<seq<Pair>>) {
    forall i | 0 <= i < |gs| :: Inside(dup, was, gs[i])
  }

  ghost predicate Inside(dup: bool, was: seq<seq<Pair>>, g: seq<Pair>) {
    g != [] && !Parted(dup, was, g[0], g[|g| - 1])
  }

  /** A chunk between the beginnings of two old ones, or before or behind all of them. */
  lemma BetweenStarts(dup: bool, was: seq<seq<Pair>>, idx: int, g: seq<Pair>)
    requires NoneEmpty(was) && Sorted(dup, Flat(was)) && -1 <= idx < |was| && g != []
    requires idx >= 0 ==> !Less(dup, g[0], was[idx][0])
    requires idx + 1 < |was| ==> Less(dup, g[|g| - 1], was[idx + 1][0])
    ensures Inside(dup, was, g)
  {
    hide Less, Flat, Sorted;
    forall j | 0 <= j < |was|
      ensures !(Less(dup, g[0], was[j][0]) && !Less(dup, g[|g| - 1], was[j][0]))
    {
      if j <= idx {
        StartsInOrder(dup, was, j, idx);
        OrderTransitive(dup, was[j][0], was[idx][0], g[0]);
      } else {
        StartsInOrder(dup, was, idx + 1, j);
        OrderFacts(dup, g[|g| - 1], was[idx + 1][0]);
        OrderTransitive(dup, g[|g| - 1], was[idx + 1][0], was[j][0]);
      }
    }
  }

  lemma StartsInOrder(dup: bool, gs: seq<seq<Pair>>, i: nat, j: nat)
    requires NoneEmpty(gs) && Sorted(dup, Flat(gs)) && i <= j < |gs|
    ensures !Less(dup, gs[j][0], gs[i][0])
  {
    hide Less, Flat, Sorted;
    OrderFacts(dup, gs[i][0], gs[j][0]);
    if i < j {
      ChunksInOrder(dup, gs, i, 0, j, 0);
    }
  }

  lemma UnjoinedAtFirst(dup: bool, gs: seq<seq<Pair>>)
    requires NoneEmpty(gs) && Sorted(dup, Flat(gs))
    ensures Unjoined(dup, gs, gs)
  {
    hide Less, Flat, Sorted, Inside;
    forall i | 0 <= i < |gs|
      ensures Inside(dup, gs, gs[i])
    {
      OrderFacts(dup, gs[i][0], gs[i][0]);
      if i + 1 < |gs| {
        ChunksInOrder(dup, gs, i, |gs[i]| - 1, i + 1, 0);
      }
      BetweenStarts(dup, gs, i, gs[i]);
    }
  }

  /** The chunks written in a round. */
  lemma WrittenInside(dup: bool, was: seq<seq<Pair>>, idx: int, pre: seq<seq<Pair>>, ws: seq<seq<Pair>>,
                      post: seq<seq<Pair>>, ps: seq<Pair>, st: seq<Pair>, i: nat)
    requires NoneEmpty(was) && Sorted(dup, Flat(was)) && -1 <= idx < |was|
    requires NoneEmpty(pre + ws + post) && Sorted(dup, Flat(pre + ws + post)) && NotBelow(dup, ws, ps, st)
    requires idx >= 0 ==> ps == was[idx]
    requires if idx + 1 < |was| then post != [] && post[0] == was[idx + 1] else post == []
    requires i < |ws|
    ensures Inside(dup, was, ws[i])
  {
    hide Less, Flat, Sorted, Inside;
    var gs, k := pre + ws + post, |pre|;
    assert gs[k] == ws[0] && gs[k + i] == ws[i];
    if idx >= 0 {
      StartsInOrder(dup, gs, k, k + i);
      OrderTransitive(dup, ps[0], ws[0][0], ws[i][0]);
    }
    if idx + 1 < |was| {
      assert gs[k + |ws|] == post[0];
      ChunksInOrder(dup, gs, k + i, |ws[i]| - 1, k + |ws|, 0);
    }
    BetweenStarts(dup, was, idx, ws[i]);
  }

  lemma OldEndsWell(dup: bool, ovflsize: nat, was: seq<seq<Pair>>, j: nat, g: seq<Pair>, next: seq<Pair>)
    requires j < |was| && was[j] != [] && g != [] && next != []
    requires Less(dup, g[|g| - 1], was[j][0]) && !Less(dup, next[0], was[j][0])
    ensures EndsWell(dup, ovflsize, was, g, next)
  {
    hide Less, ChunkSize;
  }

  lemma SpacedAtFirst(dup: bool, ovflsize: nat, gs: seq<seq<Pair>>)
    requires NoneEmpty(gs) && Sorted(dup, Flat(gs))
    ensures Spaced(dup, ovflsize, gs, gs)
  {
    hide Less, Flat, Sorted, EndsWell;
    forall i | 0 < i < |gs|
      ensures EndsWell(dup, ovflsize, gs, gs[i - 1], gs[i])
    {
      ChunksInOrder(dup, gs, i - 1, |gs[i - 1]| - 1, i, 0);
      OrderFacts(dup, gs[i][0], gs[i][0]);
      OldEndsWell(dup, ovflsize, gs, i, gs[i - 1], gs[i]);
    }
  }

  /** A chunk that ends in front of an old one. */
  lemma BeforeOld(dup: bool, ovflsize: nat, was: seq<seq<Pair>>, j: nat, gs: seq<seq<Pair>>, i: nat)
    requires NoneEmpty(gs) && Sorted(dup, Flat(gs)) && 0 < i < |gs| && j < |was| && gs[i] == was[j]
    ensures EndsWell(dup, ovflsize, was, gs[i - 1], gs[i])
  {
    hide Less, Flat, Sorted, EndsWell;
    ChunksInOrder(dup, gs, i - 1, |gs[i - 1]| - 1, i, 0);
    OrderFacts(dup, gs[i][0], gs[i][0]);
    OldEndsWell(dup, ovflsize, was, j, gs[i - 1], gs[i]);
  }

  /** The chunk in front of the one taken. */
  lemma BeforeTaken(dup: bool, ovflsize: nat, was: seq<seq<Pair>>, j: nat, gs: seq<seq<Pair>>, k: nat,
                    ws: seq<seq<Pair>>, st: seq<Pair>)
    requires NoneEmpty(gs) && Sorted(dup, Flat(gs)) && 0 < k < |gs| && j < |was| && gs[k] == was[j]
    requires ws != [] && NotBelow(dup, ws, gs[k], st)
    ensures EndsWell(dup, ovflsize, was, gs[k - 1], ws[0])
  {
    hide Less, Flat, Sorted, EndsWell;
    ChunksInOrder(dup, gs, k - 1, |gs[k - 1]| - 1, k, 0);
    OldEndsWell(dup, ovflsize, was, j, gs[k - 1], ws[0]);
  }

  /** One round of the outer loop. */
  lemma RoundSpaced(dup: bool, ovflsize: nat, was: seq<seq<Pair>>, gs: seq<seq<Pair>>, front: nat, m: nat,
                    v: View, ws: seq<seq<Pair>>, gs': seq<seq<Pair>>, i: nat)
    requires Spaced(dup, ovflsize, was, gs) && NoneEmpty(gs) && NoneEmpty(gs')
    requires front <= |gs| && m <= |was| && gs[front..] == was[m..] && front <= |v.pre|
    requires gs == v.pre + Written([], v.ps) + v.post && gs' == v.pre + ws + v.post
    requires v.ps == [] ==> v.pre == []
    requires Sorted(dup, Flat(gs)) && Sorted(dup, Flat(gs'))
    requires Greedy(ovflsize, ws) && NotBelow(dup, ws, v.ps, v.st)
    requires 0 < i < |gs'|
    ensures EndsWell(dup, ovflsize, was, gs'[i - 1], gs'[i])
  {
    hide Less, Flat, Sorted, EndsWell, Greedy, NotBelow, NoneEmpty;
    var k := |v.pre|;
    var n := k + |Written([], v.ps)|;
    if i < k {
      assert gs'[i - 1] == gs[i - 1] && gs'[i] == gs[i];
    } else if i == k && ws != [] {
      OldAt(was, gs, front, m, k);
      BeforeTaken(dup, ovflsize, was, m + (k - front), gs, k, ws, v.st);
    } else if i < k + |ws| {
      WrittenEndsWell(dup, ovflsize, was, ws, i - k);
      assert gs'[i - 1] == ws[i - 1 - k] && gs'[i] == ws[i - k];
    } else {
      var t := i - k - |ws|;
      OldAt(was, gs, front, m, n + t);
      BeforeOld(dup, ovflsize, was, m + (n + t - front), gs', i);
    }
  }

  lemma OldAt(was: seq<seq<Pair>>, gs: seq<seq<Pair>>, front: nat, m: nat, i: nat)
    requires front <= |gs| && m <= |was| && gs[front..] == was[m..] && front <= i < |gs|
    ensures m + (i - front) < |was| && gs[i] == was[m + (i - front)]
  {
    assert gs[i] == gs[front..][i - front];
  }

  lemma WrittenEndsWell(dup: bool, ovflsize: nat, was: seq<seq<Pair>>, ws: seq<seq<Pair>>, i: nat)
    requires Greedy(ovflsize, ws) && 0 < i < |ws|
    ensures EndsWell(dup, ovflsize, was, ws[i - 1], ws[i])
  {
    hide ChunkSize, Parted;
  }

  ghost predicate PrevOk(c: Cursor, f: Locals, pairs: seq<Pair>)
    reads c
  {
    match f.prevDest
    case NoRef => pairs == []
    case InCursor(s) => pairs != [] && s != NoSlot && c.Content(s) == pairs[|pairs| - 1]
    case InStream(s) => pairs != [] && s != NoSlot && s != f.input.slot && f.input.Item(s) == pairs[|pairs| - 1]
  }

  ghost predicate StreamOk(stream: seq<Pair>, input: Input, st: seq<Pair>) {
    input.slot != NoSlot && input.next <= |stream| &&
    if input.more then input.next > 0 && st == stream[input.next - 1..] && input.Ikey() == st[0]
    else st == [] && !input.small
  }

  ghost predicate SmallOk(dup: bool, small: bool, st: seq<Pair>, post: seq<seq<Pair>>) {
    (post != [] ==> post[0] != []) &&
    (st != [] ==>
       if small then post == [] || Less(dup, st[0], post[0][0])
       else post != [] && !Less(dup, st[0], post[0][0]))
  }

  /** The state between two steps of the inner loop. */
  ghost predicate Mid(c: Cursor, dest: DestBuf, stream: seq<Pair>, stop: bool, f: Locals, v: View)
    reads c, dest, dest.buf
  {
    && c.Shape() && dest.Valid() && dest.ovflsize == c.ovflsize
    && c.groups == v.pre + v.flushed + v.post
    && v.i <= |v.ps|
    && Inserting(c.dup, stop, Placed(v, dest.pairs), Pending(f, v), v.st, v.goal, v.hit, f.bulk)
    && (f.moreCompressed ==> c.Positioned(v.ps, v.i))
    && StreamOk(stream, f.input, v.st)
    && SmallOk(c.dup, f.input.small, v.st, v.post)
    && PrevOk(c, f, dest.pairs)
    && Filled(c.dup, c.ovflsize, v.flushed, dest.pairs, v.ps, v.st)
  }

  function Deref(c: Cursor, f: Locals): Option<Pair>
    reads c
  {
    match f.prevDest
    case NoRef => None
    case InCursor(s) => if s == NoSlot then None else Some(c.Content(s))
    case InStream(s) => Some(f.input.Item(s))
  }

  /** CMP_STORE: stores a pair; the chunk is written out first exactly when the pair does not
      fit in it. */
  method CmpStore(c: Cursor, dest: DestBuf, cur: Pair, prev: Option<Pair>, ghost v: View)
    returns (ghost flushed: seq<seq<Pair>>, ghost flushes: nat)
    requires c.Shape() && dest.Valid() && dest.ovflsize == c.ovflsize && Sized(cur)
    requires c.groups == v.pre + v.flushed + v.post
    requires prev == if dest.pairs == [] then None else Some(dest.pairs[|dest.pairs| - 1])
    requires Sorted(c.dup, Placed(v, dest.pairs) + Flat(v.post))
    modifies c`tree, c`groups, dest, dest.buf
    ensures c.Shape() && dest.Valid() && (dest.buf == old(dest.buf) || fresh(dest.buf))
    ensures c.groups == v.pre + flushed + v.post && flushes <= 1
    ensures flushes == 1 <==> old(dest.pairs) != [] && ChunkSize(old(dest.pairs) + [cur]) > c.ovflsize
    ensures flushed == if flushes == 1 then v.flushed + [old(dest.pairs)] else v.flushed
    ensures dest.pairs == if flushes == 1 then [cur] else old(dest.pairs) + [cur]
    ensures Placed(v.(flushed := flushed), dest.pairs) == old(Placed(v, dest.pairs)) + [cur]
  {
    hide Flat, Fits, ChunkBytes, ChunkSize, Sorted, Packed;
    flushed, flushes := v.flushed, 0;
    ghost var was := dest.pairs;
    var ret := dest.Store(cur, prev);
    while ret == BufferSmall
      invariant c.Shape() && dest.Valid() && (dest.buf == old(dest.buf) || fresh(dest.buf))
      invariant flushes <= 1 && (ret == Ok || ret == BufferSmall)
      invariant c.groups == v.pre + flushed + v.post
      invariant flushes == 1 || ret == BufferSmall <==> was != [] && ChunkSize(was + [cur]) > c.ovflsize
      invariant flushed == if flushes == 1 then v.flushed + [was] else v.flushed
      invariant ret == BufferSmall ==> flushes == 0 && dest.pairs == was && was != []
      invariant ret == Ok ==> dest.pairs == if flushes == 1 then [cur] else was + [cur]
      invariant ret == Ok ==> Flat(v.pre + flushed) + dest.pairs == Flat(v.pre + v.flushed) + was + [cur]
      decreases 1 - flushes
    {
      Flush(c, dest, v.pre + v.flushed, v.post);
      flushed, flushes := v.flushed + [was], 1;
      assert v.pre + v.flushed + [was] == v.pre + flushed;
      ret := dest.Store(cur, None);
    }
  }

  /** A cursor step that leaves the tree and the stream items alone keeps everything in
      Mid except the decompression position and prevDestKey. */
  ghost predicate MidStored(c: Cursor, dest: DestBuf, stream: seq<Pair>, stop: bool, f: Locals, v: View)
    reads c, dest, dest.buf
  {
    && c.Shape() && dest.Valid() && dest.ovflsize == c.ovflsize
    && c.groups == v.pre + v.flushed + v.post
    && v.i < |v.ps| && f.moreCompressed
    && Inserting(c.dup, stop, Placed(v, dest.pairs), v.ps[v.i + 1..] + Flat(v.post), v.st, v.goal, v.hit, f.bulk)
    && c.Positioned(v.ps, v.i)
    && StreamOk(stream, f.input, v.st)
    && SmallOk(c.dup, f.input.small, v.st, v.post)
    && PrevOk(c, f, dest.pairs)
    && Filled(c.dup, c.ovflsize, v.flushed, dest.pairs, v.ps, v.st)
    && (f.prevDest.InCursor? ==> f.prevDest.slot == c.current)
  }

  /** The end of an iteration with cmp <= 0: decompress the next stored pair. prevDestKey
      still points at the last pair coded, since only the other buffer is overwritten. */
  method NextStored(c: Cursor, dest: DestBuf, stream: seq<Pair>, stop: bool, f: Locals, ghost v: View)
    returns (f': Locals, ghost v': View)
    requires MidStored(c, dest, stream, stop, f, v)
    modifies c
    ensures Mid(c, dest, stream, stop, f', v')
    ensures v' == v.(i := v.i + 1) && f' == f.(moreCompressed := f'.moreCompressed)
    ensures f'.moreCompressed ==> v'.i < |v'.ps|
  {
    hide Inserting, StreamOk, SmallOk, Packed, Flat, AllSized, ChunkBytes, ChunkSize, Offset, Filled;
    ghost var resizes;
    var ret;
    ret, resizes := c.NextDecompress(v.ps, v.i);
    v' := v.(i := v.i + 1);
    f' := f;
    if ret == NotFound {
      f' := f.(moreCompressed := false);
      assert v.ps[v.i + 1..] == [];
    }
  }

  /** store_current: the stored pair goes to the output. */
  method KeepCurrent(c: Cursor, dest: DestBuf, stream: seq<Pair>, stop: bool, f: Locals, ghost v: View)
    returns (f': Locals, ghost v': View)
    requires Mid(c, dest, stream, stop, f, v) && f.moreCompressed
    requires v.st == [] || Less(c.dup, c.Content(c.current), v.st[0])
    modifies c, dest, dest.buf
    ensures dest.buf == old(dest.buf) || fresh(dest.buf)
    ensures Mid(c, dest, stream, stop, f', v')
    ensures v' == v.(flushed := v'.flushed, i := v.i + 1)
    ensures f' == f.(prevDest := f'.prevDest, moreCompressed := f'.moreCompressed)
    ensures f'.moreCompressed ==> v'.i < |v'.ps|
  {
    hide Flat, Less, Packed, StreamOk, SmallOk, Fits, ChunkBytes, ChunkSize, Offset, Sorted, Filled;
    v' := StoreCurrent(c, dest, stream, stop, f, v);
    hide Inserting;
    f' := f.(prevDest := InCursor(c.current));
    f', v' := NextStored(c, dest, stream, stop, f', v');
  }

  /** The storing part of KeepCurrent. */
  method StoreCurrent(c: Cursor, dest: DestBuf, stream: seq<Pair>, stop: bool, f: Locals, ghost v: View)
    returns (ghost v': View)
    requires Mid(c, dest, stream, stop, f, v) && f.moreCompressed
    requires v.st == [] || Less(c.dup, c.Content(c.current), v.st[0])
    modifies c`tree, c`groups, dest, dest.buf
    ensures c.Shape() && dest.Valid() && (dest.buf == old(dest.buf) || fresh(dest.buf))
    ensures c.groups == v'.pre + v'.flushed + v'.post && v' == v.(flushed := v'.flushed)
    ensures dest.pairs != [] && dest.pairs[|dest.pairs| - 1] == c.Content(c.current)
    ensures Filled(c.dup, c.ovflsize, v'.flushed, dest.pairs, v.ps, v.st)
    ensures Inserting(c.dup, stop, Placed(v', dest.pairs), v.ps[v.i + 1..] + Flat(v.post), v.st, v.goal, v.hit, f.bulk)
  {
    hide Flat, Less, Packed, StreamOk, SmallOk, Fits, ChunkBytes, ChunkSize, Offset, Sorted, Filled;
    ghost var left, right := Placed(v, dest.pairs), Pending(f, v);
    assert right[0] == v.ps[v.i] && right[1..] == v.ps[v.i + 1..] + Flat(v.post);
    InsertingKeeps(c.dup, stop, left, right, v.st, v.goal, v.hit, f.bulk);
    SortedEnds(c.dup, left, v.ps[v.i..], Flat(v.post));
    FirstSorted(c.dup, c.ovflsize, v.flushed, dest.pairs, v.ps, v.st, v.i);
    ghost var flushed, n;
    ghost var was := dest.pairs;
    flushed, n := CmpStore(c, dest, c.Content(c.current), Deref(c, f), v);
    StoreFills(c.dup, c.ovflsize, v.flushed, was, v.ps, v.st, v.ps[v.i], n == 1);
    v' := v.(flushed := flushed);
  }

  /** Reads the stream up to the next pair that differs from p. */
  method NextDistinct(dup: bool, stream: seq<Pair>, next: nat, p: Pair) returns (found: bool, next': nat)
    requires next <= |stream|
    ensures next <= next' <= |stream|
    ensures found ==> next < next'
    ensures SkipSame(dup, p, stream[next..]) == if found then stream[next' - 1..] else []
  {
    hide Same;
    next' := next;
    while true
      invariant next <= next' <= |stream|
      invariant SkipSame(dup, p, stream[next..]) == SkipSame(dup, p, stream[next'..])
      decreases |stream| - next'
    {
      if next' == |stream| {
        return false, next';
      }
      assert stream[next'..][1..] == stream[next' + 1..];
      next' := next' + 1;
      if !Same(dup, stream[next' - 1], p) {
        return true, next';
      }
    }
  }

  /** Moves on in the stream after ikey was stored: the next distinct pair goes into the
      other item, so that prevDestKey keeps its value. */
  method Advance(dup: bool, stream: seq<Pair>, input: Input, nextKey: Option<Pair>, ghost st: seq<Pair>,
                 ghost post: seq<seq<Pair>>)
    returns (input': Input)
    requires StreamOk(stream, input, st) && st != [] && input.small && NextKeyOk(post, nextKey)
    ensures StreamOk(stream, input', SkipSame(dup, st[0], st[1..]))
    ensures input'.slot == Other(input.slot) && input'.Item(input.slot) == st[0]
    ensures SmallOk(dup, input'.small, SkipSame(dup, st[0], st[1..]), post)
  {
    hide Less, Same, SkipSame;
    assert st[1..] == stream[input.next..];
    var found, next := NextDistinct(dup, stream, input.next, input.Ikey());
    if !found {
      return input.(slot := Other(input.slot), next := next, more := false, small := false);
    }
    var p := stream[next - 1];
    var small := nextKey == None || Less(dup, p, nextKey.value);
    if input.slot == One {
      return input.(slot := Two, next := next, two := p, small := small);
    } else {
      return input.(slot := One, next := next, one := p, small := small);
    }
  }

  /** Stores ikey in front of the pending stored pairs, or over the current one. */
  method PlaceStream(c: Cursor, dest: DestBuf, stream: seq<Pair>, stop: bool, f: Locals, ghost v: View,
                     nextKey: Option<Pair>, over: bool)
    returns (f': Locals, ghost v': View)
    requires Mid(c, dest, stream, stop, f, v) && AllSized(stream) && NextKeyOk(v.post, nextKey)
    requires v.st != [] && f.input.small
    requires if over then !stop && f.moreCompressed && Same(c.dup, c.Content(c.current), v.st[0])
             else Pending(f, v) == [] || Less(c.dup, v.st[0], Pending(f, v)[0])
    modifies c, dest, dest.buf
    ensures dest.buf == old(dest.buf) || fresh(dest.buf)
    ensures Mid(c, dest, stream, stop, f', v')
    ensures |v'.st| < |v.st| && v' == v.(flushed := v'.flushed, i := v'.i, st := v'.st)
    ensures if over then v'.i == v.i + 1 && (f'.moreCompressed ==> v'.i < |v'.ps|)
            else v'.i == v.i && f'.moreCompressed == f.moreCompressed
    ensures f'.bulk == f.bulk
  {
    hide Flat, Less, Same, Packed, Fits, ChunkBytes, SkipSame, Sorted, ChunkSize, Offset, Inserting, AllSized, Filled;
    if over {
      f', v' := PlaceOver(c, dest, stream, stop, f, v, nextKey);
      f', v' := NextStored(c, dest, stream, stop, f', v');
    } else {
      f', v' := PlaceInFront(c, dest, stream, stop, f, v, nextKey);
    }
  }

  /** ikey is stored before what is pending. */
  method PlaceInFront(c: Cursor, dest: DestBuf, stream: seq<Pair>, stop: bool, f: Locals, ghost v: View,
                      nextKey: Option<Pair>)
    returns (f': Locals, ghost v': View)
    requires Mid(c, dest, stream, stop, f, v) && AllSized(stream) && NextKeyOk(v.post, nextKey)
    requires v.st != [] && f.input.small
    requires Pending(f, v) == [] || Less(c.dup, v.st[0], Pending(f, v)[0])
    modifies c`tree, c`groups, dest, dest.buf
    ensures dest.buf == old(dest.buf) || fresh(dest.buf)
    ensures Mid(c, dest, stream, stop, f', v')
    ensures |v'.st| < |v.st| && v' == v.(flushed := v'.flushed, st := v'.st)
    ensures f'.moreCompressed == f.moreCompressed && f'.bulk == f.bulk
  {
    hide Flat, Less, Same, Packed, Fits, ChunkBytes, SkipSame, Sorted, ChunkSize, Offset, Filled, Inserting, SmallOk, AllSized;
    v' := StoreItem(c, dest, stream, stop, f, v, false);
    var input := Advance(c.dup, stream, f.input, nextKey, v.st, v.post);
    f' := f.(input := input, prevDest := InStream(f.input.slot));
  }

  /** ikey is stored in place of the current stored pair, which is then passed over. */
  method PlaceOver(c: Cursor, dest: DestBuf, stream: seq<Pair>, stop: bool, f: Locals, ghost v: View,
                   nextKey: Option<Pair>)
    returns (f': Locals, ghost v': View)
    requires Mid(c, dest, stream, stop, f, v) && AllSized(stream) && NextKeyOk(v.post, nextKey)
    requires v.st != [] && f.input.small
    requires !stop && f.moreCompressed && Same(c.dup, c.Content(c.current), v.st[0])
    modifies c`tree, c`groups, dest, dest.buf
    ensures dest.buf == old(dest.buf) || fresh(dest.buf)
    ensures MidStored(c, dest, stream, stop, f', v')
    ensures |v'.st| < |v.st| && v' == v.(flushed := v'.flushed, st := v'.st)
    ensures f'.moreCompressed == f.moreCompressed && f'.bulk == f.bulk
  {
    hide Flat, Less, Same, Packed, Fits, ChunkBytes, SkipSame, Sorted, ChunkSize, Offset, Filled, Inserting, SmallOk, AllSized;
    v' := StoreItem(c, dest, stream, stop, f, v, true);
    var input := Advance(c.dup, stream, f.input, nextKey, v.st, v.post);
    f' := f.(input := input, prevDest := InStream(f.input.slot));
  }

  /** The storing part of PlaceStream. */
  method StoreItem(c: Cursor, dest: DestBuf, stream: seq<Pair>, stop: bool, f: Locals, ghost v: View, ghost over: bool)
    returns (ghost v': View)
    requires Mid(c, dest, stream, stop, f, v) && AllSized(stream) && v.st != [] && f.input.small
    requires if over then !stop && f.moreCompressed && Same(c.dup, c.Content(c.current), v.st[0])
             else Pending(f, v) == [] || Less(c.dup, v.st[0], Pending(f, v)[0])
    modifies c`tree, c`groups, dest, dest.buf
    ensures c.Shape() && dest.Valid() && (dest.buf == old(dest.buf) || fresh(dest.buf))
    ensures c.groups == v'.pre + v'.flushed + v'.post
    ensures dest.pairs != [] && dest.pairs[|dest.pairs| - 1] == v.st[0]
    ensures Filled(c.dup, c.ovflsize, v'.flushed, dest.pairs, v.ps, v'.st)
    ensures v' == v.(flushed := v'.flushed, st := SkipSame(c.dup, v.st[0], v.st[1..]))
    ensures Inserting(c.dup, stop, Placed(v', dest.pairs),
                      if over then v.ps[v.i + 1..] + Flat(v.post) else Pending(f, v), v'.st, v.goal, v.hit, f.bulk)
  {
    hide Flat, Less, Same, Packed, Fits, ChunkBytes, SkipSame, Sorted, ChunkSize, Offset, Filled, Mid, Deref, Inserting, AllSized;
    ItemReady(c, dest, stream, stop, f, v, over);
    ghost var flushed, n;
    ghost var was := dest.pairs;
    flushed, n := CmpStore(c, dest, f.input.Ikey(), Deref(c, f), v);
    ItemFills(c.dup, c.ovflsize, v.flushed, was, v.ps, v.st, n == 1);
    v' := v.(flushed := flushed, st := SkipSame(c.dup, v.st[0], v.st[1..]));
  }

  /** The stream item may be stored now. */
  lemma ItemReady(c: Cursor, dest: DestBuf, stream: seq<Pair>, stop: bool, f: Locals, v: View, over: bool)
    requires Mid(c, dest, stream, stop, f, v) && AllSized(stream) && v.st != [] && f.input.small
    requires if over then !stop && f.moreCompressed && Same(c.dup, c.Content(c.current), v.st[0])
             else Pending(f, v) == [] || Less(c.dup, v.st[0], Pending(f, v)[0])
    ensures c.Shape() && dest.Valid() && dest.ovflsize == c.ovflsize && c.groups == v.pre + v.flushed + v.post
    ensures f.input.Ikey() == v.st[0] && Sized(v.st[0])
    ensures Deref(c, f) == if dest.pairs == [] then None else Some(dest.pairs[|dest.pairs| - 1])
    ensures Sorted(c.dup, Placed(v, dest.pairs) + Flat(v.post))
    ensures Filled(c.dup, c.ovflsize, v.flushed, dest.pairs, v.ps, v.st)
    ensures Inserting(c.dup, stop, Placed(v, dest.pairs) + [v.st[0]],
                      if over then v.ps[v.i + 1..] + Flat(v.post) else Pending(f, v),
                      SkipSame(c.dup, v.st[0], v.st[1..]), v.goal, v.hit, f.bulk)
  {
    hide Flat, Less, Same, Packed, Fits, ChunkBytes, SkipSame, Sorted, ChunkSize, Offset, SmallOk, Filled;
    var left, right := Placed(v, dest.pairs), Pending(f, v);
    var mid := if f.moreCompressed then v.ps[v.i..] else [];
    if over {
      assert right[0] == v.ps[v.i] && right[1..] == v.ps[v.i + 1..] + Flat(v.post);
    }
    InsertingTakes(c.dup, stop, left, right, v.st, v.goal, v.hit, f.bulk, over);
    SortedEnds(c.dup, left, mid, Flat(v.post));
    assert f.input.Ikey() == v.st[0] == stream[f.input.next - 1];
  }

  /** At most one chunk is taken out, and the stream pair lies below those behind it. */
  ghost predicate Opened(dup: bool, gs: seq<seq<Pair>>, v: View) {
    && gs == v.pre + Written([], v.ps) + v.post && v.flushed == [] && (v.ps == [] ==> v.pre == [])
    && v.st != [] && forall i :: 0 <= i < |v.post| ==> v.post[i] != [] && Less(dup, v.st[0], v.post[i][0])
  }

  /** The start of an iteration of the outer loop: find the chunk the next stream pair
      belongs to, take it out of the tree, look at the key of the next chunk, and start
      decompressing. */
  method Begin(c: Cursor, dest: DestBuf, stream: seq<Pair>, stop: bool, input: Input, bulk: bool,
               ghost st: seq<Pair>, ghost goal: seq<Pair>, ghost hit: bool)
    returns (f: Locals, ghost v: View, nextKey: Option<Pair>)
    requires c.Shape() && dest.Valid() && dest.pairs == [] && dest.ovflsize == c.ovflsize
    requires StreamOk(stream, input, st) && st != []
    requires Inserting(c.dup, stop, [], Flat(c.groups), st, goal, hit, bulk)
    modifies c
    ensures Mid(c, dest, stream, stop, f, v)
    ensures NextKeyOk(v.post, nextKey) && f.input.small && v.st == st && v.goal == goal && v.hit == hit
    ensures f.moreCompressed ==> v.i < |v.ps|
    ensures Opened(c.dup, old(c.groups), v)
  {
    hide Less, Flat, Fits, Pack, FirstPair, ChunkBytes, ChunkSize, Offset, Inserting, AllSized, Packed, Mid, Filled;
    var found, k := c.SeekLte(input.Ikey());
    if found {
      f, v, nextKey := BeginInside(c, dest, stream, stop, input, bulk, k, st, goal, hit);
    } else {
      f, v, nextKey := BeginInFront(c, dest, stream, stop, input, bulk, st, goal, hit);
    }
  }

  /** The stream pair belongs to the chunk at position k. */
  method BeginInside(c: Cursor, dest: DestBuf, stream: seq<Pair>, stop: bool, input: Input, bulk: bool, k: nat,
                     ghost st: seq<Pair>, ghost goal: seq<Pair>, ghost hit: bool)
    returns (f: Locals, ghost v: View, nextKey: Option<Pair>)
    requires c.Shape() && dest.Valid() && dest.pairs == [] && dest.ovflsize == c.ovflsize
    requires StreamOk(stream, input, st) && st != []
    requires Inserting(c.dup, stop, [], Flat(c.groups), st, goal, hit, bulk)
    requires k < |c.groups| && !Less(c.dup, st[0], c.groups[k][0])
    requires forall i :: k < i < |c.groups| ==> Less(c.dup, st[0], c.groups[i][0])
    modifies c
    ensures Mid(c, dest, stream, stop, f, v)
    ensures NextKeyOk(v.post, nextKey) && f.input.small && v.st == st && v.goal == goal && v.hit == hit
    ensures f.moreCompressed ==> v.i < |v.ps|
    ensures Opened(c.dup, old(c.groups), v)
  {
    hide Less, Flat, Fits, Pack, FirstPair, ChunkBytes, ChunkSize, Offset, Inserting, AllSized, Packed, Filled;
    f := Locals(input.(small := true), NoRef, true, bulk);
    v := BeginChunk(c, stop, k, st, goal, hit, bulk);
    OpenedAt(c, k, v);
    nextKey := TakeChunk(c, k);
    BeginShape(f, v);
  }

  /** The stream pair lies in front of all chunks. */
  method BeginInFront(c: Cursor, dest: DestBuf, stream: seq<Pair>, stop: bool, input: Input, bulk: bool,
                      ghost st: seq<Pair>, ghost goal: seq<Pair>, ghost hit: bool)
    returns (f: Locals, ghost v: View, nextKey: Option<Pair>)
    requires c.Shape() && dest.Valid() && dest.pairs == [] && dest.ovflsize == c.ovflsize
    requires StreamOk(stream, input, st) && st != []
    requires Inserting(c.dup, stop, [], Flat(c.groups), st, goal, hit, bulk)
    requires forall i :: 0 <= i < |c.groups| ==> Less(c.dup, st[0], c.groups[i][0])
    ensures Mid(c, dest, stream, stop, f, v) && !f.moreCompressed
    ensures NextKeyOk(v.post, nextKey) && f.input.small && v.st == st && v.goal == goal && v.hit == hit
    ensures Opened(c.dup, c.groups, v)
  {
    hide Less, Flat, Fits, Pack, FirstPair, ChunkBytes, ChunkSize, Offset, Inserting, AllSized, Packed, Filled;
    ghost var gs := c.groups;
    f := Locals(input.(small := true), NoRef, false, bulk);
    nextKey := NextKey(c, 0);
    v := View([], [], gs, [], 0, st, goal, hit);
    assert c.groups[0..] == gs;
    BeginAtFront(gs);
    OpenedInFront(c, v);
    InsertingSorted(c.dup, stop, [], Flat(c.groups), st, goal, hit, bulk);
    NothingWritten(c.dup, c.ovflsize, [], st);
    BeginShape(f, v);
  }

  lemma BeginChunk(c: Cursor, stop: bool, k: nat, st: seq<Pair>, goal: seq<Pair>, hit: bool, bulk: bool) returns (v: View)
    requires c.Shape() && k < |c.groups| && st != [] && !Less(c.dup, st[0], c.groups[k][0])
    requires Inserting(c.dup, stop, [], Flat(c.groups), st, goal, hit, bulk)
    ensures v == View(c.groups[..k], [], c.groups[k + 1..], c.groups[k], 0, st, goal, hit)
    ensures Inserting(c.dup, stop, Flat(v.pre) + [], v.ps + Flat(v.post), st, goal, hit, bulk)
    ensures Filled(c.dup, c.ovflsize, [], [], v.ps, st)
  {
    hide Less, Flat, Fits, Pack, Inserting, AllSized, Sorted, Filled;
    InsertingSorted(c.dup, stop, [], Flat(c.groups), st, goal, hit, bulk);
    assert [] + Flat(c.groups) == Flat(c.groups);
    TakenSorted(c.dup, c.groups, k);
    NothingWritten(c.dup, c.ovflsize, c.groups[k], st);
    v := View(c.groups[..k], [], c.groups[k + 1..], c.groups[k], 0, st, goal, hit);
    SplitAround(c.groups, k);
    BeginSplit(c.dup, stop, v.pre, v.ps, v.post, st, goal, hit, bulk);
  }

  lemma OpenedAt(c: Cursor, k: nat, v: View)
    requires c.Shape() && k < |c.groups| && v.st != [] && v.flushed == []
    requires v.pre == c.groups[..k] && v.ps == c.groups[k] && v.post == c.groups[k + 1..]
    requires forall i :: k < i < |c.groups| ==> Less(c.dup, v.st[0], c.groups[i][0])
    ensures Opened(c.dup, c.groups, v)
  {
    hide Less, Fits, Pack, AllSized;
    assert c.groups[k] != [];
    assert c.groups == v.pre + [v.ps] + v.post;
    forall i | 0 <= i < |v.post|
      ensures v.post[i] != [] && Less(c.dup, v.st[0], v.post[i][0])
    {
      assert v.post[i] == c.groups[k + 1 + i];
    }
  }

  lemma OpenedInFront(c: Cursor, v: View)
    requires c.Shape() && v.st != [] && v.flushed == [] && v.pre == [] && v.ps == [] && v.post == c.groups
    requires forall i :: 0 <= i < |c.groups| ==> Less(c.dup, v.st[0], c.groups[i][0])
    ensures Opened(c.dup, c.groups, v)
  {
    hide Less, Fits, Pack, AllSized;
    assert c.groups == v.pre + Written([], v.ps) + v.post;
  }

  lemma BeginShape(f: Locals, v: View)
    requires v.i == 0 && v.flushed == [] && (f.moreCompressed || v.ps == [])
    ensures Placed(v, []) == Flat(v.pre) + [] && Pending(f, v) == v.ps + Flat(v.post)
    ensures v.pre + v.flushed + v.post == v.pre + v.post
  {
    hide Flat;
    assert v.pre + v.flushed == v.pre && v.ps[0..] == v.ps;
  }

  lemma BeginAtFront(gs: seq<seq<Pair>>)
    ensures Flat([]) + [] == [] && [] + Flat(gs) == Flat(gs)
  {
  }

  lemma BeginSplit(dup: bool, stop: bool, pre: seq<seq<Pair>>, ps: seq<Pair>, post: seq<seq<Pair>>,
                   st: seq<Pair>, goal: seq<Pair>, hit: bool, bulk: bool)
    requires Inserting(dup, stop, [], Flat(pre) + (ps + Flat(post)), st, goal, hit, bulk)
    requires ps != [] && st != [] && !Less(dup, st[0], ps[0])
    ensures Inserting(dup, stop, Flat(pre) + [], ps + Flat(post), st, goal, hit, bulk)
  {
    hide Less, Flat, Merge, Collides;
    var all := Flat(pre) + (ps + Flat(post));
    assert [] + all == all && Flat(pre) + [] == Flat(pre);
    BelowSought(dup, Flat(pre), ps, Flat(post), st[0]);
    InsertingResplit(dup, stop, [], all, Flat(pre), ps + Flat(post), st, goal, hit, bulk);
  }

  /** One iteration of the inner loop. */
  method Step(c: Cursor, dest: DestBuf, stream: seq<Pair>, stop: bool, f: Locals, ghost v: View, nextKey: Option<Pair>)
    returns (f': Locals, ghost v': View)
    requires Mid(c, dest, stream, stop, f, v) && AllSized(stream) && NextKeyOk(v.post, nextKey)
    requires f.moreCompressed || f.input.small
    requires f.moreCompressed ==> v.i < |v.ps|
    modifies c, dest, dest.buf
    ensures dest.buf == old(dest.buf) || fresh(dest.buf)
    ensures Mid(c, dest, stream, stop, f', v')
    ensures v' == v.(flushed := v'.flushed, i := v'.i, st := v'.st)
    ensures f'.moreCompressed ==> f.moreCompressed && v'.i < |v'.ps|
    ensures |v'.st| <= |v.st| && v'.i >= v.i && (|v'.st| < |v.st| || v'.i > v.i)
    ensures f'.input.small != f.input.small ==> |v'.st| < |v.st|
  {
    hide Flat, Less, Same, Packed, Fits, ChunkBytes, ChunkSize, Offset, Inserting, AllSized, Filled;
    if !f.moreCompressed {
      // cmp = 1
      FrontOfNext(c.dup, f, v);
      f', v' := PlaceStream(c, dest, stream, stop, f, v, nextKey, false);
    } else if !f.input.small {
      // cmp = -1
      if v.st != [] {
        PendingSorted(c.dup, stop, f, v, dest.pairs);
        PendingBelowNext(c.dup, Placed(v, dest.pairs), v.ps[v.i..], v.post, v.st[0]);
      }
      f', v' := KeepCurrent(c, dest, stream, stop, f, v);
    } else {
      f', v' := Compared(c, dest, stream, stop, f, v, nextKey);
    }
  }

  lemma FrontOfNext(dup: bool, f: Locals, v: View)
    requires v.i <= |v.ps| && !f.moreCompressed && f.input.small && v.st != []
    requires SmallOk(dup, f.input.small, v.st, v.post)
    ensures Pending(f, v) == [] || Less(dup, v.st[0], Pending(f, v)[0])
  {
    hide Less;
    assert Pending(f, v) == Flat(v.post);
    if v.post != [] {
      HeadOfFlat(v.post);
    }
  }

  lemma PendingSorted(dup: bool, stop: bool, f: Locals, v: View, pairs: seq<Pair>)
    requires v.i <= |v.ps| && f.moreCompressed
    requires Inserting(dup, stop, Placed(v, pairs), Pending(f, v), v.st, v.goal, v.hit, f.bulk)
    ensures Sorted(dup, Placed(v, pairs) + (v.ps[v.i..] + Flat(v.post)))
  {
    hide Less, Flat, Merge, Collides;
  }

  /** An iteration that compares the stored pair with the stream pair. */
  method Compared(c: Cursor, dest: DestBuf, stream: seq<Pair>, stop: bool, f: Locals, ghost v: View, nextKey: Option<Pair>)
    returns (f': Locals, ghost v': View)
    requires Mid(c, dest, stream, stop, f, v) && AllSized(stream) && NextKeyOk(v.post, nextKey)
    requires f.moreCompressed && f.input.small && v.i < |v.ps|
    modifies c, dest, dest.buf
    ensures dest.buf == old(dest.buf) || fresh(dest.buf)
    ensures Mid(c, dest, stream, stop, f', v')
    ensures v' == v.(flushed := v'.flushed, i := v'.i, st := v'.st)
    ensures f'.moreCompressed ==> v'.i < |v'.ps|
    ensures |v'.st| <= |v.st| && v'.i >= v.i && (|v'.st| < |v.st| || v'.i > v.i)
    ensures f'.input.small != f.input.small ==> |v'.st| < |v.st|
  {
    hide Flat, Packed, Fits, ChunkBytes, ChunkSize, Offset, Inserting, AllSized, CompareBoth, Filled;
    assert Pending(f, v)[0] == v.ps[v.i];
    OrderFacts(c.dup, v.ps[v.i], v.st[0]);
    var cmp := CompareBoth(c.dup, c.Content(c.current), f.input.Ikey());
    if cmp < 0 {
      f', v' := KeepCurrent(c, dest, stream, stop, f, v);
    } else if cmp == 0 && stop {
      // continue until the current chunk is stored, but insert nothing more
      InsertingStops(c.dup, Placed(v, dest.pairs), Pending(f, v), v.st, v.goal, v.hit, f.bulk);
      StreamEnds(c.dup, c.ovflsize, v.flushed, dest.pairs, v.ps, v.st);
      f' := f.(bulk := true, input := f.input.(more := false, small := false));
      f', v' := KeepCurrent(c, dest, stream, stop, f', v.(st := []));
    } else {
      f', v' := PlaceStream(c, dest, stream, stop, f, v, nextKey, cmp == 0);
    }
  }

  /** The inner loop: runs until the chunk is used up and the stream has passed it. */
  method MergeChunk(c: Cursor, dest: DestBuf, stream: seq<Pair>, stop: bool, f: Locals, ghost v: View, nextKey: Option<Pair>)
    returns (f': Locals, ghost v': View)
    requires Mid(c, dest, stream, stop, f, v) && AllSized(stream) && NextKeyOk(v.post, nextKey)
    requires f.input.small && (f.moreCompressed ==> v.i < |v.ps|)
    modifies c, dest, dest.buf
    ensures dest.buf == old(dest.buf) || fresh(dest.buf)
    ensures Mid(c, dest, stream, stop, f', v') && !f'.moreCompressed && !f'.input.small
    ensures |v'.st| < |v.st| && v' == v.(flushed := v'.flushed, i := v'.i, st := v'.st)
  {
    f', v' := f, v;
    while f'.moreCompressed || f'.input.small
      invariant dest.buf == old(dest.buf) || fresh(dest.buf)
      invariant Mid(c, dest, stream, stop, f', v')
      invariant v' == v.(flushed := v'.flushed, i := v'.i, st := v'.st)
      invariant f'.moreCompressed ==> v'.i < |v'.ps|
      invariant |v'.st| <= |v.st| && (!f'.input.small ==> |v'.st| < |v.st|)
      decreases |v'.st|, |v'.ps| - v'.i
    {
      hide Mid, AllSized;
      MidBound(c, dest, stream, stop, f', v');
      f', v' := Step(c, dest, stream, stop, f', v', nextKey);
      MidBound(c, dest, stream, stop, f', v');
    }
  }

  lemma MidBound(c: Cursor, dest: DestBuf, stream: seq<Pair>, stop: bool, f: Locals, v: View)
    requires Mid(c, dest, stream, stop, f, v)
    ensures v.i <= |v.ps|
  {
  }

  /** The end of an iteration of the outer loop: write the last chunk built. */
  method Finish(c: Cursor, dest: DestBuf, stream: seq<Pair>, stop: bool, f: Locals, ghost v: View)
    requires Mid(c, dest, stream, stop, f, v) && !f.moreCompressed
    modifies c`tree, c`groups, dest`size, dest`pairs
    ensures c.Shape() && dest.Valid() && dest.pairs == []
    ensures Inserting(c.dup, stop, [], Flat(c.groups), v.st, v.goal, v.hit, f.bulk)
    ensures c.groups == v.pre + Written(v.flushed, old(dest.pairs)) + v.post
  {
    hide Less, Flat, Packed, Fits, ChunkBytes, ChunkSize, Offset, Merge, Collides, AllSized, Filled;
    ghost var before, was := v.pre + v.flushed, dest.pairs;
    assert v.pre + Written(v.flushed, was) == before + if was == [] then [] else [was];
    assert Pending(f, v) == Flat(v.post);
    if f.prevDest != NoRef {
      Flush(c, dest, before, v.post);
      FlatConcat(before + [was], v.post);
    } else {
      FlatConcat(before, v.post);
    }
    assert Flat(c.groups) == Placed(v, was) + Flat(v.post);
    assert [] + Flat(c.groups) == Flat(c.groups);
    InsertingResplit(c.dup, stop, Placed(v, was), Flat(v.post), [], Flat(c.groups), v.st, v.goal, v.hit, f.bulk);
  }

  lemma ShapeNoneEmpty(c: Cursor)
    requires c.Shape()
    ensures NoneEmpty(c.groups)
  {
    hide Pack, Fits, AllSized;
  }

  /** One round of the outer loop: a chunk is taken, merged and written again. */
  method Round(c: Cursor, dest: DestBuf, stream: seq<Pair>, stop: bool, input: Input, bulk: bool,
               ghost st: seq<Pair>, ghost goal: seq<Pair>, ghost hit: bool,
               ghost was: seq<seq<Pair>>, ghost front: nat, ghost m: nat)
    returns (input': Input, bulk': bool, ghost st': seq<Pair>, ghost front': nat, ghost m': nat)
    requires c.Shape() && dest.Valid() && dest.pairs == [] && dest.ovflsize == c.ovflsize
    requires AllSized(stream) && StreamOk(stream, input, st) && st != []
    requires Inserting(c.dup, stop, [], Flat(c.groups), st, goal, hit, bulk)
    requires Spaced(c.dup, c.ovflsize, was, c.groups) && Untouched(c.dup, was, c.groups, front, m, st)
    requires Unjoined(c.dup, was, c.groups) && NoneEmpty(was) && Sorted(c.dup, Flat(was))
    modifies c, dest, dest.buf
    ensures dest.buf == old(dest.buf) || fresh(dest.buf)
    ensures c.Shape() && dest.Valid() && dest.pairs == []
    ensures StreamOk(stream, input', st') && |st'| < |st|
    ensures Inserting(c.dup, stop, [], Flat(c.groups), st', goal, hit, bulk')
    ensures Spaced(c.dup, c.ovflsize, was, c.groups) && Untouched(c.dup, was, c.groups, front', m', st')
    ensures Unjoined(c.dup, was, c.groups)
  {
    hide Less, Flat, Packed, Inserting, AllSized, Spaced, Unjoined, NoneEmpty, Untouched, Greedy, NotBelow, Opened, Filled, Sorted;
    ghost var gs := c.groups;
    ShapeNoneEmpty(c);
    InsertingSorted(c.dup, stop, [], Flat(gs), st, goal, hit, bulk);
    ghost var v, ws;
    var f, nextKey;
    f, v, nextKey := Begin(c, dest, stream, stop, input, bulk, st, goal, hit);
    ghost var begun := v;
    f, v := MergeChunk(c, dest, stream, stop, f, v, nextKey);
    MidEnds(c, dest, stream, stop, f, v);
    ws := Written(v.flushed, dest.pairs);
    Finish(c, dest, stream, stop, f, v);
    input', bulk', st' := f.input, f.bulk, v.st;
    ShapeNoneEmpty(c);
    InsertingSorted(c.dup, stop, [], Flat(c.groups), st', goal, hit, bulk');
    front', m' := RoundDone(c.dup, c.ovflsize, was, gs, front, m, begun, v, ws, c.groups);
  }

  lemma MidEnds(c: Cursor, dest: DestBuf, stream: seq<Pair>, stop: bool, f: Locals, v: View)
    requires Mid(c, dest, stream, stop, f, v) && !f.input.small
    ensures StreamOk(stream, f.input, v.st)
    ensures Greedy(c.ovflsize, Written(v.flushed, dest.pairs)) && NotBelow(c.dup, Written(v.flushed, dest.pairs), v.ps, v.st)
    ensures v.st != [] ==> v.post != [] && v.post[0] != [] && !Less(c.dup, v.st[0], v.post[0][0])
  {
    hide Less, Flat, Packed, Inserting, AllSized, Greedy, NotBelow, Sorted;
  }

  lemma RoundDone(dup: bool, ovflsize: nat, was: seq<seq<Pair>>, gs: seq<seq<Pair>>, front: nat, m: nat,
                  begun: View, v: View, ws: seq<seq<Pair>>, gs': seq<seq<Pair>>)
    returns (front': nat, m': nat)
    requires Spaced(dup, ovflsize, was, gs) && NoneEmpty(gs) && NoneEmpty(gs')
    requires Unjoined(dup, was, gs) && NoneEmpty(was) && Sorted(dup, Flat(was))
    requires Untouched(dup, was, gs, front, m, begun.st) && Opened(dup, gs, begun)
    requires v == begun.(flushed := v.flushed, i := v.i, st := v.st) && gs' == v.pre + ws + v.post
    requires Sorted(dup, [] + Flat(gs)) && Sorted(dup, [] + Flat(gs'))
    requires Greedy(ovflsize, ws) && NotBelow(dup, ws, v.ps, v.st)
    requires v.st != [] ==> v.post != [] && v.post[0] != [] && !Less(dup, v.st[0], v.post[0][0])
    ensures Spaced(dup, ovflsize, was, gs') && Untouched(dup, was, gs', front', m', v.st)
    ensures Unjoined(dup, was, gs')
  {
    hide Less, Flat, Sorted, Greedy, NotBelow, EndsWell, Inside, Opened, NoneEmpty, Unjoined, Untouched;
    assert [] + Flat(gs) == Flat(gs) && [] + Flat(gs') == Flat(gs');
    BehindFront(dup, was, gs, front, m, begun);
    RoundInside(dup, was, gs, front, m, v, ws, gs');
    forall i | 0 < i < |gs'|
      ensures EndsWell(dup, ovflsize, was, gs'[i - 1], gs'[i])
    {
      RoundSpaced(dup, ovflsize, was, gs, front, m, v, ws, gs', i);
    }
    front', m' := RoundUntouched(dup, was, gs, front, m, v, ws, gs');
  }

  lemma RoundUntouched(dup: bool, was: seq<seq<Pair>>, gs: seq<seq<Pair>>, front: nat, m: nat,
                       v: View, ws: seq<seq<Pair>>, gs': seq<seq<Pair>>)
    returns (front': nat, m': nat)
    requires front <= |gs| && m <= |was| && gs[front..] == was[m..] && front <= |v.pre|
    requires gs == v.pre + Written([], v.ps) + v.post && gs' == v.pre + ws + v.post
    requires v.st != [] ==> v.post != [] && v.post[0] != [] && !Less(dup, v.st[0], v.post[0][0])
    ensures Untouched(dup, was, gs', front', m', v.st)
  {
    hide Less;
    var taken := |v.pre| + |Written([], v.ps)|;
    front', m' := |v.pre + ws|, m + (taken - front);
    assert gs'[front'..] == v.post == gs[taken..] == gs[front..][taken - front..];
    assert was[m..][taken - front..] == was[m'..];
  }

  lemma RoundInside(dup: bool, was: seq<seq<Pair>>, gs: seq<seq<Pair>>, front: nat, m: nat,
                    v: View, ws: seq<seq<Pair>>, gs': seq<seq<Pair>>)
    requires Unjoined(dup, was, gs) && NoneEmpty(was) && NoneEmpty(gs') && Sorted(dup, Flat(was)) && Sorted(dup, Flat(gs'))
    requires front <= |gs| && m <= |was| && gs[front..] == was[m..] && front <= |v.pre|
    requires gs == v.pre + Written([], v.ps) + v.post && gs' == v.pre + ws + v.post
    requires v.ps == [] ==> v.pre == [] && m == 0
    requires NotBelow(dup, ws, v.ps, v.st)
    ensures Unjoined(dup, was, gs')
  {
    hide Less, Flat, Sorted, NotBelow, Inside, NoneEmpty;
    var k := |v.pre|;
    var idx := if v.ps == [] then -1 else m + (k - front);
    if v.ps != [] {
      OldAt(was, gs, front, m, k);
    }
    assert |gs| - front == |was| - m;
    if v.post != [] {
      OldAt(was, gs, front, m, |gs| - |v.post|);
    }
    forall i | 0 <= i < |gs'|
      ensures Inside(dup, was, gs'[i])
    {
      if i < k {
        assert gs'[i] == gs[i];
      } else if i < k + |ws| {
        WrittenInside(dup, was, idx, v.pre, ws, v.post, v.ps, v.st, i - k);
      } else {
        assert gs'[i] == v.post[i - k - |ws|] == gs[|gs| - |v.post| + (i - k - |ws|)];
      }
    }
  }

  /** The chunk taken is an old one. */
  lemma BehindFront(dup: bool, was: seq<seq<Pair>>, gs: seq<seq<Pair>>, front: nat, m: nat, v: View)
    requires Untouched(dup, was, gs, front, m, v.st) && Opened(dup, gs, v)
    ensures front <= |v.pre| && gs == v.pre + Written([], v.ps) + v.post
    ensures front <= |gs| && m <= |was| && gs[front..] == was[m..]
    ensures v.ps == [] ==> v.pre == [] && m == 0
  {
    hide Less;
    var n := |v.pre| + |Written([], v.ps)|;
    assert forall i :: n <= i < |gs| ==> gs[i] == v.post[i - n];
  }

  /** The stream pairs up to the first one already stored are added, nothing stored changes,
      and there is an error exactly when there is such a pair. */
  ghost predicate AddedUntilStored(was: seq<Pair>, stream: seq<Pair>, now: seq<Pair>, ret: Ret) {
    exists k: nat | NewUpTo(was, stream, k) ::
      && ret == (if k < |stream| then KeyExist else Ok)
      && forall x :: x in now <==> x in was || x in stream[..k]
  }

  /** The first of each run of equal stream pairs is stored, and stored pairs stay unless the
      stream has an equal one. */
  ghost predicate Overwritten(dup: bool, was: seq<Pair>, stream: seq<Pair>, now: seq<Pair>) {
    forall x :: x in now <==> LeadsRun(dup, stream, x) || (x in was && Unlike(dup, stream, x))
  }

  lemma UntilStored(was: seq<Pair>, stream: seq<Pair>, ret: Ret)
    requires Sorted(true, was) && WeaklySorted(true, stream)
    requires ret == if Collides(true, was, stream) then KeyExist else Ok
    ensures AddedUntilStored(was, stream, Merge(true, true, was, stream), ret)
  {
    hide Less, Merge, Collides, NewUpTo, Sorted, WeaklySorted;
    var k := AddsUntilStored(was, stream);
    NewPrefix(was, stream, k);
  }

  lemma NewPrefix(was: seq<Pair>, stream: seq<Pair>, k: nat)
    requires NewUpTo(was, stream, k)
    ensures k <= |stream|
  {
  }

  lemma AllOverwritten(dup: bool, was: seq<Pair>, stream: seq<Pair>)
    requires Sorted(dup, was) && WeaklySorted(dup, stream)
    ensures Overwritten(dup, was, stream, Merge(dup, false, was, stream))
  {
    hide Less, Merge, LeadsRun, Unlike, Sorted, WeaklySorted;
    forall x
      ensures x in Merge(dup, false, was, stream) <==> LeadsRun(dup, stream, x) || (x in was && Unlike(dup, stream, x))
    {
      MergeMembers(dup, was, stream, x);
    }
  }

  /** __bamc_compress_merge_insert. For every well-formed compressed database and every
      sorted stream the chunks afterwards hold the sorted merge, are well formed again, and
      each holds a single pair or fits in ovflsize bytes; a new chunk begins only where the
      chunk before is full, and no chunks are joined. The call fails exactly when sorted duplicates may not be replaced
      and some stream pair is already stored. */
  method Insert(c: Cursor, stream: seq<Pair>, flag: Flag) returns (ret: Ret)
    requires c.Valid() && AllSized(stream) && WeaklySorted(c.dup, stream)
    modifies c
    ensures c.Valid()
    ensures Flat(c.groups) == Merge(c.dup, NoReplace(c.dup, flag), old(Flat(c.groups)), stream)
    ensures Spaced(c.dup, c.ovflsize, old(c.groups), c.groups) && Unjoined(c.dup, old(c.groups), c.groups)
    ensures ret == if NoReplace(c.dup, flag) && Collides(c.dup, old(Flat(c.groups)), stream) then KeyExist else Ok
    ensures if c.dup && (flag == KeyFirst || flag == KeyLast || flag == NoDupData)
            then AddedUntilStored(old(Flat(c.groups)), stream, Flat(c.groups), ret)
            else ret == Ok && Overwritten(c.dup, old(Flat(c.groups)), stream, Flat(c.groups))
  {
    hide Less, Flat, Packed, Merge, Collides, Same, Spaced, Unjoined, AllSized, AddedUntilStored, Overwritten, Sorted, WeaklySorted;
    ghost var db := Flat(c.groups);
    ret := InsertAll(c, stream, NoReplace(c.dup, flag));
    if NoReplace(c.dup, flag) {
      UntilStored(db, stream, ret);
    } else {
      AllOverwritten(c.dup, db, stream);
    }
  }

  /** The outer loop. */
  method InsertAll(c: Cursor, stream: seq<Pair>, stop: bool) returns (ret: Ret)
    requires c.Valid() && AllSized(stream) && WeaklySorted(c.dup, stream)
    modifies c
    ensures c.Valid()
    ensures Flat(c.groups) == Merge(c.dup, stop, old(Flat(c.groups)), stream)
    ensures Spaced(c.dup, c.ovflsize, old(c.groups), c.groups) && Unjoined(c.dup, old(c.groups), c.groups)
    ensures ret == if stop && Collides(c.dup, old(Flat(c.groups)), stream) then KeyExist else Ok
  {
    hide Less, Flat, Packed, Merge, Collides, Same, Spaced, Unjoined, NoneEmpty, AllSized, Sorted, WeaklySorted;
    ghost var db, was := Flat(c.groups), c.groups;
    ShapeNoneEmpty(c);
    SpacedAtFirst(c.dup, c.ovflsize, was);
    UnjoinedAtFirst(c.dup, was);
    if stream == [] {
      MergeNothing(c.dup, stop, db);
      NoCollision(c.dup, db);
      return Ok;
    }
    ghost var goal, hit := Merge(c.dup, stop, db, stream), Collides(c.dup, db, stream);
    assert [] + db == db && [] + goal == goal;
    var dest := new DestBuf(c.ovflsize);
    var input := Input(stream[0], stream[0], One, 1, true, true);
    var bulk := false;
    ghost var st := stream;
    ghost var front: nat, m: nat := 0, 0;
    while input.more
      invariant c.Shape() && dest.Valid() && dest.pairs == [] && dest.ovflsize == c.ovflsize
      invariant fresh(dest) && fresh(dest.buf)
      invariant StreamOk(stream, input, st)
      invariant Inserting(c.dup, stop, [], Flat(c.groups), st, goal, hit, bulk)
      invariant Spaced(c.dup, c.ovflsize, was, c.groups) && Untouched(c.dup, was, c.groups, front, m, st)
      invariant Unjoined(c.dup, was, c.groups)
      decreases |st|
    {
      hide Inserting, Untouched;
      input, bulk, st, front, m := Round(c, dest, stream, stop, input, bulk, st, goal, hit, was, front, m);
    }
    MergeNothing(c.dup, stop, Flat(c.groups));
    NoCollision(c.dup, Flat(c.groups));
    assert [] + Flat(c.groups) == Flat(c.groups);
    ret := if bulk then KeyExist else Ok;
  }
}
