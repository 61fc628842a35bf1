/** __bamc_compress_merge_delete (db4/btree/bt_compress.c) refines deletion from the flat
    sequence, and its store without a flush loop never runs out of room. */
module MergeDelete {
  import opened Bytes
  import opened Chunks
  import opened PairMerge
  import opened CompressedTree
  import opened ChunkMerging

  /** The local variables: the stream item, the position after it, the copy of the last pair
      coded (pdestkey, pdestdata), and the flags. */
  datatype Locals = Locals(ikey: Pair, next: nat, prevDest: Option<Pair>,
                           more: bool, small: bool, moreCompressed: bool, bulk: bool)

  /** What the proof follows; see MergeInsert. */
  datatype View = View(pre: seq<seq<Pair>>, post: seq<seq<Pair>>, ps: seq<Pair>, i: nat,
                       st: seq<Pair>, goal: seq<Pair>, hit: bool)

  function Pending(moreCompressed: bool, v: View): seq<Pair>
    requires v.i <= |v.ps|
  {
    (if moreCompressed then v.ps[v.i..] else []) + Flat(v.post)
  }

  ghost predicate StreamOk(stream: seq<Pair>, f: Locals, st: seq<Pair>) {
    f.next <= |stream| &&
    if f.more then f.next > 0 && st == stream[f.next - 1..] && f.ikey == st[0] else st == [] && !f.small
  }

  ghost predicate SmallOk(dup: bool, small: bool, st: seq<Pair>, post: seq<seq<Pair>>) {
    (post != [] ==> post[0] != []) &&
    (st != [] ==>
       if small then post == [] || Less(dup, st[0], post[0][0])
       else post != [] && !Less(dup, st[0], post[0][0]))
  }

  /** Deleting, together with what is known about the return code. */
  ghost predicate Removing(dup: bool, left: seq<Pair>, right: seq<Pair>, st: seq<Pair>, goal: seq<Pair>,
                           hit: bool, bulk: bool) {
    Deleting(dup, left, right, st, goal) && (hit <==> bulk || Misses(dup, right, st))
  }

  /** The chunk being built is what is left of the part of ps already looked at, so it never
      needs more room than ps did. */
  ghost predicate Room(ovflsize: nat, kept: seq<Pair>, ps: seq<Pair>, i: nat) {
    && i <= |ps| && (ps != [] ==> Fits(ovflsize, ps))
    && KeysContiguous(ps) && Subsequence(kept, ps[..i])
  }

  ghost predicate Mid(c: Cursor, dest: DestBuf, stream: seq<Pair>, f: Locals, v: View)
    reads c, dest, dest.buf
  {
    && c.Shape() && dest.Valid() && dest.ovflsize == c.ovflsize
    && c.groups == v.pre + v.post
    && Room(c.ovflsize, dest.pairs, v.ps, v.i)
    && Removing(c.dup, Flat(v.pre) + dest.pairs, Pending(f.moreCompressed, v), v.st, v.goal, v.hit, f.bulk)
    && (f.moreCompressed ==> c.Positioned(v.ps, v.i))
    && StreamOk(stream, f, v.st)
    && SmallOk(c.dup, f.small, v.st, v.post)
    && f.prevDest == if dest.pairs == [] then None else Some(dest.pairs[|dest.pairs| - 1])
  }

  // ---------------------------------------------------------------- what becomes of the chunks

  /** Every chunk is what is left of an old one, in the order of the old ones. */
  ghost predicate Thinned(gs: seq<seq<Pair>>, was: seq<seq<Pair>>) {
    if was == [] then gs == []
    else
      || Thinned(gs, was[1..])
      || (gs != [] && gs[0] != [] && Subsequence(gs[0], was[0]) && Thinned(gs[1..], was[1..]))
  }

  function Left(kept: seq<Pair>): seq<seq<Pair>> {
    if kept == [] then [] else [kept]
  }

  lemma {:induction false} SubsequenceTransitive(a: seq<Pair>, b: seq<Pair>, c: seq<Pair>)
    requires Subsequence(a, b) && Subsequence(b, c)
    ensures Subsequence(a, c)
    decreases |c|
  {
    if a != [] && b != [] {
      var init := c[..|c| - 1];
      if Subsequence(b, init) {
        SubsequenceTransitive(a, b, init);
      } else if Subsequence(a, b[..|b| - 1]) {
        SubsequenceTransitive(a, b[..|b| - 1], init);
      } else {
        SubsequenceTransitive(a[..|a| - 1], b[..|b| - 1], init);
      }
    }
  }

  lemma {:induction false} SubsequenceOfPart(qs: seq<Pair>, ps: seq<Pair>, i: nat)
    requires i <= |ps| && Subsequence(qs, ps[..i])
    ensures Subsequence(qs, ps)
    decreases |ps| - i
  {
    if i == |ps| {
      assert ps[..i] == ps;
    } else {
      assert ps[..i + 1][..i] == ps[..i];
      SubsequenceOfPart(qs, ps, i + 1);
    }
  }

  lemma {:induction false} ThinnedAtFirst(gs: seq<seq<Pair>>)
    requires forall i :: 0 <= i < |gs| ==> gs[i] != []
    ensures Thinned(gs, gs)
  {
    if gs != [] {
      SubsequenceSelf(gs[0]);
      ThinnedAtFirst(gs[1..]);
    }
  }

  /** A chunk of which a part is kept. */
  lemma {:induction false} ThinnedMore(pre: seq<seq<Pair>>, ps: seq<Pair>, post: seq<seq<Pair>>, kept: seq<Pair>,
                                       was: seq<seq<Pair>>)
    requires Thinned(pre + [ps] + post, was) && Subsequence(kept, ps)
    ensures Thinned(pre + Left(kept) + post, was)
    decreases |was|
  {
    hide Subsequence;
    var gs, gs' := pre + [ps] + post, pre + Left(kept) + post;
    if Thinned(gs, was[1..]) {
      ThinnedMore(pre, ps, post, kept, was[1..]);
    } else if pre == [] {
      assert gs[1..] == post;
      SubsequenceTransitive(kept, ps, was[0]);
      if kept == [] {
        assert gs' == post;
      } else {
        assert gs'[1..] == post;
      }
    } else {
      assert gs[1..] == pre[1..] + [ps] + post && gs'[1..] == pre[1..] + Left(kept) + post;
      ThinnedMore(pre[1..], ps, post, kept, was[1..]);
    }
  }

  // ---------------------------------------------------------------- steps on values

  lemma RemovingKeeps(dup: bool, left: seq<Pair>, right: seq<Pair>, st: seq<Pair>, goal: seq<Pair>, hit: bool, bulk: bool)
    requires Removing(dup, left, right, st, goal, hit, bulk) && right != []
    requires st == [] || Less(dup, right[0], st[0])
    ensures Removing(dup, left + [right[0]], right[1..], st, goal, hit, bulk)
  {
    KeepUndeleted(dup, left, right, st, goal);
    hide Less, Same, Misses, Remove;
    assert [right[0]] + right[1..] == right;
    MissesBeyond(dup, [right[0]], right[1..], st);
  }

  lemma RemovingDrops(dup: bool, left: seq<Pair>, right: seq<Pair>, st: seq<Pair>, goal: seq<Pair>, hit: bool, bulk: bool)
    requires Removing(dup, left, right, st, goal, hit, bulk)
    requires right != [] && st != [] && Same(dup, right[0], st[0])
    ensures Removing(dup, left, right[1..], st[1..], goal, hit, bulk)
  {
    DropDeleted(dup, left, right, st, goal);
    SortedParts(dup, left, right);
    MissesAfterDropping(dup, right, st);
  }

  lemma RemovingStops(dup: bool, left: seq<Pair>, right: seq<Pair>, st: seq<Pair>, goal: seq<Pair>, hit: bool, bulk: bool)
    requires Removing(dup, left, right, st, goal, hit, bulk)
    requires st != [] && (right == [] || Less(dup, st[0], right[0]))
    ensures Removing(dup, left, right, [], goal, hit, true) && hit && goal == left + right
  {
    StopAtMissing(dup, left, right, st, goal);
  }

  lemma RemovingResplit(dup: bool, left: seq<Pair>, right: seq<Pair>, left': seq<Pair>, right': seq<Pair>,
                        st: seq<Pair>, goal: seq<Pair>, hit: bool, bulk: bool)
    requires Removing(dup, left, right, st, goal, hit, bulk)
    requires left + right == left' + right' && (st != [] ==> Below(dup, left', st[0]))
    ensures Removing(dup, left', right', st, goal, hit, bulk)
  {
    ResplitDeleting(dup, left, right, left', right', st, goal);
    hide Less, Same, Misses, Remove, Sorted;
    MissesBeyond(dup, left, right, st);
    MissesBeyond(dup, left', right', st);
  }

  lemma SortedContiguous(dup: bool, ps: seq<Pair>)
    requires Sorted(dup, ps)
    ensures KeysContiguous(ps)
  {
    hide Compare;
    forall i, j, k | 0 <= i < j < k < |ps| && ps[i].key == ps[k].key ensures ps[j].key == ps[i].key {
      assert Less(dup, ps[i], ps[j]) && Less(dup, ps[j], ps[k]);
      CompareIsDictionaryOrder(ps[i].key, ps[j].key);
      CompareIsDictionaryOrder(ps[j].key, ps[k].key);
    }
  }

  lemma {:induction false} SubsequenceSize(qs: seq<Pair>, ps: seq<Pair>)
    requires Subsequence(qs, ps)
    ensures |qs| <= |ps|
  {
    if qs != [] {
      if Subsequence(qs, ps[..|ps| - 1]) {
        SubsequenceSize(qs, ps[..|ps| - 1]);
      } else {
        SubsequenceSize(qs[..|qs| - 1], ps[..|ps| - 1]);
      }
    }
  }

  /** Adding the stored pair at hand to the pairs kept so far: the result is still a
      subsequence of the old chunk, and fits wherever the old chunk did. */
  lemma RoomForNext(ovflsize: nat, kept: seq<Pair>, ps: seq<Pair>, i: nat)
    requires Room(ovflsize, kept, ps, i) && i < |ps|
    ensures Room(ovflsize, kept + [ps[i]], ps, i + 1)
    ensures kept != [] ==> ChunkSize(kept + [ps[i]]) <= ovflsize
  {
    hide ChunkSize, KeysContiguous;
    var upto, now := ps[..i + 1], kept + [ps[i]];
    assert upto[..i] == ps[..i] && now[..|kept|] == kept;
    assert Subsequence(now, upto);
    assert KeysContiguous(upto) by { ContiguousUpTo(ps, i + 1); }
    if kept != [] {
      SubsequenceSize(kept, ps[..i]);
      ReencodingFits(upto, now);
      if i + 1 < |ps| {
        ChunkPrefix(ps, i + 1);
      } else {
        assert upto == ps;
      }
    }
  }

  lemma ContiguousUpTo(ps: seq<Pair>, k: nat)
    requires KeysContiguous(ps) && k <= |ps|
    ensures KeysContiguous(ps[..k])
  {
    assert forall i :: 0 <= i < k ==> ps[..k][i] == ps[i];
  }

  lemma RoomSkipping(ovflsize: nat, kept: seq<Pair>, ps: seq<Pair>, i: nat)
    requires Room(ovflsize, kept, ps, i) && i < |ps|
    ensures Room(ovflsize, kept, ps, i + 1)
  {
    hide ChunkSize, KeysContiguous;
    assert ps[..i + 1][..i] == ps[..i];
  }

  // ---------------------------------------------------------------- the loop

  /** The end of an iteration with cmp <= 0: decompress the next stored pair. The copied
      previous pair does not change when the buffers do. */
  method NextStored(c: Cursor, ghost v: View, moreCompressed: bool) returns (moreCompressed': bool)
    requires v.i < |v.ps| && c.Positioned(v.ps, v.i) && moreCompressed
    modifies c`one, c`two, c`current, c`prev, c`compcursor, c`prevcursor, c`prev2cursor
    ensures moreCompressed' ==> c.Positioned(v.ps, v.i + 1)
    ensures v.ps[v.i + 1..] == if moreCompressed' then v.ps[v.i + 1..] else []
  {
    hide ChunkBytes, ChunkSize, Offset, AllSized;
    ghost var resizes;
    var ret;
    ret, resizes := c.NextDecompress(v.ps, v.i);
    moreCompressed' := ret != NotFound;
  }

  /** cmp < 0: the stored pair stays. Storing it cannot fail. */
  method KeepCurrent(c: Cursor, dest: DestBuf, stream: seq<Pair>, f: Locals, ghost v: View)
    returns (f': Locals, ghost v': View)
    requires Mid(c, dest, stream, f, v) && f.moreCompressed && v.i < |v.ps|
    requires v.st == [] || Less(c.dup, v.ps[v.i], v.st[0])
    modifies c, dest, dest.buf
    ensures dest.buf == old(dest.buf) || fresh(dest.buf)
    ensures Mid(c, dest, stream, f', v') && v' == v.(i := v.i + 1)
    ensures f' == f.(prevDest := f'.prevDest, moreCompressed := f'.moreCompressed)
  {
    hide Flat, Less, Packed, SmallOk, Fits, ChunkBytes, ChunkSize, Offset, Removing, Room;
    KeepFacts(c.dup, c.ovflsize, dest.pairs, v, f.bulk);
    var cur := c.Content(c.current);
    var ret := dest.Store(cur, f.prevDest);
    assert ret == Ok;  // never DB_BUFFER_SMALL
    v' := v.(i := v.i + 1);
    var more := NextStored(c, v, f.moreCompressed);
    f' := f.(prevDest := Some(cur), moreCompressed := more);
  }

  lemma KeepFacts(dup: bool, ovflsize: nat, pairs: seq<Pair>, v: View, bulk: bool)
    requires v.i < |v.ps| && Room(ovflsize, pairs, v.ps, v.i)
    requires Removing(dup, Flat(v.pre) + pairs, Pending(true, v), v.st, v.goal, v.hit, bulk)
    requires v.st == [] || Less(dup, v.ps[v.i], v.st[0])
    ensures Removing(dup, Flat(v.pre) + (pairs + [v.ps[v.i]]), v.ps[v.i + 1..] + Flat(v.post), v.st, v.goal, v.hit, bulk)
    ensures Room(ovflsize, pairs + [v.ps[v.i]], v.ps, v.i + 1)
    ensures pairs != [] ==> ChunkSize(pairs + [v.ps[v.i]]) <= ovflsize
  {
    hide Flat, Less, Removing, Room, ChunkSize;
    var left, right := Flat(v.pre) + pairs, Pending(true, v);
    assert right[0] == v.ps[v.i] && right[1..] == v.ps[v.i + 1..] + Flat(v.post);
    assert left + [v.ps[v.i]] == Flat(v.pre) + (pairs + [v.ps[v.i]]);
    RemovingKeeps(dup, left, right, v.st, v.goal, v.hit, bulk);
    RoomForNext(ovflsize, pairs, v.ps, v.i);
  }

  lemma DropFacts(dup: bool, ovflsize: nat, pairs: seq<Pair>, v: View, bulk: bool)
    requires v.i < |v.ps| && Room(ovflsize, pairs, v.ps, v.i) && v.st != [] && Same(dup, v.ps[v.i], v.st[0])
    requires Removing(dup, Flat(v.pre) + pairs, Pending(true, v), v.st, v.goal, v.hit, bulk)
    ensures Removing(dup, Flat(v.pre) + pairs, v.ps[v.i + 1..] + Flat(v.post), v.st[1..], v.goal, v.hit, bulk)
    ensures Room(ovflsize, pairs, v.ps, v.i + 1)
  {
    hide Flat, Same, Removing, Room;
    var left, right := Flat(v.pre) + pairs, Pending(true, v);
    assert right[0] == v.ps[v.i] && right[1..] == v.ps[v.i + 1..] + Flat(v.post);
    RemovingDrops(dup, left, right, v.st, v.goal, v.hit, bulk);
    RoomSkipping(ovflsize, pairs, v.ps, v.i);
  }

  /** Takes the next pair off the stream. */
  method Advance(dup: bool, stream: seq<Pair>, f: Locals, nextKey: Option<Pair>, ghost st: seq<Pair>) returns (f': Locals)
    requires StreamOk(stream, f, st) && st != [] && f.small
    ensures StreamOk(stream, f', st[1..]) && f' == f.(ikey := f'.ikey, next := f'.next, more := f'.more, small := f'.small)
    ensures f'.more ==> (f'.small <==> nextKey == None || Less(dup, f'.ikey, nextKey.value))
  {
    hide Less;
    if f.next == |stream| {
      return f.(more := false, small := false);
    }
    var p := stream[f.next];
    return f.(ikey := p, next := f.next + 1, small := nextKey == None || Less(dup, p, nextKey.value));
  }

  /** cmp == 0: the stored pair goes. */
  method DropCurrent(c: Cursor, dest: DestBuf, stream: seq<Pair>, f: Locals, ghost v: View, nextKey: Option<Pair>)
    returns (f': Locals, ghost v': View)
    requires Mid(c, dest, stream, f, v) && f.moreCompressed && v.i < |v.ps| && NextKeyOk(v.post, nextKey)
    requires v.st != [] && f.small && Same(c.dup, v.ps[v.i], v.st[0])
    modifies c
    ensures Mid(c, dest, stream, f', v') && v' == v.(i := v.i + 1, st := v.st[1..])
  {
    hide Flat, Less, Same, Packed, Fits, ChunkBytes, ChunkSize, Offset, AllSized, Removing, Room;
    DropFacts(c.dup, c.ovflsize, dest.pairs, v, f.bulk);
    f' := Advance(c.dup, stream, f, nextKey, v.st);
    v' := v.(i := v.i + 1, st := v.st[1..]);
    var more := NextStored(c, v, f.moreCompressed);
    f' := f'.(moreCompressed := more);
  }

  /** cmp > 0: the stream pair is not stored. The rest of the chunk is still kept, but
      nothing more is deleted. */
  method MissStream(c: Cursor, dest: DestBuf, stream: seq<Pair>, f: Locals, ghost v: View)
    returns (f': Locals, ghost v': View)
    requires Mid(c, dest, stream, f, v)
    requires v.st != [] && f.small
    requires Pending(f.moreCompressed, v) == [] || Less(c.dup, v.st[0], Pending(f.moreCompressed, v)[0])
    ensures Mid(c, dest, stream, f', v') && v' == v.(st := []) && f'.moreCompressed == f.moreCompressed
  {
    hide Flat, Less, Packed, Fits, ChunkBytes, ChunkSize, Offset, Room;
    PositionInside(c, dest, stream, f, v);
    RemovingStops(c.dup, Flat(v.pre) + dest.pairs, Pending(f.moreCompressed, v), v.st, v.goal, v.hit, f.bulk);
    hide Removing;
    v' := v.(st := []);
    f' := f.(bulk := true, more := false, small := false);
    if f.next < |stream| {
      f' := f'.(ikey := stream[f.next], next := f.next + 1);
    }
  }

  lemma FrontOfNext(dup: bool, small: bool, v: View)
    requires v.i <= |v.ps| && small && v.st != [] && SmallOk(dup, small, v.st, v.post)
    ensures Pending(false, v) == [] || Less(dup, v.st[0], Pending(false, v)[0])
  {
    hide Less;
    assert Pending(false, v) == Flat(v.post);
    if v.post != [] {
      HeadOfFlat(v.post);
    }
  }

  lemma PendingSorted(dup: bool, v: View, left: seq<Pair>, bulk: bool)
    requires v.i <= |v.ps| && Removing(dup, left, Pending(true, v), v.st, v.goal, v.hit, bulk)
    ensures Sorted(dup, left + (v.ps[v.i..] + Flat(v.post)))
  {
    hide Less, Flat, Remove, Misses;
  }

  /** One iteration of the inner loop. */
  method Step(c: Cursor, dest: DestBuf, stream: seq<Pair>, f: Locals, ghost v: View, nextKey: Option<Pair>)
    returns (f': Locals, ghost v': View)
    requires Mid(c, dest, stream, f, v) && NextKeyOk(v.post, nextKey)
    requires f.moreCompressed || f.small
    modifies c, dest, dest.buf
    ensures dest.buf == old(dest.buf) || fresh(dest.buf)
    ensures Mid(c, dest, stream, f', v') && v' == v.(i := v'.i, st := v'.st)
    ensures |v'.st| <= |v.st| && v'.i >= v.i && (|v'.st| < |v.st| || v'.i > v.i)
    ensures f'.small != f.small ==> |v'.st| < |v.st|
  {
    hide Flat, Less, Same, Packed, Fits, ChunkBytes, ChunkSize, Offset, Removing, Room, AllSized, CompareBoth;
    PositionInside(c, dest, stream, f, v);
    if !f.moreCompressed {
      FrontOfNext(c.dup, f.small, v);
      f', v' := MissStream(c, dest, stream, f, v);
    } else if !f.small {
      if v.st != [] {
        PendingSorted(c.dup, v, Flat(v.pre) + dest.pairs, f.bulk);
        PendingBelowNext(c.dup, Flat(v.pre) + dest.pairs, v.ps[v.i..], v.post, v.st[0]);
      }
      f', v' := KeepCurrent(c, dest, stream, f, v);
    } else {
      f', v' := Compared(c, dest, stream, f, v, nextKey);
    }
  }

  lemma PositionInside(c: Cursor, dest: DestBuf, stream: seq<Pair>, f: Locals, v: View)
    requires Mid(c, dest, stream, f, v)
    ensures v.i <= |v.ps| && (f.moreCompressed ==> v.i < |v.ps|)
  {
  }

  /** An iteration that compares the stored pair with the stream pair. */
  method Compared(c: Cursor, dest: DestBuf, stream: seq<Pair>, f: Locals, ghost v: View, nextKey: Option<Pair>)
    returns (f': Locals, ghost v': View)
    requires Mid(c, dest, stream, f, v) && NextKeyOk(v.post, nextKey)
    requires f.moreCompressed && f.small && v.i < |v.ps|
    modifies c, dest, dest.buf
    ensures dest.buf == old(dest.buf) || fresh(dest.buf)
    ensures Mid(c, dest, stream, f', v') && v' == v.(i := v'.i, st := v'.st)
    ensures |v'.st| <= |v.st| && v'.i >= v.i && (|v'.st| < |v.st| || v'.i > v.i)
    ensures f'.small != f.small ==> |v'.st| < |v.st|
  {
    hide Flat, Packed, Fits, ChunkBytes, ChunkSize, Offset, Removing, Room, AllSized, CompareBoth, SmallOk;
    assert Pending(f.moreCompressed, v)[0] == v.ps[v.i];
    OrderFacts(c.dup, v.ps[v.i], v.st[0]);
    var cmp := CompareBoth(c.dup, c.Content(c.current), f.ikey);
    if cmp < 0 {
      f', v' := KeepCurrent(c, dest, stream, f, v);
    } else if cmp == 0 {
      f', v' := DropCurrent(c, dest, stream, f, v, nextKey);
    } else {
      f', v' := MissStream(c, dest, stream, f, v);
    }
  }

  /** The inner loop. */
  method MergeChunk(c: Cursor, dest: DestBuf, stream: seq<Pair>, f: Locals, ghost v: View, nextKey: Option<Pair>)
    returns (f': Locals, ghost v': View)
    requires Mid(c, dest, stream, f, v) && NextKeyOk(v.post, nextKey) && f.small
    modifies c, dest, dest.buf
    ensures dest.buf == old(dest.buf) || fresh(dest.buf)
    ensures Mid(c, dest, stream, f', v') && !f'.moreCompressed && !f'.small
    ensures |v'.st| < |v.st| && v' == v.(i := v'.i, st := v'.st)
  {
    f', v' := f, v;
    while f'.moreCompressed || f'.small
      invariant dest.buf == old(dest.buf) || fresh(dest.buf)
      invariant Mid(c, dest, stream, f', v') && v' == v.(i := v'.i, st := v'.st)
      invariant |v'.st| <= |v.st| && (!f'.small ==> |v'.st| < |v.st|)
      decreases |v'.st|, |v'.ps| - v'.i
    {
      hide Mid;
      f', v' := Step(c, dest, stream, f', v', nextKey);
      PositionInside(c, dest, stream, f', v');
    }
  }

  /** The start of an iteration of the outer loop, when a chunk for the stream pair exists. */
  method Begin(c: Cursor, dest: DestBuf, stream: seq<Pair>, f: Locals, k: nat,
               ghost st: seq<Pair>, ghost goal: seq<Pair>, ghost hit: bool)
    returns (f': Locals, ghost v: View, nextKey: Option<Pair>)
    requires c.Shape() && dest.Valid() && dest.pairs == [] && dest.ovflsize == c.ovflsize
    requires StreamOk(stream, f, st) && st != []
    requires Removing(c.dup, [], Flat(c.groups), st, goal, hit, f.bulk)
    requires k < |c.groups| && !Less(c.dup, st[0], c.groups[k][0])
    requires forall i :: k < i < |c.groups| ==> Less(c.dup, st[0], c.groups[i][0])
    modifies c
    ensures Mid(c, dest, stream, f', v) && NextKeyOk(v.post, nextKey)
    ensures f' == f.(small := true, moreCompressed := true, prevDest := None)
    ensures v.st == st && v.goal == goal && v.hit == hit
    ensures old(c.groups) == v.pre + [v.ps] + v.post
  {
    hide Less, Flat, Fits, Pack, ChunkBytes, ChunkSize, Offset, Removing, AllSized, Packed, Subsequence, KeysContiguous;
    v := BeginChunk(c, k, st, goal, hit, f.bulk);
    nextKey := TakeChunk(c, k);
    f' := f.(small := true, moreCompressed := true, prevDest := None);
    assert v.ps[v.i..] == v.ps;
  }

  lemma BeginChunk(c: Cursor, k: nat, st: seq<Pair>, goal: seq<Pair>, hit: bool, bulk: bool) returns (v: View)
    requires c.Shape() && k < |c.groups| && st != [] && !Less(c.dup, st[0], c.groups[k][0])
    requires Removing(c.dup, [], Flat(c.groups), st, goal, hit, bulk)
    ensures v == View(c.groups[..k], c.groups[k + 1..], c.groups[k], 0, st, goal, hit)
    ensures Removing(c.dup, Flat(v.pre) + [], v.ps + Flat(v.post), st, goal, hit, bulk)
    ensures Room(c.ovflsize, [], v.ps, 0)
  {
    hide Less, Flat, Fits, Pack, Misses, Remove, AllSized, ChunkSize, KeysContiguous, ChunkBytes;
    v := View(c.groups[..k], c.groups[k + 1..], c.groups[k], 0, st, goal, hit);
    SplitAround(c.groups, k);
    var left, right := Flat(v.pre), v.ps + Flat(v.post);
    assert [] + Flat(c.groups) == left + right && left + [] == left;
    BelowSought(c.dup, left, v.ps, Flat(v.post), st[0]);
    RemovingResplit(c.dup, [], Flat(c.groups), left, right, st, goal, hit, bulk);
    SortedParts(c.dup, left, right);
    SortedParts(c.dup, v.ps, Flat(v.post));
    SortedContiguous(c.dup, v.ps);
  }

  /** The end of an iteration of the outer loop: write what is left of the chunk, if
      anything is. */
  method Finish(c: Cursor, dest: DestBuf, stream: seq<Pair>, f: Locals, ghost v: View)
    requires Mid(c, dest, stream, f, v) && !f.moreCompressed
    modifies c`tree, c`groups, dest`size, dest`pairs
    ensures c.Shape() && dest.Valid() && dest.pairs == []
    ensures Removing(c.dup, [], Flat(c.groups), v.st, v.goal, v.hit, f.bulk)
    ensures c.groups == v.pre + Left(old(dest.pairs)) + v.post
  {
    hide Less, Flat, Packed, Fits, ChunkBytes, ChunkSize, Offset, Remove, Misses, AllSized, Room;
    ghost var was := dest.pairs;
    PositionInside(c, dest, stream, f, v);
    assert Pending(f.moreCompressed, v) == Flat(v.post);
    if f.prevDest != None {
      Flush(c, dest, v.pre, v.post);
      FlatConcat(v.pre + [was], v.post);
    } else {
      FlatConcat(v.pre, v.post);
    }
    assert Flat(c.groups) == Flat(v.pre) + was + Flat(v.post);
    assert [] + Flat(c.groups) == Flat(c.groups);
    RemovingResplit(c.dup, Flat(v.pre) + was, Flat(v.post), [], Flat(c.groups), v.st, v.goal, v.hit, f.bulk);
  }

  lemma KeptPart(c: Cursor, dest: DestBuf, stream: seq<Pair>, f: Locals, v: View)
    requires Mid(c, dest, stream, f, v)
    ensures Subsequence(dest.pairs, v.ps)
  {
    hide Subsequence;
    SubsequenceOfPart(dest.pairs, v.ps, v.i);
  }

  lemma NoEmptyChunk(c: Cursor)
    requires c.Shape()
    ensures forall i :: 0 <= i < |c.groups| ==> c.groups[i] != []
  {
    hide Pack, Fits, AllSized;
  }

  /** No chunk starts at or below the stream pair: it is not stored. */
  lemma NotStored(c: Cursor, st: seq<Pair>, goal: seq<Pair>, hit: bool, bulk: bool)
    requires c.Shape() && st != [] && forall i :: 0 <= i < |c.groups| ==> Less(c.dup, st[0], c.groups[i][0])
    requires Removing(c.dup, [], Flat(c.groups), st, goal, hit, bulk)
    ensures hit && goal == Flat(c.groups)
  {
    hide Less, Removing, Pack, Fits, AllSized;
    if c.groups != [] {
      HeadOfFlat(c.groups);
    }
    RemovingStops(c.dup, [], Flat(c.groups), st, goal, hit, bulk);
    assert [] + Flat(c.groups) == Flat(c.groups);
  }

  /** __bamc_compress_merge_delete. For every well-formed compressed database and every
      sorted stream, the stream's pairs are removed up to the first that is not stored any
      more when its turn comes, nothing else changes, and the call fails exactly when there
      is such a pair; DB_BUFFER_SMALL never comes out. */
  method Delete(c: Cursor, stream: seq<Pair>) returns (ret: Ret)
    requires c.Valid() && WeaklySorted(c.dup, stream)
    modifies c
    ensures c.Valid()
    ensures Flat(c.groups) == Remove(c.dup, old(Flat(c.groups)), stream)
    ensures ret == if Misses(c.dup, old(Flat(c.groups)), stream) then NotFound else Ok
    ensures Thinned(c.groups, old(c.groups))
  {
    hide Less, Flat, Packed, Remove, Same, Misses, Thinned;
    NoEmptyChunk(c);
    ThinnedAtFirst(c.groups);
    ghost var db := Flat(c.groups);
    ghost var goal, hit := Remove(c.dup, db, stream), Misses(c.dup, db, stream);
    if stream == [] {
      RemoveNothing(c.dup, db);
      return Ok;
    }
    assert [] + db == db && [] + goal == goal;
    ret := Run(c, stream, goal, hit);
  }

  /** The outer loop. */
  method Run(c: Cursor, stream: seq<Pair>, ghost goal: seq<Pair>, ghost hit: bool) returns (ret: Ret)
    requires c.Shape() && stream != []
    requires Removing(c.dup, [], Flat(c.groups), stream, goal, hit, false)
    modifies c
    ensures c.Valid() && Flat(c.groups) == goal && ret == if hit then NotFound else Ok
    ensures Thinned(c.groups, old(c.groups))
  {
    hide Less, Flat, Packed, Removing, Thinned;
    NoEmptyChunk(c);
    ghost var was := c.groups;
    ThinnedAtFirst(was);
    var dest := new DestBuf(c.ovflsize);
    var f := Locals(stream[0], 1, None, true, true, true, false);
    ghost var st := stream;
    while f.more
      invariant c.Shape() && dest.Valid() && dest.pairs == [] && dest.ovflsize == c.ovflsize
      invariant fresh(dest) && fresh(dest.buf)
      invariant StreamOk(stream, f, st)
      invariant Removing(c.dup, [], Flat(c.groups), st, goal, hit, f.bulk)
      invariant Thinned(c.groups, was)
      decreases |st|
    {
      var found, k := c.SeekLte(f.ikey);
      if !found {
        EndSorted(c, st, goal, hit, f.bulk);
        NotStored(c, st, goal, hit, f.bulk);
        return NotFound;
      }
      ghost var v;
      var nextKey;
      f, v, nextKey := Begin(c, dest, stream, f, k, st, goal, hit);
      f, v := MergeChunk(c, dest, stream, f, v, nextKey);
      KeptPart(c, dest, stream, f, v);
      ThinnedMore(v.pre, v.ps, v.post, dest.pairs, was);
      Finish(c, dest, stream, f, v);
      st := v.st;
    }
    EndSorted(c, st, goal, hit, f.bulk);
    ret := if f.bulk then NotFound else Ok;
  }

  lemma RemoveNothing(dup: bool, cs: seq<Pair>)
    ensures Remove(dup, cs, []) == cs && !Misses(dup, cs, [])
  {
  }

  lemma EndSorted(c: Cursor, st: seq<Pair>, goal: seq<Pair>, hit: bool, bulk: bool)
    requires c.Shape() && Removing(c.dup, [], Flat(c.groups), st, goal, hit, bulk)
    ensures c.Valid() && (st == [] ==> goal == Flat(c.groups) && hit == bulk)
  {
    RemoveNothing(c.dup, Flat(c.groups));
    hide Less, Flat, Packed, Remove, Misses;
    assert [] + Flat(c.groups) == Flat(c.groups);
    assert [] + Remove(c.dup, Flat(c.groups), st) == Remove(c.dup, Flat(c.groups), st);
  }
}
