/** What the two chunk merges of db4/btree/bt_compress.c share: taking a chunk out of the
    tree, looking at the next one, and writing the chunk built so far. */
module ChunkMerging {
  import opened Bytes
  import opened Chunks
  import opened PairMerge
  import opened CompressedTree

  lemma {:induction false} FirstInFlat(gs: seq<seq<Pair>>, i: nat) returns (n: nat)
    requires i < |gs| && gs[i] != []
    ensures n < |Flat(gs)| && Flat(gs)[n] == gs[i][0]
  {
    GroupInFlat(gs, i, 0);
    n := |Flat(gs[..i])|;
  }

  /** A pending chunk belongs between the chunks before and after it. */
  lemma ForkBetween(dup: bool, before: seq<seq<Pair>>, ps: seq<Pair>, after: seq<seq<Pair>>)
    requires ps != [] && Sorted(dup, Flat(before) + ps + Flat(after))
    requires forall i :: 0 <= i < |before + after| ==> (before + after)[i] != []
    ensures Fork(dup, before + after, ps[0], |before|)
  {
    hide Less, Flat;
    var all, gs := Flat(before) + ps + Flat(after), before + after;
    assert all[|Flat(before)|] == ps[0];
    forall i | 0 <= i < |before| ensures Less(dup, gs[i][0], ps[0]) {
      assert gs[i] == before[i];
      var n := FirstInFlat(before, i);
      assert all[n] == gs[i][0];
    }
    forall i | |before| <= i < |gs| ensures Less(dup, ps[0], gs[i][0]) {
      assert gs[i] == after[i - |before|];
      var n := FirstInFlat(after, i - |before|);
      assert all[|Flat(before)| + |ps| + n] == gs[i][0];
    }
  }

  /** Writes the chunk built so far to the tree. */
  method Flush(c: Cursor, dest: DestBuf, ghost before: seq<seq<Pair>>, ghost after: seq<seq<Pair>>)
    requires c.Shape() && dest.Valid() && dest.ovflsize == c.ovflsize && dest.pairs != []
    requires c.groups == before + after
    requires Sorted(c.dup, Flat(before) + dest.pairs + Flat(after))
    modifies c`tree, c`groups, dest`size, dest`pairs
    ensures c.Shape() && dest.Valid() && dest.pairs == []
    ensures c.groups == before + [old(dest.pairs)] + after
    ensures Flat(before + [old(dest.pairs)]) == Flat(before) + old(dest.pairs)
  {
    hide Flat, Fits, ChunkBytes, AllSized;
    ForkBetween(c.dup, before, dest.pairs, after);
    FlatConcat(before, [dest.pairs]);
    FlatOne(dest.pairs);
    var chunk := Chunk(dest.key, dest.buf[..dest.size]);
    c.PutChunk(chunk, dest.pairs, |before|);
    dest.Clear();
  }

  lemma SortedEnds(dup: bool, a: seq<Pair>, b: seq<Pair>, c: seq<Pair>)
    requires Sorted(dup, a + (b + c))
    ensures Sorted(dup, a + c)
  {
    hide Less;
    var was, now := a + (b + c), a + c;
    assert forall i :: 0 <= i < |now| ==> now[i] == was[if i < |a| then i else i + |b|];
  }

  lemma TakenSorted(dup: bool, gs: seq<seq<Pair>>, k: nat)
    requires Sorted(dup, Flat(gs)) && k < |gs|
    ensures Sorted(dup, gs[k])
  {
    hide Less, Flat, Sorted;
    SplitAround(gs, k);
    SortedParts(dup, Flat(gs[..k]), gs[k] + Flat(gs[k + 1..]));
    SortedParts(dup, gs[k], Flat(gs[k + 1..]));
  }

  /** Pairs of different chunks are in the order of the chunks. */
  lemma ChunksInOrder(dup: bool, gs: seq<seq<Pair>>, i: nat, a: nat, j: nat, b: nat)
    requires Sorted(dup, Flat(gs)) && i < j < |gs| && a < |gs[i]| && b < |gs[j]|
    ensures Less(dup, gs[i][a], gs[j][b])
  {
    hide Less, Flat;
    GroupInFlat(gs, i, a);
    GroupInFlat(gs, j, b);
    assert gs[..j] == gs[..i] + ([gs[i]] + gs[i + 1..j]);
    FlatConcat(gs[..i], [gs[i]] + gs[i + 1..j]);
    FlatConcat([gs[i]], gs[i + 1..j]);
    FlatOne(gs[i]);
  }

  ghost predicate NextKeyOk(post: seq<seq<Pair>>, nextKey: Option<Pair>) {
    if post == [] then nextKey == None else post[0] != [] && nextKey == Some(post[0][0])
  }

  /** Cutting the database around the chunk at position k. */
  lemma SplitAround(gs: seq<seq<Pair>>, k: nat)
    requires k < |gs|
    ensures Flat(gs) == Flat(gs[..k]) + (gs[k] + Flat(gs[k + 1..]))
  {
    hide Flat;
    var one, rest := [gs[k]], gs[k..];
    assert gs == gs[..k] + rest;
    FlatConcat(gs[..k], rest);
    assert rest == one + gs[k + 1..];
    FlatConcat(one, gs[k + 1..]);
    FlatOne(gs[k]);
  }

  /** Everything stored in front of the chunk a stream pair belongs to is below that pair. */
  lemma BelowSought(dup: bool, pre: seq<Pair>, ps: seq<Pair>, post: seq<Pair>, p: Pair)
    requires Sorted(dup, pre + (ps + post)) && ps != [] && !Less(dup, p, ps[0])
    ensures Below(dup, pre, p)
  {
    hide Less;
    SortedParts(dup, pre, ps + post);
    assert (ps + post)[0] == ps[0];
    BelowSmaller(dup, pre, ps[0], p);
  }

  /** __bamc_compress_del_and_get_next and __bamc_start_decompress for the chunk at k. */
  method TakeChunk(c: Cursor, k: nat) returns (nextKey: Option<Pair>)
    requires c.Shape() && k < |c.groups|
    modifies c
    ensures c.Shape() && c.groups == old(c.groups[..k]) + old(c.groups[k + 1..])
    ensures c.Positioned(old(c.groups[k]), 0) && NextKeyOk(old(c.groups[k + 1..]), nextKey)
  {
    hide Fits, ChunkBytes, ChunkSize, Offset, AllSized;
    ghost var ps, post := c.groups[k], c.groups[k + 1..];
    c.Fetch(k);
    c.DeleteChunk(k);
    assert c.groups[k..] == post;
    nextKey := NextKey(c, k);
    c.StartDecompress(ps);
  }

  method NextKey(c: Cursor, k: nat) returns (nextKey: Option<Pair>)
    requires c.Shape() && k <= |c.groups|
    ensures NextKeyOk(c.groups[k..], nextKey)
  {
    hide FirstPair, Pack, Fits, AllSized;
    if k < |c.tree| {
      c.FirstPairs(k);
      return Some(FirstPair(c.tree[k]));
    }
    return None;
  }

  /** A stored pair still pending lies below the next chunk. */
  lemma PendingBelowNext(dup: bool, left: seq<Pair>, mid: seq<Pair>, post: seq<seq<Pair>>, p: Pair)
    requires Sorted(dup, left + (mid + Flat(post))) && mid != []
    requires post != [] && post[0] != [] && !Less(dup, p, post[0][0])
    ensures Less(dup, mid[0], p)
  {
    hide Less, Sorted;
    SortedParts(dup, left, mid + Flat(post));
    SortedParts(dup, mid, Flat(post));
    hide Flat;
    var q := post[0][0];
    assert Flat(post)[0] == q by { var n := FirstInFlat(post, 0); HeadOfFlat(post); }
    OrderFacts(dup, mid[0], q);
    OrderTransitive(dup, mid[0], q, p);
  }

  lemma HeadOfFlat(gs: seq<seq<Pair>>)
    requires gs != [] && gs[0] != []
    ensures Flat(gs) != [] && Flat(gs)[0] == gs[0][0]
  {
  }
}
