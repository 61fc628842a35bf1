/** The compressed btree: chunks of pairs in an ordered tree, and the cursor that
    decompresses them (db4/btree/bt_compress.c). */
module CompressedTree {
  import opened Bytes
  import opened CompressInt
  import opened Chunks
  import opened PairMerge

  /** An entry of the underlying btree. */
  datatype Chunk = Chunk(key: seq<byte>, bytes: seq<byte>)

  function Pack(ps: seq<Pair>): Chunk
    requires ps != []
  {
    Chunk(ps[0].key, ChunkBytes(ps))
  }

  function Flat(gs: seq<seq<Pair>>): seq<Pair> {
    if gs == [] then [] else gs[0] + Flat(gs[1..])
  }

  lemma {:induction false} FlatConcat(a: seq<seq<Pair>>, b: seq<seq<Pair>>)
    ensures Flat(a + b) == Flat(a) + Flat(b)
  {
    if a == [] {
      assert a + b == b;
    } else {
      FlatConcat(a[1..], b);
      assert (a + b)[1..] == a[1..] + b;
    }
  }

  lemma FlatOne(ps: seq<Pair>)
    ensures Flat([ps]) == ps
  {
  }

  /** A chunk holds one pair, or it fits on a page without overflowing. */
  predicate Fits(ovflsize: nat, ps: seq<Pair>)
    requires ps != []
  {
    |ps| == 1 || ChunkSize(ps) <= ovflsize
  }

  /** What the tree may hold: nonempty groups of pairs, packed. */
  ghost predicate Packed(ovflsize: nat, tree: seq<Chunk>, groups: seq<seq<Pair>>) {
    |tree| == |groups| &&
    forall i :: 0 <= i < |groups| ==>
      groups[i] != [] && AllSized(groups[i]) && tree[i] == Pack(groups[i]) && Fits(ovflsize, groups[i])
  }

  lemma PackedInsert(ovflsize: nat, tree: seq<Chunk>, groups: seq<seq<Pair>>, k: nat, ps: seq<Pair>)
    requires Packed(ovflsize, tree, groups) && k <= |tree|
    requires ps != [] && AllSized(ps) && Fits(ovflsize, ps)
    ensures Packed(ovflsize, tree[..k] + [Pack(ps)] + tree[k..], groups[..k] + [ps] + groups[k..])
  {
    hide Pack, Fits, AllSized;
    var ts, gs := tree[..k] + [Pack(ps)] + tree[k..], groups[..k] + [ps] + groups[k..];
    forall i | 0 <= i < |gs| && i != k
      ensures gs[i] == groups[if i < k then i else i - 1] && ts[i] == tree[if i < k then i else i - 1]
    {
    }
  }

  lemma {:induction false} GroupInFlat(gs: seq<seq<Pair>>, i: nat, j: nat)
    requires i < |gs| && j < |gs[i]|
    ensures |Flat(gs[..i])| + j < |Flat(gs)| && Flat(gs)[|Flat(gs[..i])| + j] == gs[i][j]
  {
    assert gs == gs[..i] + ([gs[i]] + gs[i + 1..]);
    FlatConcat(gs[..i], [gs[i]] + gs[i + 1..]);
    FlatConcat([gs[i]], gs[i + 1..]);
    FlatOne(gs[i]);
  }

  /** The first pair of a stored chunk: its key and, CMP_UNMARSHAL_DATA, its first data. */
  function FirstPair(c: Chunk): Pair {
    Pair(c.key, match ReadFirst(c.bytes) case None => [] case Some(r) => r.0)
  }

  lemma FirstPairOfPack(ps: seq<Pair>)
    requires ps != [] && AllSized(ps)
    ensures FirstPair(Pack(ps)) == ps[0]
  {
    hide ReadFirst, ChunkBytes;
    FirstDataAt(ps);
  }

  /** Where p belongs among the groups: k groups start below it and the others above. */
  ghost predicate Fork(dup: bool, groups: seq<seq<Pair>>, p: Pair, k: nat)
    requires forall i :: 0 <= i < |groups| ==> groups[i] != []
  {
    k <= |groups| &&
    (forall i :: 0 <= i < k ==> Less(dup, groups[i][0], p)) &&
    (forall i :: k <= i < |groups| ==> Less(dup, p, groups[i][0]))
  }

  datatype Slot = NoSlot | One | Two

  /** A destination buffer: its contents and the sizes allocated for key and data. */
  datatype Buf = Buf(pair: Pair, keyUlen: nat, dataUlen: nat)

  const NULL: int := -1

  /** destkey and destbuf, the chunk being built. */
  class DestBuf {
    const ovflsize: nat
    var key: seq<byte>
    var buf: array<byte>
    var size: nat
    ghost var pairs: seq<Pair>

    ghost predicate Valid()
      reads this, buf
    {
      size <= buf.Length && ovflsize <= buf.Length && AllSized(pairs) &&
      if pairs == [] then size == 0
      else key == pairs[0].key && buf[..size] == ChunkBytes(pairs) && Fits(ovflsize, pairs)
    }

    constructor (ovflsize: nat)
      ensures Valid() && pairs == [] && fresh(buf) && this.ovflsize == ovflsize
    {
      this.ovflsize := ovflsize;
      key := [];
      buf := new byte[ovflsize];
      size := 0;
      pairs := [];
    }

    /** Forgets the chunk being built: prevDestKey and the size go back to nothing. */
    method Clear()
      requires Valid()
      modifies `size, `pairs
      ensures Valid() && pairs == []
    {
      size := 0;
      pairs := [];
    }

    /** __bamc_compress_store: the first pair always goes in, growing the buffer if it has
        to; a later one only if the chunk stays within ovflsize bytes. */
    method Store(cur: Pair, prev: Option<Pair>) returns (ret: Ret)
      requires Valid() && Sized(cur)
      requires prev == if pairs == [] then None else Some(pairs[|pairs| - 1])
      modifies this, buf
      ensures Valid() && (buf == old(buf) || fresh(buf))
      ensures ret == if old(pairs) != [] && ChunkSize(old(pairs) + [cur]) > ovflsize then BufferSmall else Ok
      ensures pairs == if ret == Ok then old(pairs) + [cur] else old(pairs)
    {
      if prev == None {
        ret := StoreFirst(cur);
      } else {
        ret := StoreNext(cur, prev.value);
      }
    }

    method StoreFirst(cur: Pair) returns (ret: Ret)
      requires Valid() && Sized(cur) && pairs == []
      modifies this, buf
      ensures Valid() && (buf == old(buf) || fresh(buf))
      ensures ret == Ok && pairs == [cur]
    {
      hide EncodeInt, CountInt;
      key := cur.key;
      var bytes := Marshal(cur.data);
      size := |bytes|;
      if size > buf.Length {
        buf := new byte[size];
      }
      forall i | 0 <= i < size {
        buf[i] := bytes[i];
      }
      assert buf[..size] == bytes;
      pairs := [cur];
      SingleChunk(cur);
      return Ok;
    }

    method StoreNext(cur: Pair, prev: Pair) returns (ret: Ret)
      requires Valid() && Sized(cur) && pairs != [] && prev == pairs[|pairs| - 1]
      modifies this, buf
      ensures Valid() && buf == old(buf)
      ensures ret == if ChunkSize(old(pairs) + [cur]) > ovflsize then BufferSmall else Ok
      ensures pairs == if ret == Ok then old(pairs) + [cur] else old(pairs)
    {
      hide EncodeEntry, Cost, ChunkBytes, ChunkSize;
      ChunkSnoc(pairs, cur);
      if ovflsize > size {
        var n;
        ret, n := DefCompress(prev, cur, buf, size, ovflsize - size);
        if ret == Ok {
          pairs := pairs + [cur];
          size := size + n;
        }
      } else {
        ret := BufferSmall;
      }
    }
  }

  /** The compressed btree and one cursor on it. Offsets into the chunk stand for the
      pointers of the C structure; NULL is -1. */
  class Cursor {
    const dup: bool        // DB_AM_DUPSORT
    const ovflsize: nat
    var tree: seq<Chunk>
    ghost var groups: seq<seq<Pair>>

    var at: nat            // position of the cursor in the underlying btree
    var compressed: seq<byte>
    var one: Buf           // key1, data1
    var two: Buf           // key2, data2
    var current: Slot
    var prev: Slot
    var compcursor: int
    var compend: int
    var prevcursor: int
    var prev2cursor: int
    var deleted: bool      // C_COMPRESS_DELETED

    function Content(s: Slot): Pair
      requires s != NoSlot
      reads `one, `two
    {
      if s == One then one.pair else two.pair
    }

    ghost predicate Shape()
      reads `tree, `groups
    {
      Packed(ovflsize, tree, groups)
    }

    ghost predicate Valid()
      reads `tree, `groups
    {
      Shape() && Sorted(dup, Flat(groups))
    }

    /** Start offset of the code of entry i, which is where entry i - 1 ends; none for the
        first entry. */
    ghost function StartOf(ps: seq<Pair>, i: nat): int
      requires i <= |ps|
    {
      if i == 0 then NULL else Offset(ps, i - 1)
    }

    /** The decompression state stands on entry i of the chunk that holds ps. */
    ghost predicate Positioned(ps: seq<Pair>, i: nat)
      reads `compressed, `compend, `one, `two, `current, `prev, `compcursor, `prevcursor, `prev2cursor
    {
      && i < |ps| && AllSized(ps)
      && compressed == ChunkBytes(ps) && compend == ChunkSize(ps)
      && current != NoSlot && Content(current) == ps[i]
      && compcursor == Offset(ps, i)
      && prevcursor == StartOf(ps, i)
      && (prev == NoSlot ==> prev2cursor == NULL)
      && (prev != NoSlot ==>
            prev != current && i > 0 && Content(prev) == ps[i - 1] && prev2cursor == StartOf(ps, i - 1))
    }

    /** CMP_IGET_RETRY: reads the chunk at position k into key1 and compressed. */
    method Fetch(k: nat)
      requires k < |tree|
      modifies `at, `one, `compressed
      ensures at == k && compressed == tree[k].bytes && one.pair.key == tree[k].key
    {
      at := k;
      compressed := tree[k].bytes;
      var key := tree[k].key;
      one := one.(pair := Pair(key, one.pair.data), keyUlen := if |key| > one.keyUlen then |key| else one.keyUlen);
    }

    /** __bamc_start_decompress. */
    method StartDecompress(ghost ps: seq<Pair>)
      requires ps != [] && AllSized(ps) && compressed == ChunkBytes(ps) && one.pair.key == ps[0].key
      modifies `one, `current, `prev, `compcursor, `compend, `prevcursor, `prev2cursor
      ensures Positioned(ps, 0)
    {
      FirstDataAt(ps);
      hide ReadFirst, ChunkBytes, ChunkSize, Offset, AllSized;
      prev := NoSlot;
      current := One;
      compend := |compressed|;
      prevcursor := NULL;
      prev2cursor := NULL;
      var (data, n) := ReadFirst(compressed).value;
      one := one.(pair := Pair(one.pair.key, data), dataUlen := if |data| > one.dataUlen then |data| else one.dataUlen);
      compcursor := n;
    }

    /** __bamc_next_decompress: at the end of the chunk nothing moves; otherwise the other
        buffer receives the next entry, after at most one resize. */
    method NextDecompress(ghost ps: seq<Pair>, ghost i: nat) returns (ret: Ret, ghost resizes: nat)
      requires Positioned(ps, i)
      modifies `one, `two, `current, `prev, `compcursor, `prevcursor, `prev2cursor
      ensures ret == (if i + 1 < |ps| then Ok else NotFound) && resizes <= 1
      ensures ret == Ok ==> Positioned(ps, i + 1) && prev == old(current)
      ensures ret == NotFound ==> Positioned(ps, i) && one == old(one) && two == old(two)
                                  && current == old(current) && prev == old(prev)
      ensures Content(old(current)) == ps[i]
    {
      hide ChunkBytes, ChunkSize, Offset;
      OffsetBelowEnd(ps, i);
      resizes := 0;
      if compcursor >= compend {
        return NotFound, 0;
      }
      resizes := StepInChunk(ps, i);
      return Ok, resizes;
    }

    /** The part of __bamc_next_decompress behind its test for the end of the chunk. */
    method StepInChunk(ghost ps: seq<Pair>, ghost i: nat) returns (ghost resizes: nat)
      requires Positioned(ps, i) && i + 1 < |ps|
      modifies `one, `two, `current, `prev, `compcursor, `prevcursor, `prev2cursor
      ensures resizes <= 1 && Positioned(ps, i + 1) && prev == old(current)
    {
      hide ChunkBytes, ChunkSize, Offset, EncodeEntry, Cost;
      ghost var tail := EntryAt(ps, i);
      prev := current;
      prev2cursor := prevcursor;
      prevcursor := compcursor;
      current := if current == One then Two else One;
      var rest := compressed[compcursor..];
      var buf, n;
      buf, n, resizes := DecompressInto(Content(prev), rest, if current == One then one else two, ps[i + 1], tail);
      if current == One {
        one := buf;
      } else {
        two := buf;
      }
      compcursor := compcursor + n;
    }

    /** The decompression loop of __bamc_next_decompress: tries again with larger buffers
        until the entry fits, which takes one resize at most. */
    static method DecompressInto(from: Pair, rest: seq<byte>, into: Buf, ghost next: Pair, ghost tail: seq<byte>)
      returns (buf: Buf, n: nat, ghost resizes: nat)
      requires Sized(next) && rest == EncodeEntry(from, next) + tail
      ensures buf.pair == next && n == Cost(from, next) && resizes <= 1
    {
      EntryRoundTrip(from, next, tail);
      hide EncodeEntry, Cost, Decode, ReadHeader;
      buf := into;
      resizes := 0;
      var ret, dest, keySize, dataSize;
      ret, dest, keySize, dataSize, n := DefDecompress(from, rest, buf.keyUlen, buf.dataUlen);
      while ret == BufferSmall
        invariant ret == BufferSmall || ret == Ok
        invariant ret == Ok ==> Decode(from, rest) == Entry(dest, n)
        invariant ret == BufferSmall ==>
                    resizes == 0 && ReadHeader(rest).Some? && keySize == KeySize(from, ReadHeader(rest).value)
                    && dataSize == ReadHeader(rest).value.dataSize
        invariant resizes <= 1
        decreases 1 - resizes
      {
        buf := buf.(keyUlen := if keySize > buf.keyUlen then keySize else buf.keyUlen,
        dataUlen := if dataSize > buf.dataUlen then dataSize else buf.dataUlen);
        resizes := resizes + 1;
        ret, dest, keySize, dataSize, n := DefDecompress(from, rest, buf.keyUlen, buf.dataUlen);
      }
      buf := buf.(pair := dest);
    }

    /** __bamc_compress_reset. */
    method Reset()
      modifies `current, `prev, `compcursor, `compend, `prevcursor, `prev2cursor, `deleted
      ensures current == NoSlot && prev == NoSlot && !deleted
    {
      prev, current := NoSlot, NoSlot;
      compcursor, compend, prevcursor, prev2cursor := NULL, NULL, NULL, NULL;
      deleted := false;
    }

    /** The cursor stands on pair number n of the database. */
    ghost predicate On(n: nat)
      reads this
    {
      Valid() && current != NoSlot && at < |groups| &&
      n >= |Flat(groups[..at])| && Positioned(groups[at], n - |Flat(groups[..at])|)
    }

    /** The cursor is not positioned. */
    ghost predicate Off()
      reads this
    {
      Valid() && current == NoSlot && prev == NoSlot
    }

    /** A positioned cursor's buffer holds the pair it stands on. */
    lemma OnContent(n: nat)
      requires On(n)
      ensures n < |Flat(groups)| && Content(current) == Flat(groups)[n]
    {
      hide Offset, ChunkBytes, ChunkSize, Sorted, StartOf, Flat, Fits;
      GroupInFlat(groups, at, n - |Flat(groups[..at])|);
    }

    lemma StepFlat(k: nat)
      requires k < |groups|
      ensures |Flat(groups[..k + 1])| == |Flat(groups[..k])| + |groups[k]|
      ensures k + 1 == |groups| ==> |Flat(groups)| == |Flat(groups[..k + 1])|
    {
      assert groups[..k + 1] == groups[..k] + [groups[k]];
      FlatConcat(groups[..k], [groups[k]]);
      FlatOne(groups[k]);
      assert k + 1 == |groups| ==> groups[..k + 1] == groups;
    }

    /** Loads the chunk at position k and stands on its first pair. */
    method EnterFirst(k: nat)
      requires Valid() && k < |tree|
      modifies `at, `one, `compressed, `current, `prev, `compcursor, `compend, `prevcursor, `prev2cursor
      ensures On(|Flat(groups[..k])|)
    {
      Fetch(k);
      StartDecompress(groups[k]);
    }

    /** __bamc_compress_get_next: from pair n to pair n + 1, across chunk boundaries; from
        nowhere to the first pair; behind the last pair the cursor becomes unpositioned. A
        cursor whose pair was deleted already stands on the next one. */
    method GetNext(ghost n: nat) returns (ret: Ret)
      requires if current == NoSlot then Off() else On(n)
      modifies this
      ensures tree == old(tree) && groups == old(groups)
      ensures old(deleted) && old(current) != NoSlot ==> ret == Ok && On(n) && !deleted
      ensures old(deleted) && old(current) == NoSlot ==> ret == NotFound && Off()
      ensures !old(deleted) ==>
                var next := if old(current) == NoSlot then 0 else n + 1;
                if next < |Flat(groups)| then ret == Ok && On(next) else ret == NotFound && Off()
    {
      hide Offset, ChunkBytes, ChunkSize, Sorted, Fits, Pack, AllSized;
      if deleted {
        if current == NoSlot {
          return NotFound;
        }
        deleted := false;
        return Ok;
      }
      var k := 0;
      if current != NoSlot {
        ghost var r;
        ghost var i := n - |Flat(groups[..at])|;
        StepFlat(at);
        ret, r := NextDecompress(groups[at], i);
        if ret != NotFound {
          OnContent(n + 1);
          return;
        }
        k := at + 1;
      }
      assert k == 0 ==> groups[..k] == [];
      assert Flat([]) == [];
      if k < |tree| {
        EnterFirst(k);
        OnContent(|Flat(groups[..k])|);
        return Ok;
      }
      Reset();
      assert groups == [] ==> Flat(groups) == [];
      return NotFound;
    }

    /** __bamc_compress_get_prev: from pair n to pair n - 1, out of the other buffer if it
        still holds that pair and by decompressing the chunk again if not; from nowhere to
        the last pair; in front of the first pair the cursor does not move. */
    method GetPrev(ghost n: nat) returns (ret: Ret)
      requires if current == NoSlot then Off() else On(n)
      modifies this
      ensures tree == old(tree) && groups == old(groups) && !deleted
      ensures old(current) == NoSlot ==>
                if Flat(groups) == [] then ret == NotFound && Off() else ret == Ok && On(|Flat(groups)| - 1)
      ensures old(current) != NoSlot ==> if n == 0 then ret == NotFound && On(0) else ret == Ok && On(n - 1)
    {
      hide Offset, ChunkBytes, ChunkSize, Sorted, Fits, Pack, AllSized;
      deleted := false;
      if prev != NoSlot {
        TakePrev(groups[at], n - |Flat(groups[..at])|);
        return Ok;
      }
      if current != NoSlot && prevcursor != NULL {
        FindInChunk(at, n - |Flat(groups[..at])| - 1, prevcursor);
        return Ok;
      }
      var k := if current == NoSlot then |tree| else at;
      if k == 0 {
        assert groups[..k] == [];
        return NotFound;
      }
      StepFlat(k - 1);
      FindLast(k - 1);
      return Ok;
    }

    /** Returns to the previous entry while the other buffer still holds it. */
    method TakePrev(ghost ps: seq<Pair>, ghost i: nat)
      requires Positioned(ps, i) && prev != NoSlot
      modifies `current, `prev, `compcursor, `prevcursor, `prev2cursor
      ensures i > 0 && Positioned(ps, i - 1)
    {
      hide Offset, ChunkBytes, ChunkSize;
      current := prev;
      compcursor := prevcursor;
      prev := NoSlot;
      prevcursor := prev2cursor;
      prev2cursor := NULL;
    }

    /** Decompresses the chunk at position k from its start up to entry e, whose end is at
        offset tofind. */
    method FindInChunk(k: nat, ghost e: nat, tofind: int)
      requires Valid() && k < |tree| && e < |groups[k]| && tofind == Offset(groups[k], e)
      modifies `at, `one, `two, `compressed, `current, `prev, `compcursor, `compend, `prevcursor, `prev2cursor
      ensures On(|Flat(groups[..k])| + e)
    {
      hide Offset, ChunkBytes, ChunkSize, Sorted;
      Fetch(k);
      ghost var ps := groups[k];
      StartDecompress(ps);
      ghost var i, r := 0, 0;
      var ret := Ok;
      while ret == Ok && tofind > compcursor
        invariant ret == Ok && i <= e && Positioned(ps, i) && at == k
        decreases e - i
      {
        ret, r := NextDecompress(ps, i);
        i := i + 1;
      }
      if i < e {
        OffsetsGrow(ps, i, e);
      }
    }

    /** Decompresses the chunk at position k to its last entry. */
    method FindLast(k: nat)
      requires Valid() && k < |tree|
      modifies `at, `one, `two, `compressed, `current, `prev, `compcursor, `compend, `prevcursor, `prev2cursor
      ensures On(|Flat(groups[..k])| + |groups[k]| - 1)
    {
      hide Offset, ChunkBytes, ChunkSize, Sorted;
      Fetch(k);
      ghost var ps := groups[k];
      StartDecompress(ps);
      ghost var i, r := 0, 0;
      var ret := Ok;
      while ret == Ok
        invariant i < |ps| && Positioned(ps, i) && at == k
        invariant ret == Ok || (ret == NotFound && i + 1 == |ps|)
        decreases |ps| - i, ret == Ok
      {
        ret, r := NextDecompress(ps, i);
        if ret == Ok {
          i := i + 1;
        }
      }
    }

    // -------------------------------------------------- operations on the underlying btree

    lemma FirstPairs(i: nat)
      requires Shape() && i < |groups|
      ensures FirstPair(tree[i]) == groups[i][0]
    {
      hide FirstPair, Pack, Fits;
      FirstPairOfPack(groups[i]);
    }

    /** DB_GET_BOTH_LTE or DB_SET_LTE: the last chunk that starts at or below p. */
    method SeekLte(p: Pair) returns (found: bool, k: nat)
      requires Shape()
      ensures found ==> k < |groups| && !Less(dup, p, groups[k][0])
      ensures found ==> forall i :: k < i < |groups| ==> Less(dup, p, groups[i][0])
      ensures !found ==> forall i :: 0 <= i < |groups| ==> Less(dup, p, groups[i][0])
    {
      hide Less, FirstPair, Pack, Fits;
      k := |tree|;
      while k > 0
        invariant k <= |tree|
        invariant forall i :: k <= i < |groups| ==> Less(dup, p, groups[i][0])
      {
        k := k - 1;
        FirstPairs(k);
        if !Less(dup, p, FirstPair(tree[k])) {
          return true, k;
        }
      }
      return false, 0;
    }

    /** Deletes the chunk at position k and moves on to the next. */
    method DeleteChunk(k: nat)
      requires Shape() && k < |tree|
      modifies `tree, `groups
      ensures Shape() && groups == old(groups[..k] + groups[k + 1..])
    {
      hide Pack, Fits;
      tree := tree[..k] + tree[k + 1..];
      groups := groups[..k] + groups[k + 1..];
    }

    /** The position of the first chunk that starts at or above p. */
    method FindPlace(p: Pair, ghost k: nat) returns (i: nat)
      requires Shape() && Fork(dup, groups, p, k)
      ensures i == k
    {
      hide Pack, Fits, Less, FirstPair;
      i := 0;
      while i < |tree|
        invariant i <= k
      {
        FirstPairs(i);
        if !Less(dup, FirstPair(tree[i]), p) {
          break;
        }
        OrderFacts(dup, groups[i][0], p);
        i := i + 1;
      }
    }

    /** DB_KEYLAST: stores a chunk in key order. */
    method PutChunk(c: Chunk, ghost ps: seq<Pair>, ghost k: nat)
      requires Shape() && ps != [] && AllSized(ps) && c == Pack(ps) && Fits(ovflsize, ps)
      requires Fork(dup, groups, ps[0], k)
      modifies `tree, `groups
      ensures Shape() && groups == old(groups[..k] + [ps] + groups[k..])
    {
      FirstPairOfPack(ps);
      var i := FindPlace(FirstPair(c), k);
      hide Pack, Fits, Less, FirstPair, AllSized, Packed, ChunkBytes;
      PackedInsert(ovflsize, tree, groups, i, ps);
      tree := tree[..i] + [c] + tree[i..];
      groups := groups[..i] + [ps] + groups[i..];
    }
  }
}
