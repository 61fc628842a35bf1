/** Prefix-coded chunks of key/data pairs (the default compressor of
    db4/btree/bt_compress.c). */
module Chunks {
  import opened Bytes
  import opened CompressInt

  datatype Option<+T> = None | Some(value: T)

  datatype Pair = Pair(key: seq<byte>, data: seq<byte>)

  /** Return codes. */
  datatype Ret = Ok | BufferSmall | Invalid | NotFound | KeyExist

  /** Sizes are 32-bit. */
  predicate Sized(p: Pair) {
    |p.key| < TWO32 && |p.data| < TWO32
  }

  predicate AllSized(ps: seq<Pair>) {
    forall i :: 0 <= i < |ps| ==> Sized(ps[i])
  }

  // ---------------------------------------------------------------- encoding

  function EncodeEntry(prev: Pair, cur: Pair): (s: seq<byte>)
    ensures |s| == Cost(prev, cur)
  {
    if cur.key == prev.key then
      var p := Lcp(cur.data, prev.data);
      [CMP_INT_SPARE_VAL] + EncodeInt(p) + EncodeInt(|cur.data| - p) + cur.data[p..]
    else
      var p := Lcp(cur.key, prev.key);
      EncodeInt(p) + EncodeInt(|cur.key| - p) + EncodeInt(|cur.data|) + cur.key[p..] + cur.data
  }

  /** Bytes that prefix coding spends on a string of length n sharing p bytes. */
  function Coded(p: nat, n: nat): nat
    requires p <= n
  {
    CountInt(p) + CountInt(n - p) + (n - p)
  }

  function Cost(prev: Pair, cur: Pair): (n: nat)
    ensures n > 0
  {
    if cur.key == prev.key then 1 + Coded(Lcp(cur.data, prev.data), |cur.data|)
    else Coded(Lcp(cur.key, prev.key), |cur.key|) + FirstCost(cur)
  }

  function FirstCost(cur: Pair): nat {
    CountInt(|cur.data|) + |cur.data|
  }

  /** __bam_compress_marshal_data: the form of a chunk's first data item. */
  function Marshal(data: seq<byte>): seq<byte>
  {
    EncodeInt(|data|) + data
  }

  /** The bytes stored for the pairs ps under the key ps[0].key. */
  function ChunkBytes(ps: seq<Pair>): (s: seq<byte>)
    requires ps != []
    ensures |s| == ChunkSize(ps) && |s| > 0
  {
    if |ps| == 1 then Marshal(ps[0].data)
    else ChunkBytes(ps[..|ps| - 1]) + EncodeEntry(ps[|ps| - 2], ps[|ps| - 1])
  }

  function ChunkSize(ps: seq<Pair>): nat
    requires ps != []
  {
    if |ps| == 1 then FirstCost(ps[0])
    else ChunkSize(ps[..|ps| - 1]) + Cost(ps[|ps| - 2], ps[|ps| - 1])
  }

  /** Copies s into dest at position at, behind what was written so far, and moves the
      write position. */
  method Put(dest: array<byte>, at: nat, s: seq<byte>, ghost before: seq<byte>, ghost written: seq<byte>)
    returns (ptr: nat)
    requires at + |s| <= dest.Length && dest[..at] == before + written
    modifies dest
    ensures ptr == at + |s|
    ensures dest[..ptr] == before + (written + s)
    ensures forall i :: ptr <= i < dest.Length ==> dest[i] == old(dest[i])
  {
    forall i | 0 <= i < |s| {
      dest[at + i] := s[i];
    }
    ptr := at + |s|;
  }

  method PutInt(dest: array<byte>, at: nat, i: nat, ghost before: seq<byte>, ghost written: seq<byte>)
    returns (ptr: nat)
    requires at + CountInt(i) <= dest.Length && dest[..at] == before + written
    modifies dest
    ensures ptr == at + CountInt(i)
    ensures dest[..ptr] == before + (written + EncodeInt(i))
    ensures forall i :: ptr <= i < dest.Length ==> dest[i] == old(dest[i])
  {
    ptr := Put(dest, at, EncodeInt(i), before, written);
  }

  /** __bam_defcompress: writes the coded pair at dest[off..] if it takes no more than ulen
      bytes, and reports the size it needs either way. */
  method DefCompress(prev: Pair, cur: Pair, dest: array<byte>, off: nat, ulen: nat)
    returns (ret: Ret, size: nat)
    requires off + ulen <= dest.Length
    modifies dest
    ensures size == Cost(prev, cur)
    ensures ret == if size <= ulen then Ok else BufferSmall
    ensures ret == Ok ==> dest[..off + size] == old(dest[..off]) + EncodeEntry(prev, cur)
    ensures ret == Ok ==> forall i :: off + size <= i < dest.Length ==> dest[i] == old(dest[i])
    ensures ret == BufferSmall ==> dest[..] == old(dest[..])
  {
    hide CountInt, EncodeInt, Lcp;
    var prefix := CommonPrefix(cur.key, prev.key);
    var suffix := |cur.key| - prefix;
    if prefix == |prev.key| && suffix == 0 {
      assert cur.key == cur.key[..prefix] == prev.key[..prefix] == prev.key;
      ret, size := PutDuplicate(prev, cur, dest, off, ulen);
    } else {
      assert prefix == |prev.key| ==> cur.key[..prefix] == prev.key;
      ret, size := PutPlain(prev, cur, dest, off, ulen, prefix);
    }
  }

  /** The branch of __bam_defcompress for a new key. */
  method PutPlain(prev: Pair, cur: Pair, dest: array<byte>, off: nat, ulen: nat, prefix: nat)
    returns (ret: Ret, size: nat)
    requires off + ulen <= dest.Length && cur.key != prev.key && prefix == Lcp(cur.key, prev.key)
    modifies dest
    ensures size == Cost(prev, cur)
    ensures ret == if size <= ulen then Ok else BufferSmall
    ensures ret == Ok ==> dest[..off + size] == old(dest[..off]) + EncodeEntry(prev, cur)
    ensures ret == Ok ==> forall i :: off + size <= i < dest.Length ==> dest[i] == old(dest[i])
    ensures ret == BufferSmall ==> dest[..] == old(dest[..])
  {
    hide CountInt, EncodeInt, Lcp;
    var suffix := |cur.key| - prefix;
    size := CountInt(prefix) + CountInt(suffix) + CountInt(|cur.data|) + suffix + |cur.data|;
    if size > ulen {
      return BufferSmall, size;
    }
    ghost var before := dest[..off];
    ghost var lengths := EncodeInt(prefix) + EncodeInt(suffix) + EncodeInt(|cur.data|);
    var ptr := PutLengths(dest, off, prefix, suffix, |cur.data|, before);
    ptr := Put(dest, ptr, cur.key[prefix..], before, lengths);
    ptr := Put(dest, ptr, cur.data, before, lengths + cur.key[prefix..]);
    return Ok, size;
  }

  method PutLengths(dest: array<byte>, at: nat, i: nat, j: nat, k: nat, ghost before: seq<byte>) returns (ptr: nat)
    requires at + CountInt(i) + CountInt(j) + CountInt(k) <= dest.Length && dest[..at] == before
    modifies dest
    ensures ptr == at + CountInt(i) + CountInt(j) + CountInt(k)
    ensures dest[..ptr] == before + (EncodeInt(i) + EncodeInt(j) + EncodeInt(k))
    ensures forall x :: ptr <= x < dest.Length ==> dest[x] == old(dest[x])
  {
    hide CountInt, EncodeInt;
    assert before + [] == before && [] + EncodeInt(i) == EncodeInt(i);
    ptr := PutInt(dest, at, i, before, []);
    ptr := PutInt(dest, ptr, j, before, EncodeInt(i));
    ptr := PutInt(dest, ptr, k, before, EncodeInt(i) + EncodeInt(j));
  }

  /** The branch of __bam_defcompress for a repeated key: prefix compression on the data. */
  method PutDuplicate(prev: Pair, cur: Pair, dest: array<byte>, off: nat, ulen: nat)
    returns (ret: Ret, size: nat)
    requires off + ulen <= dest.Length && cur.key == prev.key
    modifies dest
    ensures size == Cost(prev, cur)
    ensures ret == if size <= ulen then Ok else BufferSmall
    ensures ret == Ok ==> dest[..off + size] == old(dest[..off]) + EncodeEntry(prev, cur)
    ensures ret == Ok ==> forall i :: off + size <= i < dest.Length ==> dest[i] == old(dest[i])
    ensures ret == BufferSmall ==> dest[..] == old(dest[..])
  {
    hide CountInt, EncodeInt, Lcp;
    var prefix := CommonPrefix(cur.data, prev.data);
    var suffix := |cur.data| - prefix;
    size := 1 + CountInt(prefix) + CountInt(suffix) + suffix;
    if size > ulen {
      return BufferSmall, size;
    }
    ghost var before := dest[..off];
    ghost var e: seq<byte> := [CMP_INT_SPARE_VAL];
    var ptr := Put(dest, off, [CMP_INT_SPARE_VAL], before, []);
    assert [] + e == e;
    ptr := PutInt(dest, ptr, prefix, before, e);
    ptr := PutInt(dest, ptr, suffix, before, e + EncodeInt(prefix));
    ptr := Put(dest, ptr, cur.data[prefix..], before, e + EncodeInt(prefix) + EncodeInt(suffix));
    return Ok, size;
  }

  method CommonPrefix(a: seq<byte>, b: seq<byte>) returns (n: nat)
    ensures n == Lcp(a, b)
  {
    n := 0;
    while n < |a| && n < |b| && a[n] == b[n]
      invariant n <= |a| && n <= |b| && a[..n] == b[..n]
    {
      n := n + 1;
    }
    LcpUnique(a, b, n);
  }

  // ---------------------------------------------------------------- decoding

  datatype Decoded = Entry(pair: Pair, consumed: nat) | Malformed

  /** One coded integer at position pos: its value and the position after it. */
  function ReadInt(s: seq<byte>, pos: nat): Option<(nat, nat)> {
    if pos < |s| && pos + MarshaledSize(s[pos]) <= |s| then
      var r := DecodeInt32(s[pos..]);
      Some((r.0, pos + r.1))
    else None
  }

  datatype Header = Header(dup: bool, prefix: nat, suffix: nat, dataSize: nat, at: nat)

  /** The integers in front of an entry. */
  function ReadHeader(s: seq<byte>): Option<Header>
    requires s != []
  {
    if s[0] == CMP_INT_SPARE_VAL then
      match ReadInt(s, 1)
      case None => None
      case Some((p, n1)) =>
        match ReadInt(s, n1)
        case None => None
        case Some((x, n2)) => Some(Header(true, p, x, p + x, n2))
    else
      match ReadInt(s, 0)
      case None => None
      case Some((p, n1)) =>
        match ReadInt(s, n1)
        case None => None
        case Some((x, n2)) =>
          match ReadInt(s, n2)
          case None => None
          case Some((d, n3)) => Some(Header(false, p, x, d, n3))
  }

  function KeySize(prev: Pair, h: Header): nat {
    if h.dup then |prev.key| else h.prefix + h.suffix
  }

  /** The entry at the front of s, given its predecessor. */
  function Decode(prev: Pair, s: seq<byte>): Decoded
    requires s != []
  {
    match ReadHeader(s)
    case None => Malformed
    case Some(h) =>
      var end := h.at + h.suffix;
      if h.dup then
        if h.prefix > |prev.data| || end > |s| then Malformed
        else Entry(Pair(prev.key, prev.data[..h.prefix] + s[h.at..end]), end)
      else
        if h.prefix > |prev.key| || end + h.dataSize > |s| then Malformed
        else Entry(Pair(prev.key[..h.prefix] + s[h.at..end], s[end..end + h.dataSize]), end + h.dataSize)
  }

  /** __bam_defdecompress over destination buffers of keyUlen and dataUlen bytes. */
  method DefDecompress(prev: Pair, s: seq<byte>, keyUlen: nat, dataUlen: nat)
    returns (ret: Ret, dest: Pair, keySize: nat, dataSize: nat, consumed: nat)
    requires s != []
    ensures ret == Ok || ret == BufferSmall || ret == Invalid
    ensures ret == BufferSmall <==>
            ReadHeader(s).Some? && (KeySize(prev, ReadHeader(s).value) > keyUlen || ReadHeader(s).value.dataSize > dataUlen)
    ensures ret == BufferSmall ==>
              keySize == KeySize(prev, ReadHeader(s).value) && dataSize == ReadHeader(s).value.dataSize
    ensures ret == Ok ==> Decode(prev, s) == Entry(dest, consumed)
    ensures ret == Invalid ==> Decode(prev, s) == Malformed
  {
    hide ReadInt;
    dest, keySize, dataSize, consumed := prev, 0, 0, 0;
    if s[0] == CMP_INT_SPARE_VAL {
      var r1 := ReadInt(s, 1);
      if r1 == None { return Invalid, dest, keySize, dataSize, consumed; }
      var (prefix, n1) := r1.value;
      var r2 := ReadInt(s, n1);
      if r2 == None { return Invalid, dest, keySize, dataSize, consumed; }
      var (suffix, n2) := r2.value;
      keySize, dataSize := |prev.key|, prefix + suffix;
      if keySize > keyUlen || dataSize > dataUlen {
        return BufferSmall, dest, keySize, dataSize, consumed;
      }
      if prefix > |prev.data| || n2 + suffix > |s| {
        return Invalid, dest, keySize, dataSize, consumed;
      }
      dest := Pair(prev.key, prev.data[..prefix] + s[n2..n2 + suffix]);
      return Ok, dest, keySize, dataSize, n2 + suffix;
    }
    var r1 := ReadInt(s, 0);
    if r1 == None { return Invalid, dest, keySize, dataSize, consumed; }
    var (prefix, n1) := r1.value;
    var r2 := ReadInt(s, n1);
    if r2 == None { return Invalid, dest, keySize, dataSize, consumed; }
    var (suffix, n2) := r2.value;
    var r3 := ReadInt(s, n2);
    if r3 == None { return Invalid, dest, keySize, dataSize, consumed; }
    var (size, n3) := r3.value;
    keySize, dataSize := prefix + suffix, size;
    if keySize > keyUlen || dataSize > dataUlen {
      return BufferSmall, dest, keySize, dataSize, consumed;
    }
    if prefix > |prev.key| || n3 + suffix > |s| || n3 + suffix + size > |s| {
      return Invalid, dest, keySize, dataSize, consumed;
    }
    dest := Pair(prev.key[..prefix] + s[n3..n3 + suffix], s[n3 + suffix..n3 + suffix + size]);
    return Ok, dest, keySize, dataSize, n3 + suffix + size;
  }

  /** Reading back an integer written somewhere inside a longer string. */
  lemma ReadWritten(before: seq<byte>, i: nat, after: seq<byte>)
    requires i < TWO32
    ensures ReadInt(before + EncodeInt(i) + after, |before|) == Some((i, |before| + CountInt(i)))
  {
    var s := before + EncodeInt(i) + after;
    Int32RoundTrip(i, after);
    assert s[|before|..] == EncodeInt(i) + after;
  }

  lemma ReadTwoWritten(before: seq<byte>, i: nat, j: nat, after: seq<byte>)
    requires i < TWO32 && j < TWO32
    ensures var s := before + EncodeInt(i) + EncodeInt(j) + after;
            ReadInt(s, |before|) == Some((i, |before| + CountInt(i))) &&
            ReadInt(s, |before| + CountInt(i)) == Some((j, |before| + CountInt(i) + CountInt(j)))
  {
    hide CountInt, EncodeInt, ReadInt;
    ReadWritten(before, i, EncodeInt(j) + after);
    assert before + EncodeInt(i) + EncodeInt(j) + after == before + EncodeInt(i) + (EncodeInt(j) + after);
    ReadWritten(before + EncodeInt(i), j, after);
  }

  /** A prefix-coded duplicate reads back. */
  lemma DupRoundTrip(prev: Pair, data: seq<byte>, p: nat, tail: seq<byte>)
    requires p <= |data| < TWO32 && p <= |prev.data| && data[..p] == prev.data[..p]
    ensures var n := 1 + CountInt(p) + CountInt(|data| - p) + (|data| - p);
            Decode(prev, [CMP_INT_SPARE_VAL] + EncodeInt(p) + EncodeInt(|data| - p) + data[p..] + tail)
            == Entry(Pair(prev.key, data), n)
  {
    hide CountInt, EncodeInt, ReadInt;
    var x := |data| - p;
    var spare: seq<byte> := [CMP_INT_SPARE_VAL];
    var head := spare + EncodeInt(p) + EncodeInt(x);
    ReadTwoWritten(spare, p, x, data[p..] + tail);
    var s := head + data[p..] + tail;
    assert s == head + (data[p..] + tail);
    assert s[|head|..|head| + x] == data[p..];
    assert prev.data[..p] + data[p..] == data;
  }

  lemma PlainHeader(p: nat, x: nat, d: nat, rest: seq<byte>)
    requires p < TWO32 && x < TWO32 && d < TWO32
    ensures ReadHeader(EncodeInt(p) + EncodeInt(x) + EncodeInt(d) + rest)
            == Some(Header(false, p, x, d, CountInt(p) + CountInt(x) + CountInt(d)))
  {
    hide CountInt, EncodeInt, ReadInt;
    var none: seq<byte> := [];
    var s := EncodeInt(p) + EncodeInt(x) + EncodeInt(d) + rest;
    ReadTwoWritten(none, p, x, EncodeInt(d) + rest);
    assert s == none + EncodeInt(p) + EncodeInt(x) + (EncodeInt(d) + rest);
    ReadWritten(EncodeInt(p) + EncodeInt(x), d, rest);
    assert s[0] == EncodeInt(p)[0];
  }

  /** A pair with a prefix-coded key reads back. */
  lemma PlainRoundTrip(prev: Pair, cur: Pair, p: nat, tail: seq<byte>)
    requires Sized(cur) && p <= |cur.key| && p <= |prev.key| && cur.key[..p] == prev.key[..p]
    ensures var n := CountInt(p) + CountInt(|cur.key| - p) + CountInt(|cur.data|) + (|cur.key| - p) + |cur.data|;
            Decode(prev, EncodeInt(p) + EncodeInt(|cur.key| - p) + EncodeInt(|cur.data|) + cur.key[p..] + cur.data + tail)
            == Entry(cur, n)
  {
    hide CountInt, EncodeInt, ReadInt;
    var x, d := |cur.key| - p, |cur.data|;
    var rest := cur.key[p..] + cur.data + tail;
    PlainHeader(p, x, d, rest);
    var head := EncodeInt(p) + EncodeInt(x) + EncodeInt(d);
    var s := EncodeInt(p) + EncodeInt(x) + EncodeInt(d) + cur.key[p..] + cur.data + tail;
    assert s == head + rest;
    Slices(head, cur.key[p..], cur.data, tail);
    assert head + cur.key[p..] + cur.data + tail == head + rest;
    assert prev.key[..p] + cur.key[p..] == cur.key;
  }

  lemma Slices(head: seq<byte>, key: seq<byte>, data: seq<byte>, tail: seq<byte>)
    ensures (head + key + data + tail)[|head|..|head| + |key|] == key
    ensures (head + key + data + tail)[|head| + |key|..|head| + |key| + |data|] == data
  {
  }

  /** Decoding undoes encoding, and consumes exactly the bytes the encoder wrote even when
      more entries follow. */
  lemma EntryRoundTrip(prev: Pair, cur: Pair, tail: seq<byte>)
    requires Sized(cur)
    ensures Decode(prev, EncodeEntry(prev, cur) + tail) == Entry(cur, Cost(prev, cur))
  {
    hide Decode, EncodeInt, CountInt;
    if cur.key == prev.key {
      DupRoundTrip(prev, cur.data, Lcp(cur.data, prev.data), tail);
    } else {
      PlainRoundTrip(prev, cur, Lcp(cur.key, prev.key), tail);
    }
  }

  /** All entries of s after prev. */
  function DecodeRest(prev: Pair, s: seq<byte>): Option<seq<Pair>>
    decreases |s|
  {
    if s == [] then Some([])
    else
      match Decode(prev, s)
      case Malformed => None
      case Entry(p, n) =>
        if n == 0 || n > |s| then None
        else
          match DecodeRest(p, s[n..])
          case None => None
          case Some(ps) => Some([p] + ps)
  }

  /** The pairs stored in a chunk. */
  function DecodeChunk(key: seq<byte>, s: seq<byte>): Option<seq<Pair>>
    requires s != []
  {
    match ReadFirst(s)
    case None => None
    case Some((data, n)) =>
      match DecodeRest(Pair(key, data), s[n..])
      case None => None
      case Some(ps) => Some([Pair(key, data)] + ps)
  }

  /** Where the i-th entry of a chunk ends. */
  function Offset(ps: seq<Pair>, i: nat): nat
    requires i < |ps|
  {
    ChunkSize(ps[..i + 1])
  }

  /** One more pair adds its coded form behind what is there. */
  lemma ChunkSnoc(ps: seq<Pair>, p: Pair)
    requires ps != []
    ensures ChunkSize(ps + [p]) == ChunkSize(ps) + Cost(ps[|ps| - 1], p)
    ensures ChunkBytes(ps + [p]) == ChunkBytes(ps) + EncodeEntry(ps[|ps| - 1], p)
  {
    assert (ps + [p])[..|ps|] == ps;
  }

  lemma {:induction false} ChunkPrefix(ps: seq<Pair>, k: nat)
    requires 0 < k < |ps|
    ensures ChunkBytes(ps[..k]) < ChunkBytes(ps)
    ensures ChunkSize(ps[..k]) < ChunkSize(ps)
  {
    hide EncodeEntry, Cost, Marshal, FirstCost;
    var init := ps[..|ps| - 1];
    if k < |init| {
      ChunkPrefix(init, k);
      assert init[..k] == ps[..k];
    }
  }

  lemma OffsetBelowEnd(ps: seq<Pair>, j: nat)
    requires j < |ps|
    ensures Offset(ps, j) <= ChunkSize(ps)
    ensures j < |ps| - 1 <==> Offset(ps, j) < ChunkSize(ps)
  {
    if j == |ps| - 1 {
      assert ps[..j + 1] == ps;
    } else {
      ChunkPrefix(ps, j + 1);
    }
  }

  /** Offsets of later entries are larger. */
  lemma OffsetsGrow(ps: seq<Pair>, i: nat, j: nat)
    requires i < j < |ps|
    ensures Offset(ps, i) < Offset(ps, j)
  {
    ChunkPrefix(ps[..j + 1], i + 1);
    hide ChunkSize;
    assert ps[..j + 1][..i + 1] == ps[..i + 1];
  }

  /** The bytes after the i-th entry start with the code of the next one. */
  lemma EntryAt(ps: seq<Pair>, i: nat) returns (tail: seq<byte>)
    requires i + 1 < |ps|
    ensures Offset(ps, i) < ChunkSize(ps)
    ensures Offset(ps, i + 1) == Offset(ps, i) + Cost(ps[i], ps[i + 1])
    ensures ChunkBytes(ps)[Offset(ps, i)..] == EncodeEntry(ps[i], ps[i + 1]) + tail
  {
    hide ChunkBytes, ChunkSize, EncodeEntry, Cost;
    OffsetBelowEnd(ps, i);
    OffsetBelowEnd(ps, i + 1);
    var before, upto := ps[..i + 1], ps[..i + 2];
    assert before + [ps[i + 1]] == upto;
    ChunkSnoc(before, ps[i + 1]);
    tail := ChunkBytes(ps)[|ChunkBytes(upto)|..];
    if i + 2 < |ps| {
      ChunkPrefix(ps, i + 2);
    } else {
      assert upto == ps;
    }
    assert ChunkBytes(ps) == ChunkBytes(before) + (EncodeEntry(ps[i], ps[i + 1]) + tail);
  }

  lemma SingleChunk(p: Pair)
    ensures ChunkBytes([p]) == Marshal(p.data) && ChunkSize([p]) == FirstCost(p)
  {
  }

  lemma MarshalAt(ps: seq<Pair>) returns (tail: seq<byte>)
    requires ps != []
    ensures ChunkBytes(ps) == Marshal(ps[0].data) + tail
    ensures Offset(ps, 0) == FirstCost(ps[0])
  {
    hide ChunkBytes, ChunkSize, Marshal, FirstCost;
    SingleChunk(ps[0]);
    assert ps[..1] == [ps[0]];
    if |ps| > 1 {
      ChunkPrefix(ps, 1);
    } else {
      assert ps[..1] == ps;
    }
    tail := ChunkBytes(ps)[|Marshal(ps[0].data)|..];
  }

  /** The first data item of a chunk and where it ends. */
  function ReadFirst(s: seq<byte>): Option<(seq<byte>, nat)> {
    match ReadInt(s, 0)
    case None => None
    case Some((d, n)) => if n + d > |s| then None else Some((s[n..n + d], n + d))
  }

  lemma FirstDataAt(ps: seq<Pair>)
    requires ps != [] && Sized(ps[0])
    ensures ReadFirst(ChunkBytes(ps)) == Some((ps[0].data, Offset(ps, 0)))
    ensures Offset(ps, 0) <= ChunkSize(ps)
  {
    hide ReadInt, ChunkBytes, ChunkSize, CountInt, Offset;
    var tail := MarshalAt(ps);
    MarshalReads(ps[0].data, tail);
  }

  lemma MarshalReads(d: seq<byte>, tail: seq<byte>)
    requires |d| < TWO32
    ensures ReadInt(Marshal(d) + tail, 0) == Some((|d|, CountInt(|d|)))
    ensures (Marshal(d) + tail)[CountInt(|d|)..CountInt(|d|) + |d|] == d
  {
    hide EncodeInt, CountInt, ReadInt;
    var nothing: seq<byte> := [];
    assert nothing + EncodeInt(|d|) + (d + tail) == Marshal(d) + tail;
    ReadWritten(nothing, |d|, d + tail);
  }

  lemma {:induction false} RestRoundTrip(ps: seq<Pair>, i: nat)
    requires i < |ps| && AllSized(ps)
    ensures Offset(ps, i) <= ChunkSize(ps)
    ensures DecodeRest(ps[i], ChunkBytes(ps)[Offset(ps, i)..]) == Some(ps[i + 1..])
    decreases |ps| - i
  {
    hide ChunkBytes, ChunkSize, EncodeEntry, Cost, Decode, Offset;
    OffsetBelowEnd(ps, i);
    var s := ChunkBytes(ps)[Offset(ps, i)..];
    if i + 1 < |ps| {
      var tail := EntryAt(ps, i);
      EntryRoundTrip(ps[i], ps[i + 1], tail);
      RestRoundTrip(ps, i + 1);
      var n := Cost(ps[i], ps[i + 1]);
      assert s[n..] == ChunkBytes(ps)[Offset(ps, i + 1)..];
      assert Decode(ps[i], s) == Entry(ps[i + 1], n);
      assert DecodeRest(ps[i], s) == Some([ps[i + 1]] + ps[i + 2..]);
      assert ps[i + 1..] == [ps[i + 1]] + ps[i + 2..];
    } else {
      assert s == [];
    }
  }

  /** Chunk round trip, for every nonempty sequence of pairs. */
  lemma ChunkRoundTrip(ps: seq<Pair>)
    requires ps != [] && AllSized(ps)
    ensures DecodeChunk(ps[0].key, ChunkBytes(ps)) == Some(ps)
  {
    FirstDataAt(ps);
    RestRoundTrip(ps, 0);
    hide ChunkBytes, ChunkSize, DecodeRest, ReadFirst, Offset;
    assert [ps[0]] + ps[1..] == ps;
  }

  // ---------------------------------------------------------------- re-encoding

  /** Sharing more never costs more. */
  lemma MoreSharedIsCheaper(p: nat, q: nat, n: nat)
    requires q <= p <= n
    ensures Coded(p, n) <= Coded(q, n)
  {
    CountIntGrowth(q, p - q);
    CountIntGrowth(n - p, p - q);
  }

  lemma ReadSize(s: seq<byte>, pos: nat)
    ensures ReadInt(s, pos).Some? ==> ReadInt(s, pos).value.1 >= pos + CountInt(ReadInt(s, pos).value.0)
  {
    hide CountInt, DecodeInt32, MarshaledSize;
    if pos < |s| && pos + MarshaledSize(s[pos]) <= |s| {
      DecodedSize(s[pos..]);
    }
  }

  /** The integers in front of an entry take at least the bytes their codes need. */
  lemma HeaderSize(s: seq<byte>)
    requires s != [] && ReadHeader(s).Some?
    ensures var h := ReadHeader(s).value;
            h.at >= CountInt(h.prefix) + CountInt(h.suffix) + if h.dup then 1 else CountInt(h.dataSize)
  {
    hide CountInt, ReadInt;
    var first := if s[0] == CMP_INT_SPARE_VAL then 1 else 0;
    ReadSize(s, first);
    var n1 := ReadInt(s, first).value.1;
    ReadSize(s, n1);
    var n2 := ReadInt(s, n1).value.1;
    ReadSize(s, n2);
  }

  lemma SharedAtMost(a: seq<byte>, b: seq<byte>, p: nat)
    requires p <= |a| && p <= |b| && a[..p] == b[..p]
    ensures p <= Lcp(a, b)
  {
    assert forall k :: 0 <= k < p ==> a[k] == a[..p][k] && b[k] == b[..p][k];
  }

  /** The code of an entry is the shortest of all byte strings that decode to its pair. */
  lemma NoShorterEntry(prev: Pair, cur: Pair, s: seq<byte>, n: nat)
    requires s != [] && Decode(prev, s) == Entry(cur, n)
    ensures Cost(prev, cur) <= n
  {
    hide CountInt, ReadHeader, Lcp;
    var h := ReadHeader(s).value;
    HeaderSize(s);
    if h.dup {
      assert cur.data[..h.prefix] == prev.data[..h.prefix];
      SharedAtMost(cur.data, prev.data, h.prefix);
      MoreSharedIsCheaper(Lcp(cur.data, prev.data), h.prefix, |cur.data|);
    } else if cur.key == prev.key {
      MoreSharedIsCheaper(Lcp(cur.data, prev.data), 0, |cur.data|);
      OneByte();
    } else {
      assert cur.key[..h.prefix] == prev.key[..h.prefix];
      SharedAtMost(cur.key, prev.key, h.prefix);
      MoreSharedIsCheaper(Lcp(cur.key, prev.key), h.prefix, |cur.key|);
    }
  }

  lemma OneByte()
    ensures CountInt(0) == 1
  {
  }

  /** If what c shares with b reaches beyond what b shares with a, the bytes b had to
      spell out there pay for the ones c now spells out itself. */
  lemma MiddlePays(q: nat, r: nat, nb: nat, nc: nat)
    requires q <= r <= nb && r <= nc
    ensures Coded(q, nc) <= Coded(q, nb) + Coded(r, nc)
  {
    hide CountInt;
    var x, y := nc - r, r - q;
    CountIntGrowth(x, y);
    CountIntGrowth(y, nb - r);
    assert x + y == nc - q && y + (nb - r) == nb - q;
  }

  /** Coding c after a is no dearer than coding b after a and then c after b. */
  lemma StringTriangle(a: seq<byte>, b: seq<byte>, c: seq<byte>)
    ensures Coded(Lcp(c, a), |c|) <= Coded(Lcp(b, a), |b|) + Coded(Lcp(c, b), |c|)
  {
    hide Coded, Lcp;
    var p, q, r := Lcp(c, a), Lcp(b, a), Lcp(c, b);
    LcpUltrametric(c, b, a);
    if p >= r {
      MoreSharedIsCheaper(p, r, |c|);
    } else {
      MoreSharedIsCheaper(p, q, |c|);
      MiddlePays(q, r, |b|, |c|);
    }
  }

  lemma PairTriangle(a: Pair, b: Pair, c: Pair)
    requires c.key == a.key ==> b.key == a.key
    ensures Cost(a, c) <= Cost(a, b) + Cost(b, c)
  {
    if c.key == a.key {
      StringTriangle(a.data, b.data, c.data);
    } else if b.key != a.key {
      if c.key == b.key {
        DataFromScratch(b, c);
      } else {
        StringTriangle(a.key, b.key, c.key);
      }
    }
  }

  /** Spelling out c's data is no dearer than b's data plus c coded as b's duplicate. */
  lemma DataFromScratch(b: Pair, c: Pair)
    ensures FirstCost(c) <= FirstCost(b) + Cost(b, c)
  {
    var p := Lcp(c.data, b.data);
    CountIntGrowth(p, |c.data| - p);
  }

  /** Pairs with the same key are contiguous. */
  predicate KeysContiguous(ps: seq<Pair>) {
    forall i, j, k :: 0 <= i < j < k < |ps| && ps[i].key == ps[k].key ==> ps[j].key == ps[i].key
  }

  /** qs is obtained from ps by deleting pairs. */
  predicate Subsequence(qs: seq<Pair>, ps: seq<Pair>) {
    qs == [] ||
    (ps != [] &&
     (Subsequence(qs, ps[..|ps| - 1]) ||
      (qs[|qs| - 1] == ps[|ps| - 1] && Subsequence(qs[..|qs| - 1], ps[..|ps| - 1]))))
  }

  /** Every member of a subsequence sits somewhere in the original. */
  lemma {:induction false} SubsequenceLast(qs: seq<Pair>, ps: seq<Pair>) returns (i: nat)
    requires qs != [] && Subsequence(qs, ps)
    ensures i < |ps| && ps[i] == qs[|qs| - 1]
  {
    if Subsequence(qs, ps[..|ps| - 1]) {
      i := SubsequenceLast(qs, ps[..|ps| - 1]);
    } else {
      i := |ps| - 1;
    }
  }

  lemma ContiguousPrefix(ps: seq<Pair>, last: Pair)
    requires KeysContiguous(ps + [last])
    ensures KeysContiguous(ps)
    ensures forall i :: 0 <= i < |ps| && ps[i].key == last.key ==> ps[|ps| - 1].key == last.key
  {
    var all := ps + [last];
    assert forall i :: 0 <= i < |ps| ==> ps[i] == all[i];
    assert forall i :: 0 <= i < |ps| - 1 && all[i].key == all[|ps|].key ==> all[|ps| - 1].key == all[i].key;
  }

  /** Deleting pairs from a chunk and coding the rest again, with the same last pair,
      never takes more bytes. */
  lemma {:induction false} ReencodeBefore(ps: seq<Pair>, qs: seq<Pair>, last: Pair)
    requires ps != [] && Subsequence(qs, ps) && KeysContiguous(ps + [last])
    ensures ChunkSize(qs + [last]) <= ChunkSize(ps + [last])
    decreases |ps|
  {
    hide ChunkSize, Cost, FirstCost, KeysContiguous;
    ContiguousPrefix(ps, last);
    var init, mid := ps[..|ps| - 1], ps[|ps| - 1];
    assert init + [mid] == ps;
    if qs != [] && qs[|qs| - 1] == mid && Subsequence(qs[..|qs| - 1], init) {
      assert qs[..|qs| - 1] + [mid] == qs;
      if init == [] {
        assert qs == ps;
      } else {
        ReencodeBefore(init, qs[..|qs| - 1], mid);
        ChunkSnoc(ps, last);
        ChunkSnoc(qs, last);
      }
    } else {
      if qs != [] {
        var i := SubsequenceLast(qs, init);
        assert ps[i] == qs[|qs| - 1];
        ReencodeBefore(init, qs, mid);
      }
      ReencodeSkipping(ps, qs, mid, last);
    }
  }

  /** The step of ReencodeBefore that drops mid, the last pair of ps. */
  lemma ReencodeSkipping(ps: seq<Pair>, qs: seq<Pair>, mid: Pair, last: Pair)
    requires ps != [] && ps[|ps| - 1] == mid
    requires qs != [] ==> ChunkSize(qs + [mid]) <= ChunkSize(ps)
    requires qs != [] && qs[|qs| - 1].key == last.key ==> mid.key == last.key
    ensures ChunkSize(qs + [last]) <= ChunkSize(ps + [last])
  {
    hide ChunkSize, Cost, FirstCost;
    ChunkSnoc(ps, last);
    if qs == [] {
      FirstCostBelow(ps);
      DataFromScratch(mid, last);
      FirstOnly(qs, last);
    } else {
      ChunkSnoc(qs, mid);
      ChunkSnoc(qs, last);
      PairTriangle(qs[|qs| - 1], mid, last);
    }
  }

  lemma FirstOnly(qs: seq<Pair>, p: Pair)
    requires qs == []
    ensures ChunkSize(qs + [p]) == FirstCost(p)
  {
  }

  /** A chunk always pays at least for spelling out its last data item. */
  lemma {:induction false} FirstCostBelow(ps: seq<Pair>)
    requires ps != []
    ensures FirstCost(ps[|ps| - 1]) <= ChunkSize(ps)
  {
    hide Cost, FirstCost;
    if |ps| > 1 {
      FirstCostBelow(ps[..|ps| - 1]);
      DataFromScratch(ps[|ps| - 2], ps[|ps| - 1]);
    }
  }

  /** Re-encoding any nonempty subsequence of a chunk needs no more bytes than the chunk
      had, so a store that only deletes can not run out of room. */
  lemma {:induction false} ReencodingFits(ps: seq<Pair>, qs: seq<Pair>)
    requires qs != [] && Subsequence(qs, ps) && KeysContiguous(ps)
    ensures ChunkSize(qs) <= ChunkSize(ps)
    decreases |ps|
  {
    hide ChunkSize, KeysContiguous;
    var init, last := ps[..|ps| - 1], ps[|ps| - 1];
    assert init + [last] == ps;
    if Subsequence(qs, init) {
      ContiguousPrefix(init, last);
      ReencodingFits(init, qs);
      ChunkPrefix(ps, |init|);
    } else {
      assert qs[..|qs| - 1] + [last] == qs;
      if init == [] {
        assert qs == ps;
      } else {
        ReencodeBefore(init, qs[..|qs| - 1], last);
      }
    }
  }
}
