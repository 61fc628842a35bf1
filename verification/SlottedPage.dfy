/** A page of the btree: an index table that grows upward behind the page header and items
  * that grow downward from the end of the page.  Two key slots of a duplicate set share one
  * item.  The bytes of the item area are modelled by what they hold, item after item from
  * the end of the page; the index table holds byte offsets, as in the source. */
module SlottedPage {
  import opened Bytes

  const SIZEOF_PAGE: nat := 26
  const O_INDX: nat := 1
  const P_INDX: nat := 2

  datatype Kind = LBtree | LDup | LRecno | IBtree | IRecno

  predicate IsInternal(kind: Kind) {
    kind == IBtree || kind == IRecno
  }

  /** BKEYDATA, BOVERFLOW (an overflow item or an off-page duplicate set), BINTERNAL with a
    * key or with a reference to an overflow key, RINTERNAL. */
  datatype Item =
    | KeyData(deleted: bool, data: seq<byte>)
    | OffPage(deleted: bool, duplicates: bool, first: nat, tlen: nat)
    | Child(pgno: nat, nrecs: int, key: seq<byte>)
    | BigChild(pgno: nat, nrecs: int, first: nat, tlen: nat)
    | RecnoChild(pgno: nat, nrecs: int)

  function Align4(n: nat): nat {
    (n + 3) / 4 * 4
  }

  function Size(item: Item): (n: nat)
    ensures n >= 4
  {
    match item
    case KeyData(_, data) => Align4(|data| + 3)
    case OffPage(_, _, _, _) => 12
    case Child(_, _, key) => Align4(|key| + 12)
    case BigChild(_, _, _, _) => 24
    case RecnoChild(_, _) => 8
  }

  // ---- The item area ----

  function Total(heap: seq<Item>): nat {
    if heap == [] then 0 else Total(heap[..|heap| - 1]) + Size(heap[|heap| - 1])
  }

  /** Distance from the start of an item to the end of the page. */
  function Depth(heap: seq<Item>, j: nat): nat
    requires j < |heap|
  {
    Total(heap[..j + 1])
  }

  /** The item that starts at a distance from the end of the page. */
  function Find(heap: seq<Item>, d: int): (j: int)
    ensures -1 <= j < |heap|
    ensures j >= 0 ==> Depth(heap, j) == d
  {
    if heap == [] then -1
    else
      var last := |heap| - 1;
      if Total(heap) == d then
        assert heap[..last + 1] == heap;
        last
      else
        var j := Find(heap[..last], d);
        assert j >= 0 ==> heap[..last][..j + 1] == heap[..j + 1];
        j
  }

  lemma {:induction false} TotalAppend(a: seq<Item>, b: seq<Item>)
    ensures Total(a + b) == Total(a) + Total(b)
  {
    if b == [] {
      assert a + b == a;
    } else {
      var n := |b| - 1;
      assert (a + b)[..|a + b| - 1] == a + b[..n];
      TotalAppend(a, b[..n]);
    }
  }

  lemma DepthGrows(heap: seq<Item>, j: nat, k: nat)
    requires j < k < |heap|
    ensures Depth(heap, j) + Size(heap[k]) <= Depth(heap, k)
  {
    var tail := heap[j + 1..k + 1];
    assert heap[..k + 1] == heap[..j + 1] + tail;
    TotalAppend(heap[..j + 1], tail);
    assert tail[|tail| - 1] == heap[k];
  }

  lemma {:induction false} FindDepth(heap: seq<Item>, j: nat)
    requires j < |heap|
    ensures Find(heap, Depth(heap, j)) == j
  {
    var last := |heap| - 1;
    assert heap[..last + 1] == heap;
    if j < last {
      DepthGrows(heap, j, last);
      assert heap[..last][..j + 1] == heap[..j + 1];
      FindDepth(heap[..last], j);
    }
  }

  lemma DepthAppended(heap: seq<Item>, item: Item, j: nat)
    requires j <= |heap|
    ensures Depth(heap + [item], j) == if j < |heap| then Depth(heap, j) else Total(heap) + Size(item)
    ensures Total(heap + [item]) == Total(heap) + Size(item)
  {
    var longer := heap + [item];
    assert longer[..|heap|] == heap;
    if j < |heap| {
      assert longer[..j + 1] == heap[..j + 1];
    } else {
      assert longer[..j + 1] == longer;
    }
  }

  lemma TotalParts(a: seq<Item>, mid: seq<Item>, b: seq<Item>)
    ensures Total(a + mid + b) == Total(a) + Total(mid) + Total(b)
  {
    TotalAppend(a + mid, b);
    TotalAppend(a, mid);
  }

  lemma TotalOne(item: Item)
    ensures Total([item]) == Size(item) && Total([]) == 0
  {
    assert [item][..0] == [];
  }

  /** What lies before an item, the item, and what lies after it up to item `k`. */
  lemma DepthParts(heap: seq<Item>, j: nat, k: nat)
    requires j <= k < |heap|
    ensures Depth(heap, k) == Total(heap[..j]) + Size(heap[j]) + Total(heap[j + 1..k + 1])
  {
    assert heap[..k + 1] == heap[..j] + [heap[j]] + heap[j + 1..k + 1];
    TotalParts(heap[..j], [heap[j]], heap[j + 1..k + 1]);
    TotalOne(heap[j]);
  }

  lemma WholeDepth(heap: seq<Item>)
    requires heap != []
    ensures Depth(heap, |heap| - 1) == Total(heap)
  {
    assert heap[..|heap|] == heap;
  }

  /** An item taken out, or replaced by another one. */
  function Splice(heap: seq<Item>, j: nat, mid: seq<Item>): seq<Item>
    requires j < |heap|
  {
    heap[..j] + mid + heap[j + 1..]
  }

  lemma DepthSpliced(heap: seq<Item>, j: nat, mid: seq<Item>, k: nat)
    requires j < |heap| && k < |heap| && k != j && |mid| <= 1
    ensures if k < j then Depth(Splice(heap, j, mid), k) == Depth(heap, k)
            else Depth(Splice(heap, j, mid), k - 1 + |mid|) == Depth(heap, k) - Size(heap[j]) + Total(mid)
  {
    hide Total;
    var a, b := heap[..j], heap[j + 1..];
    if k < j {
      assert Splice(heap, j, mid)[..k + 1] == heap[..k + 1];
    } else {
      var c := heap[j + 1..k + 1];
      DepthParts(heap, j, k);
      assert b[..k - j] == c;
      assert (a + mid + b)[..k + |mid|] == a + mid + c;
      TotalParts(a, mid, c);
    }
  }

  lemma TotalSpliced(heap: seq<Item>, j: nat, mid: seq<Item>)
    requires j < |heap|
    ensures Total(Splice(heap, j, mid)) == Total(heap) - Size(heap[j]) + Total(mid)
  {
    hide Total;
    var a, b := heap[..j], heap[j + 1..];
    assert heap == a + [heap[j]] + b;
    TotalParts(a, [heap[j]], b);
    TotalOne(heap[j]);
    TotalParts(a, mid, b);
  }

  // ---- Pages ----

  datatype Image = Image(size: nat, lsn: nat, pgno: nat, prev: int, next: int, level: nat, kind: Kind,
                         inp: seq<int>, hoffset: int, heap: seq<Item>)
  {
    function LOffset(): int {
      SIZEOF_PAGE + 2 * |inp|
    }

    function FreeSpace(): int {
      hoffset - LOffset()
    }

    /** The number of the item a slot refers to, -1 if it refers to none. */
    function Ref(i: nat): int
      requires i < |inp|
    {
      Find(heap, size - inp[i])
    }

    /** GET_BKEYDATA and its like. */
    function Slot(i: nat): Item
      requires i < |inp| && Ref(i) >= 0
    {
      heap[Ref(i)]
    }

    predicate Shared(i: nat)
      requires i < |inp|
    {
      exists j :: 0 <= j < |inp| && j != i && inp[j] == inp[i]
    }

    /** The items lie side by side from `hoffset` to the end of the page, each slot refers to
      * one of them and each of them is in use. */
    ghost predicate Valid() {
      && hoffset == size - Total(heap)
      && LOffset() <= hoffset
      && (forall i :: 0 <= i < |inp| ==> Ref(i) >= 0)
      && Onto(Refs(this), |heap|)
    }
  }

  ghost function Refs(g: Image): (refs: seq<int>)
    ensures |refs| == |g.inp|
    ensures forall i :: 0 <= i < |refs| ==> refs[i] == g.Ref(i)
  {
    seq(|g.inp|, i requires 0 <= i < |g.inp| => g.Ref(i))
  }

  ghost predicate Onto(refs: seq<int>, n: nat) {
    forall j :: 0 <= j < n ==> j in refs
  }

  ghost predicate Within(refs: seq<int>, n: nat) {
    forall i :: 0 <= i < |refs| ==> 0 <= refs[i] < n
  }

  ghost function Select(heap: seq<Item>, refs: seq<int>): (s: seq<Item>)
    requires Within(refs, |heap|)
    ensures |s| == |refs|
    ensures forall i :: 0 <= i < |s| ==> s[i] == heap[refs[i]]
  {
    seq(|refs|, i requires 0 <= i < |refs| => heap[refs[i]])
  }

  /** What a page holds, slot by slot. */
  ghost function Slots(g: Image): (s: seq<Item>)
    requires g.Valid()
    ensures |s| == |g.inp|
    ensures forall i :: 0 <= i < |s| ==> s[i] == g.Slot(i)
  {
    Select(g.heap, Refs(g))
  }

  /** P_INIT. */
  function Fresh(size: nat, lsn: nat, pgno: nat, prev: int, next: int, level: nat, kind: Kind): Image {
    Image(size, lsn, pgno, prev, next, level, kind, [], size, [])
  }

  // ---- Single-item operations ----

  /** `__db_pitem`, when the item fits. */
  function Put(g: Image, indx: nat, item: Item): Image
    requires indx <= |g.inp|
  {
    var h := g.hoffset - Size(item);
    g.(inp := g.inp[..indx] + [h] + g.inp[indx..], hoffset := h, heap := g.heap + [item])
  }

  /** The offsets up to `off` (or only below it) moved by `n`. */
  function MoveOffsets(inp: seq<int>, off: int, n: int): seq<int> {
    seq(|inp|, k requires 0 <= k < |inp| => if inp[k] <= off then inp[k] + n else inp[k])
  }

  /** `__db_ditem`. */
  function Drop(g: Image, indx: nat): Image
    requires indx < |g.inp| && g.Ref(indx) >= 0
  {
    if |g.inp| == 1 then g.(inp := [], hoffset := g.size, heap := [])
    else
      var n, j := Size(g.Slot(indx)), g.Ref(indx);
      var moved := MoveOffsets(g.inp, g.inp[indx] - 1, n);
      g.(inp := moved[..indx] + moved[indx + 1..], hoffset := g.hoffset + n,
         heap := Splice(g.heap, j, []))
  }

  /** `__bam_adjindx`. */
  function Adjusted(g: Image, indx: nat, copy: nat, isInsert: bool): Image
    requires if isInsert then indx <= |g.inp| && copy < |g.inp| else indx < |g.inp|
  {
    if isInsert then g.(inp := g.inp[..indx] + [g.inp[copy]] + g.inp[indx..])
    else g.(inp := g.inp[..indx] + g.inp[indx + 1..])
  }

  /** `__bam_ritem`. */
  function Replace(g: Image, indx: nat, item: Item): Image
    requires indx < |g.inp| && g.Ref(indx) >= 0
  {
    var n := Size(g.Slot(indx)) - Size(item);
    g.(inp := if g.hoffset == g.inp[indx] then g.inp[indx := g.inp[indx] + n]
              else MoveOffsets(g.inp, g.inp[indx], n),
       hoffset := g.hoffset + n,
       heap := Splice(g.heap, g.Ref(indx), [item]))
  }

  // ---- Offsets and item numbers ----

  ghost predicate RefersTo(inp: seq<int>, size: int, heap: seq<Item>, refs: seq<int>) {
    && |refs| == |inp|
    && Within(refs, |heap|)
    && forall i :: 0 <= i < |refs| ==> inp[i] == size - Depth(heap, refs[i])
  }

  lemma RefsOf(g: Image)
    requires g.Valid()
    ensures RefersTo(g.inp, g.size, g.heap, Refs(g))
  {
  }

  /** A page is valid when its offsets are those of items, all in use. */
  lemma ValidFromRefs(g: Image, refs: seq<int>)
    requires RefersTo(g.inp, g.size, g.heap, refs) && Onto(refs, |g.heap|)
    requires g.hoffset == g.size - Total(g.heap) && g.LOffset() <= g.hoffset
    ensures g.Valid() && Refs(g) == refs
    ensures Slots(g) == Select(g.heap, refs)
  {
    forall i | 0 <= i < |refs|
      ensures g.Ref(i) == refs[i]
    {
      FindDepth(g.heap, refs[i]);
    }
    assert Refs(g) == refs;
  }

  /** Offsets decide which slots share an item. */
  lemma OffsetsDecide(inp: seq<int>, size: int, heap: seq<Item>, refs: seq<int>, i: nat, j: nat)
    requires RefersTo(inp, size, heap, refs) && i < |inp| && j < |inp|
    ensures inp[i] == inp[j] <==> refs[i] == refs[j]
    ensures inp[i] < inp[j] <==> refs[i] > refs[j]
  {
    if refs[i] < refs[j] {
      DepthGrows(heap, refs[i], refs[j]);
    } else if refs[j] < refs[i] {
      DepthGrows(heap, refs[j], refs[i]);
    }
  }

  lemma SelectInserted(heap: seq<Item>, refs: seq<int>, indx: nat, x: int)
    requires Within(refs, |heap|) && indx <= |refs| && 0 <= x < |heap|
    ensures Within(Insert(refs, indx, x), |heap|)
    ensures Select(heap, Insert(refs, indx, x)) == Insert(Select(heap, refs), indx, heap[x])
  {
  }

  lemma SelectRemoved(heap: seq<Item>, refs: seq<int>, indx: nat)
    requires Within(refs, |heap|) && indx < |refs|
    ensures Within(Remove(refs, indx), |heap|)
    ensures Select(heap, Remove(refs, indx)) == Remove(Select(heap, refs), indx)
  {
  }

  // ---- Insertion ----

  /** A sequence with an element put in. */
  function Insert<T>(s: seq<T>, i: nat, x: T): (r: seq<T>)
    requires i <= |s|
    ensures |r| == |s| + 1
    ensures forall k :: 0 <= k < |r| ==> r[k] == if k < i then s[k] else if k == i then x else s[k - 1]
  {
    s[..i] + [x] + s[i..]
  }

  lemma InsertOnto(refs: seq<int>, i: nat, n: nat)
    requires i <= |refs| && Onto(refs, n) && Within(refs, n)
    ensures Onto(Insert(refs, i, n), n + 1) && Within(Insert(refs, i, n), n + 1)
  {
    var r := Insert(refs, i, n);
    assert r[i] == n;
    forall j | 0 <= j < n
      ensures j in r
    {
      assert j in refs;
      var k :| 0 <= k < |refs| && refs[k] == j;
      assert r[if k < i then k else k + 1] == j;
    }
  }

  lemma PutRefs(g: Image, indx: nat, item: Item, refs: seq<int>)
    requires RefersTo(g.inp, g.size, g.heap, refs) && indx <= |refs|
    requires g.hoffset == g.size - Total(g.heap)
    ensures RefersTo(Put(g, indx, item).inp, g.size, g.heap + [item], Insert(refs, indx, |g.heap|))
  {
    hide Size, Find, Depth, Total;
    var p, r := Put(g, indx, item), Insert(refs, indx, |g.heap|);
    assert p.inp == Insert(g.inp, indx, p.hoffset);
    DepthAppended(g.heap, item, |g.heap|);
    forall k | 0 <= k < |r|
      ensures p.inp[k] == p.size - Depth(p.heap, r[k])
    {
      if k != indx {
        DepthAppended(g.heap, item, r[k]);
      }
    }
  }

  /** A new slot with its own item: the other slots are what they were. */
  lemma PutSlots(g: Image, indx: nat, item: Item)
    requires g.Valid() && indx <= |g.inp|
    requires Size(item) + 2 <= g.FreeSpace()
    ensures Put(g, indx, item).Valid()
    ensures Refs(Put(g, indx, item)) == Insert(Refs(g), indx, |g.heap|)
    ensures Slots(Put(g, indx, item)) == Insert(Slots(g), indx, item)
  {
    hide Size, Find, Depth, Total;
    var p := Put(g, indx, item);
    RefsOf(g);
    PutRefs(g, indx, item, Refs(g));
    InsertOnto(Refs(g), indx, |g.heap|);
    DepthAppended(g.heap, item, |g.heap|);
    ValidFromRefs(p, Insert(Refs(g), indx, |g.heap|));
  }

  // ---- `__bam_adjindx` ----

  function Remove<T>(s: seq<T>, i: nat): (r: seq<T>)
    requires i < |s|
    ensures |r| == |s| - 1
    ensures forall k :: 0 <= k < |r| ==> r[k] == if k < i then s[k] else s[k + 1]
  {
    s[..i] + s[i + 1..]
  }

  lemma CopyOnto(refs: seq<int>, indx: nat, x: int, n: nat)
    requires indx <= |refs| && Onto(refs, n) && Within(refs, n) && 0 <= x < n
    ensures Onto(Insert(refs, indx, x), n) && Within(Insert(refs, indx, x), n)
  {
    var r := Insert(refs, indx, x);
    forall j | 0 <= j < n
      ensures j in r
    {
      assert j in refs;
      var k :| 0 <= k < |refs| && refs[k] == j;
      assert r[if k < indx then k else k + 1] == j;
    }
  }

  lemma RemoveOnto(refs: seq<int>, indx: nat, other: nat, n: nat)
    requires indx < |refs| && Onto(refs, n) && Within(refs, n)
    requires other < |refs| && other != indx && refs[other] == refs[indx]
    ensures Onto(Remove(refs, indx), n) && Within(Remove(refs, indx), n)
  {
    var r := Remove(refs, indx);
    forall j | 0 <= j < n
      ensures j in r
    {
      assert j in refs;
      var k :| 0 <= k < |refs| && refs[k] == j;
      var i := if k == indx then other else k;
      assert r[if i < indx then i else i - 1] == j;
    }
  }

  /** A further slot for an item already on the page. */
  lemma AdjustedSlots(g: Image, indx: nat, copy: nat)
    requires g.Valid() && indx <= |g.inp| && copy < |g.inp| && 2 <= g.FreeSpace()
    ensures Adjusted(g, indx, copy, true).Valid()
    ensures Refs(Adjusted(g, indx, copy, true)) == Insert(Refs(g), indx, Refs(g)[copy])
    ensures Slots(Adjusted(g, indx, copy, true)) == Insert(Slots(g), indx, Slots(g)[copy])
  {
    hide Find, Depth, Total, Onto, Select;
    var refs := Insert(Refs(g), indx, Refs(g)[copy]);
    RefsOf(g);
    assert Adjusted(g, indx, copy, true).inp == Insert(g.inp, indx, g.inp[copy]);
    CopyOnto(Refs(g), indx, Refs(g)[copy], |g.heap|);
    SelectInserted(g.heap, Refs(g), indx, Refs(g)[copy]);
    ValidFromRefs(Adjusted(g, indx, copy, true), refs);
  }

  /** A slot that shares its item goes; the item stays. */
  lemma UnadjustedSlots(g: Image, indx: nat, copy: nat)
    requires g.Valid() && indx < |g.inp| && g.Shared(indx)
    ensures Adjusted(g, indx, copy, false).Valid()
    ensures Refs(Adjusted(g, indx, copy, false)) == Remove(Refs(g), indx)
    ensures Slots(Adjusted(g, indx, copy, false)) == Remove(Slots(g), indx)
  {
    hide Find, Depth, Total, Onto, Select, Within;
    var refs := Remove(Refs(g), indx);
    RefsOf(g);
    assert Adjusted(g, indx, copy, false).inp == Remove(g.inp, indx);
    var other := SharedWith(g, indx);
    RemoveOnto(Refs(g), indx, other, |g.heap|);
    SelectRemoved(g.heap, Refs(g), indx);
    ValidFromRefs(Adjusted(g, indx, copy, false), refs);
  }

  // ---- `__db_ditem` ----

  /** Item numbers after item `j` is gone. */
  ghost function Renumber(refs: seq<int>, j: int): (r: seq<int>)
    ensures |r| == |refs|
    ensures forall k :: 0 <= k < |r| ==> r[k] == if refs[k] > j then refs[k] - 1 else refs[k]
  {
    seq(|refs|, k requires 0 <= k < |refs| => if refs[k] > j then refs[k] - 1 else refs[k])
  }

  lemma DropOffset(g: Image, indx: nat, refs: seq<int>, k: nat)
    requires RefersTo(g.inp, g.size, g.heap, refs) && indx < |refs| && k < |refs| && refs[k] != refs[indx]
    ensures var j, r := refs[indx], if refs[k] > refs[indx] then refs[k] - 1 else refs[k];
            var heap, n := Splice(g.heap, j, []), Size(g.heap[j]);
            && 0 <= r < |heap|
            && (if g.inp[k] <= g.inp[indx] - 1 then g.inp[k] + n else g.inp[k]) == g.size - Depth(heap, r)
  {
    hide Size, Depth, Total;
    var j := refs[indx];
    OffsetsDecide(g.inp, g.size, g.heap, refs, k, indx);
    DepthSpliced(g.heap, j, [], refs[k]);
    TotalOne(g.heap[j]);
  }

  lemma DropRefs(g: Image, indx: nat, refs: seq<int>)
    requires RefersTo(g.inp, g.size, g.heap, refs) && indx < |refs| && |refs| > 1
    requires g.Ref(indx) == refs[indx]
    requires forall k :: 0 <= k < |refs| && k != indx ==> refs[k] != refs[indx]
    ensures RefersTo(Drop(g, indx).inp, g.size, Drop(g, indx).heap, Remove(Renumber(refs, refs[indx]), indx))
  {
    hide Size, Find, Depth, Total;
    var p, r, n := Drop(g, indx), Remove(Renumber(refs, refs[indx]), indx), Size(g.Slot(indx));
    assert p.inp == Remove(MoveOffsets(g.inp, g.inp[indx] - 1, n), indx);
    forall k | 0 <= k < |r|
      ensures 0 <= r[k] < |p.heap| && p.inp[k] == p.size - Depth(p.heap, r[k])
    {
      DropOffset(g, indx, refs, if k < indx then k else k + 1);
    }
  }

  lemma DropOnto(refs: seq<int>, indx: nat, n: nat)
    requires indx < |refs| && Onto(refs, n) && Within(refs, n)
    requires forall k :: 0 <= k < |refs| && k != indx ==> refs[k] != refs[indx]
    ensures Onto(Remove(Renumber(refs, refs[indx]), indx), n - 1)
  {
    var r := Remove(Renumber(refs, refs[indx]), indx);
    forall j | 0 <= j < n - 1
      ensures j in r
    {
      var was := if j < refs[indx] then j else j + 1;
      assert was in refs;
      var k :| 0 <= k < |refs| && refs[k] == was;
      assert r[if k < indx then k else k - 1] == j;
    }
  }

  /** A slot goes with its own item; every other slot decodes as before. */
  lemma DropSlots(g: Image, indx: nat)
    requires g.Valid() && indx < |g.inp| && !g.Shared(indx)
    ensures Drop(g, indx).Valid()
    ensures Slots(Drop(g, indx)) == Remove(Slots(g), indx)
    ensures Refs(Drop(g, indx)) == Remove(Renumber(Refs(g), Refs(g)[indx]), indx)
  {
    hide Size, Find, Depth, Onto, Total;
    RefsOf(g);
    if |g.inp| == 1 {
      DropOnly(g, indx);
    } else {
      DropOneOfMany(g, indx);
      SelectDropped(g.heap, Refs(g), indx);
    }
  }

  lemma DropOnly(g: Image, indx: nat)
    requires indx < |g.inp| && |g.inp| == 1 && g.Ref(indx) >= 0 && g.Valid()
    ensures Drop(g, indx).Valid()
  {
  }

  lemma DropOneOfMany(g: Image, indx: nat)
    requires g.Valid() && indx < |g.inp| && !g.Shared(indx) && |g.inp| > 1
    ensures Drop(g, indx).Valid()
    ensures Refs(Drop(g, indx)) == Remove(Renumber(Refs(g), Refs(g)[indx]), indx)
    ensures forall k :: 0 <= k < |g.inp| && k != indx ==> Refs(g)[k] != Refs(g)[indx]
  {
    hide Size, Find, Depth, Onto, Total;
    var refs := Refs(g);
    RefsOf(g);
    Unshared(g, indx);
    DropRefs(g, indx, refs);
    DropOnto(refs, indx, |g.heap|);
    TotalSpliced(g.heap, refs[indx], []);
    TotalOne(g.heap[refs[indx]]);
    ValidFromRefs(Drop(g, indx), Remove(Renumber(refs, refs[indx]), indx));
  }

  lemma SelectDropped(heap: seq<Item>, refs: seq<int>, indx: nat)
    requires Within(refs, |heap|) && indx < |refs|
    requires forall k :: 0 <= k < |refs| && k != indx ==> refs[k] != refs[indx]
    ensures Within(Remove(Renumber(refs, refs[indx]), indx), |heap| - 1)
    ensures Select(Splice(heap, refs[indx], []), Remove(Renumber(refs, refs[indx]), indx))
         == Remove(Select(heap, refs), indx)
  {
  }

  lemma SharedWith(g: Image, indx: nat) returns (other: nat)
    requires g.Valid() && indx < |g.inp| && g.Shared(indx)
    ensures other < |g.inp| && other != indx && Refs(g)[other] == Refs(g)[indx]
  {
    Unshared(g, indx);
    other :| 0 <= other < |g.inp| && other != indx && Refs(g)[other] == Refs(g)[indx];
  }

  lemma Unshared(g: Image, indx: nat)
    requires g.Valid() && indx < |g.inp|
    ensures g.Shared(indx) <==> exists k :: 0 <= k < |g.inp| && k != indx && Refs(g)[k] == Refs(g)[indx]
  {
    forall k | 0 <= k < |g.inp|
      ensures Refs(g)[k] == Refs(g)[indx] <==> g.inp[k] == g.inp[indx]
    {
      OffsetsDecide(g.inp, g.size, g.heap, Refs(g), k, indx);
    }
  }

  // ---- `__bam_ritem` ----

  /** Each slot's item with item `j` replaced. */
  ghost function Overwrite(s: seq<Item>, refs: seq<int>, j: int, item: Item): (r: seq<Item>)
    requires |s| == |refs|
    ensures |r| == |s|
    ensures forall k :: 0 <= k < |r| ==> r[k] == if refs[k] == j then item else s[k]
  {
    seq(|s|, k requires 0 <= k < |s| => if refs[k] == j then item else s[k])
  }

  lemma UpdatedDepth(heap: seq<Item>, j: nat, item: Item, k: nat)
    requires j < |heap| && k < |heap|
    ensures Depth(Splice(heap, j, [item]), k) == Depth(heap, k) + if k < j then 0 else Size(item) - Size(heap[j])
  {
    hide Size, Total;
    TotalOne(item);
    if k != j {
      DepthSpliced(heap, j, [item], k);
    } else {
      assert Splice(heap, j, [item])[..j] == heap[..j];
      DepthParts(heap, j, j);
      DepthParts(Splice(heap, j, [item]), j, j);
      assert heap[j + 1..j + 1] == [] && Splice(heap, j, [item])[j + 1..j + 1] == [];
    }
  }

  lemma ReplaceRefs(g: Image, indx: nat, item: Item, refs: seq<int>)
    requires RefersTo(g.inp, g.size, g.heap, refs) && indx < |refs| && g.Ref(indx) == refs[indx]
    requires g.hoffset == g.size - Total(g.heap)
    requires g.hoffset == g.inp[indx] && Size(item) != Size(g.Slot(indx)) ==>
               forall k :: 0 <= k < |refs| && k != indx ==> refs[k] != refs[indx]
    ensures RefersTo(Replace(g, indx, item).inp, g.size, Replace(g, indx, item).heap, refs)
  {
    hide Size, Find;
    var p, j := Replace(g, indx, item), refs[indx];
    forall k | 0 <= k < |refs|
      ensures p.inp[k] == p.size - Depth(p.heap, refs[k])
    {
      UpdatedDepth(g.heap, j, item, refs[k]);
      OffsetsDecide(g.inp, g.size, g.heap, refs, k, indx);
      if g.hoffset == g.inp[indx] {
        FirstIsLast(g, refs, indx);
      }
    }
  }

  /** The item at `hoffset` is the one put last. */
  lemma FirstIsLast(g: Image, refs: seq<int>, i: nat)
    requires RefersTo(g.inp, g.size, g.heap, refs) && i < |refs|
    requires g.hoffset == g.size - Total(g.heap)
    ensures g.inp[i] == g.hoffset <==> refs[i] == |g.heap| - 1
  {
    assert g.heap[..|g.heap|] == g.heap;
    if refs[i] < |g.heap| - 1 {
      DepthGrows(g.heap, refs[i], |g.heap| - 1);
    }
  }

  /** The replaced item changes in its own slot only, wherever it lies and whichever way its
    * size changes. */
  lemma ReplaceSlots(g: Image, indx: nat, item: Item)
    requires g.Valid() && indx < |g.inp|
    requires Size(item) - Size(g.Slot(indx)) <= g.FreeSpace()
    requires g.hoffset == g.inp[indx] && Size(item) != Size(g.Slot(indx)) ==> !g.Shared(indx)
    ensures Replace(g, indx, item).Valid()
    ensures Refs(Replace(g, indx, item)) == Refs(g)
    ensures Slots(Replace(g, indx, item)) == Overwrite(Slots(g), Refs(g), Refs(g)[indx], item)
    ensures !g.Shared(indx) ==> Slots(Replace(g, indx, item)) == Slots(g)[indx := item]
  {
    hide Size, Find, Depth, Total;
    RefsOf(g);
    var refs := Refs(g);
    forall k | 0 <= k < |refs| && k != indx
      ensures refs[k] == refs[indx] <==> g.inp[k] == g.inp[indx]
    {
      OffsetsDecide(g.inp, g.size, g.heap, refs, k, indx);
    }
    ReplaceRefs(g, indx, item, refs);
    TotalSpliced(g.heap, refs[indx], [item]);
    TotalOne(item);
    ValidFromRefs(Replace(g, indx, item), refs);
    assert Slots(Replace(g, indx, item)) == Overwrite(Slots(g), refs, refs[indx], item);
  }

  // ---- Undoing ----

  lemma UndoPut(g: Image, indx: nat, item: Item)
    requires g.Valid() && indx <= |g.inp|
    ensures Put(g, indx, item).Ref(indx) == |g.heap|
    ensures Drop(Put(g, indx, item), indx) == g
  {
    hide Size, Find, Depth, Total;
    var p := Put(g, indx, item);
    RefsOf(g);
    PutRefs(g, indx, item, Refs(g));
    FindDepth(p.heap, |g.heap|);
    if |g.inp| == 0 {
      NoSlots(g);
    } else {
      MovedPast(g, indx, item);
      assert p.heap[|g.heap|] == item;
      assert Splice(p.heap, |g.heap|, []) == g.heap;
    }
  }

  /** The last item put lies below all others. */
  lemma MovedPast(g: Image, indx: nat, item: Item)
    requires g.Valid() && indx <= |g.inp|
    ensures var p := Put(g, indx, item);
            var moved := MoveOffsets(p.inp, p.inp[indx] - 1, Size(item));
            Remove(moved, indx) == g.inp
  {
    hide Size, Find, Depth, Total, Onto, MoveOffsets;
    var p := Put(g, indx, item);
    SizePositive(item);
    AboveHoffset(g);
    assert p.inp == Insert(g.inp, indx, p.hoffset);
    MovedNone(g.inp, indx, p.hoffset, Size(item));
  }

  lemma AboveHoffset(g: Image)
    requires g.Valid()
    ensures forall k :: 0 <= k < |g.inp| ==> g.inp[k] >= g.hoffset
  {
    hide Size, Find, Depth, Total, Onto;
    RefsOf(g);
    forall k | 0 <= k < |g.inp|
      ensures g.inp[k] >= g.hoffset
    {
      DepthBelowTotal(g.heap, Refs(g)[k]);
    }
  }

  lemma MovedNone(inp: seq<int>, indx: nat, h: int, n: nat)
    requires indx <= |inp| && forall k :: 0 <= k < |inp| ==> inp[k] >= h
    ensures Remove(MoveOffsets(Insert(inp, indx, h), h - 1, n), indx) == inp
  {
  }

  lemma NoSlots(g: Image)
    requires g.Valid() && |g.inp| == 0
    ensures g.heap == [] && g.hoffset == g.size
  {
    assert Refs(g) == [];
    OntoNothing(|g.heap|);
  }

  lemma OntoNothing(n: nat)
    ensures Onto([], n) <==> n == 0
  {
    var none: seq<int> := [];
    if n > 0 {
      assert 0 <= 0 < n && 0 !in none;
    }
  }

  lemma DepthBelowTotal(heap: seq<Item>, j: nat)
    requires j < |heap|
    ensures Size(heap[j]) <= Depth(heap, j) <= Total(heap)
  {
    hide Total, Size;
    DepthParts(heap, j, j);
    WholeDepth(heap);
    DepthParts(heap, j, |heap| - 1);
    assert heap[j + 1..j + 1] == [];
    TotalOne(heap[j]);
  }

  /** The copied slot of a removal: the duplicate behind or before the removed key. */
  predicate CopyOf(g: Image, indx: nat, copy: nat) {
    && indx < |g.inp|
    && ((copy == indx + O_INDX && indx + P_INDX < |g.inp| && g.inp[indx + P_INDX] == g.inp[indx])
        || (copy + P_INDX == indx && g.inp[copy] == g.inp[indx]))
  }

  /** The logged `indx_copy` rebuilds the removed slot, although it was chosen before the
    * removal shifted the table. */
  lemma UndoRemoval(g: Image, indx: nat, copy: nat)
    requires CopyOf(g, indx, copy)
    ensures copy < |Adjusted(g, indx, copy, false).inp|
    ensures Adjusted(Adjusted(g, indx, copy, false), indx, copy, true) == g
  {
    assert g.inp == g.inp[..indx] + [g.inp[indx]] + g.inp[indx + 1..];
  }

  lemma UndoCopy(g: Image, indx: nat, copy: nat)
    requires indx <= |g.inp| && copy < |g.inp|
    ensures Adjusted(Adjusted(g, indx, copy, true), indx, copy, false) == g
  {
    var a := Adjusted(g, indx, copy, true);
    assert a.inp[..indx] + a.inp[indx + 1..] == g.inp;
  }

  /** Moving offsets up to `off` there and back. */
  lemma MoveBack(inp: seq<int>, off: int, n: int)
    requires forall k :: 0 <= k < |inp| ==> inp[k] <= off || inp[k] > off + n
    ensures MoveOffsets(MoveOffsets(inp, off, n), off + n, -n) == inp
  {
  }

  /** Replacing an item and putting the old one back restores the page, byte for byte. */
  lemma UndoReplace(g: Image, indx: nat, item: Item)
    requires g.Valid() && indx < |g.inp|
    requires g.hoffset == g.inp[indx] && Size(item) != Size(g.Slot(indx)) ==> !g.Shared(indx)
    ensures Replace(g, indx, item).Ref(indx) == g.Ref(indx)
    ensures Replace(Replace(g, indx, item), indx, g.Slot(indx)) == g
  {
    hide Size, Find, Depth, Total;
    var r, refs, j := Replace(g, indx, item), Refs(g), g.Ref(indx);
    var n := Size(g.Slot(indx)) - Size(item);
    RefsOf(g);
    Unshared(g, indx);
    ReplaceRefs(g, indx, item, refs);
    FindDepth(r.heap, j);
    assert Splice(r.heap, j, [g.Slot(indx)]) == g.heap;
    FirstIsLast(g, refs, indx);
    TotalSpliced(g.heap, j, [item]);
    TotalOne(item);
    FirstIsLast(r, refs, indx);
    if g.hoffset == g.inp[indx] {
      assert r.inp[indx := g.inp[indx]] == g.inp;
    } else {
      RoomBelow(g, indx, item);
      MoveBack(g.inp, g.inp[indx], n);
    }
  }

  /** Items above the replaced one lie far enough away. */
  lemma RoomBelow(g: Image, indx: nat, item: Item)
    requires g.Valid() && indx < |g.inp|
    ensures var n := Size(g.Slot(indx)) - Size(item);
            forall k :: 0 <= k < |g.inp| ==> g.inp[k] <= g.inp[indx] || g.inp[k] > g.inp[indx] + n
  {
    hide Size, Find, Depth, Total;
    RefsOf(g);
    SizePositive(item);
    var refs := Refs(g);
    forall k | 0 <= k < |g.inp| && g.inp[k] > g.inp[indx]
      ensures g.inp[k] > g.inp[indx] + (Size(g.Slot(indx)) - Size(item))
    {
      OffsetsDecide(g.inp, g.size, g.heap, refs, k, indx);
      DepthGrows(g.heap, refs[k], refs[indx]);
    }
  }

  lemma SizePositive(item: Item)
    ensures Size(item) > 0
  {
  }
}
