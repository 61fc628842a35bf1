/** The routines that change a page in place: `__db_pitem`, `__db_ditem`, `__bam_adjindx`,
  * `__bam_ditem` and `__bam_ritem`. */
module PageOps {
  import opened Bytes
  import opened ItemBytes
  import opened SlottedPage

  datatype Option<T> = None | Some(value: T)

  /** What `__bam_ritem` logs: the parts in which the two items differ. */
  datatype Diff = Diff(prefix: nat, suffix: nat, orig: seq<byte>, repl: seq<byte>)

  /** The item is rebuilt from the other one and one side of the difference. */
  function Rebuild(other: seq<byte>, prefix: nat, suffix: nat, middle: seq<byte>): seq<byte>
    requires prefix + suffix <= |other|
  {
    other[..prefix] + middle + other[|other| - suffix..]
  }

  /** Either item is rebuilt from the other. */
  predicate Describes(d: Diff, before: seq<byte>, after: seq<byte>) {
    && d.prefix + d.suffix <= |before| && d.prefix + d.suffix <= |after|
    && Rebuild(before, d.prefix, d.suffix, d.repl) == after
    && Rebuild(after, d.prefix, d.suffix, d.orig) == before
  }

  method FindDiff(before: seq<byte>, after: seq<byte>) returns (d: Diff)
    ensures Describes(d, before, after)
    ensures d.prefix == Lcp(before, after)
    ensures d.orig != [] && d.repl != [] ==> d.orig[|d.orig| - 1] != d.repl[|d.repl| - 1]
  {
    var min := if |after| < |before| then |after| else |before|;
    var prefix := 0;
    while prefix < min && before[prefix] == after[prefix]
      invariant prefix <= min
      invariant before[..prefix] == after[..prefix]
    {
      prefix := prefix + 1;
    }
    LcpUnique(before, after, prefix);
    min := min - prefix;
    var suffix := 0;
    while suffix < min && before[|before| - 1 - suffix] == after[|after| - 1 - suffix]
      invariant suffix <= min
      invariant before[|before| - suffix..] == after[|after| - suffix..]
    {
      suffix := suffix + 1;
    }
    d := Diff(prefix, suffix, before[prefix..|before| - suffix], after[prefix..|after| - suffix]);
    ThreeParts(before, prefix, suffix);
    ThreeParts(after, prefix, suffix);
  }

  lemma ThreeParts(s: seq<byte>, prefix: nat, suffix: nat)
    requires prefix + suffix <= |s|
    ensures s == s[..prefix] + s[prefix..|s| - suffix] + s[|s| - suffix..]
  {
  }

  /** Key slots share an item within one run of duplicates, data slots never. */
  ghost predicate DupSets(g: Image) {
    forall i, j :: 0 <= i < j < |g.inp| && g.inp[i] == g.inp[j] ==>
      && g.kind == LBtree && i % 2 == 0 && j % 2 == 0
      && forall k :: i <= k <= j && k % 2 == 0 ==> g.inp[k] == g.inp[i]
  }

  /** The slot whose offset is copied when the removal of slot `indx` is undone, if the slot
    * shares its item. */
  function CopyIndex(g: Image, indx: nat): Option<nat>
    requires indx < |g.inp|
  {
    if g.kind == LBtree && indx % 2 == 0 then
      if indx + P_INDX < |g.inp| && g.inp[indx] == g.inp[indx + P_INDX] then Some(indx + O_INDX)
      else if indx > 0 && g.inp[indx] == g.inp[indx - P_INDX] then Some(indx - P_INDX)
      else None
    else None
  }

  lemma CopyIndexIffShared(g: Image, indx: nat)
    requires DupSets(g) && indx < |g.inp|
    ensures CopyIndex(g, indx).Some? <==> g.Shared(indx)
    ensures CopyIndex(g, indx).Some? ==> CopyOf(g, indx, CopyIndex(g, indx).value)
  {
    if g.Shared(indx) {
      var j :| 0 <= j < |g.inp| && j != indx && g.inp[j] == g.inp[indx];
      if j > indx {
        assert g.inp[indx + 2] == g.inp[indx];
      } else {
        assert g.inp[indx - 2] == g.inp[j];
      }
    }
  }

  class Page {
    const size: nat
    var lsn: nat
    var pgno: nat
    var prev: int
    var next: int
    var level: nat
    var kind: Kind
    var inp: seq<int>
    var hoffset: int
    var heap: seq<Item>

    constructor Init(size: nat, lsn: nat, pgno: nat, prev: int, next: int, level: nat, kind: Kind)
      ensures Img() == Fresh(size, lsn, pgno, prev, next, level, kind)
    {
      this.size, this.lsn, this.pgno, this.prev, this.next := size, lsn, pgno, prev, next;
      this.level, this.kind, inp, hoffset, heap := level, kind, [], size, [];
    }

    /** A page read from its image. */
    constructor Of(g: Image)
      ensures Img() == g
    {
      size, lsn, pgno, prev, next := g.size, g.lsn, g.pgno, g.prev, g.next;
      level, kind, inp, hoffset, heap := g.level, g.kind, g.inp, g.hoffset, g.heap;
    }

    function Img(): Image
      reads this
    {
      Image(size, lsn, pgno, prev, next, level, kind, inp, hoffset, heap)
    }

    /** `__db_pitem_nolog`; false is EINVAL.  Only the item is checked against the free space;
      * the callers have made room for its index entry too. */
    method PItem(indx: nat, item: Item) returns (ok: bool)
      requires indx <= |inp|
      modifies this
      ensures ok == (Size(item) <= old(Img().FreeSpace()))
      ensures Img() == if ok then Put(old(Img()), indx, item) else old(Img())
    {
      if Size(item) > Img().FreeSpace() {
        return false;
      }
      hoffset := hoffset - Size(item);
      inp := inp[..indx] + [hoffset] + inp[indx..];
      heap := heap + [item];
      return true;
    }

    /** `__db_ditem_nolog`. */
    method DItem(indx: nat, nbytes: nat)
      requires Img().Valid() && indx < |inp| && nbytes == Size(Img().Slot(indx))
      modifies this
      ensures Img() == Drop(old(Img()), indx)
    {
      if |inp| == 1 {
        inp, hoffset, heap := [], size, [];
        return;
      }
      heap := Splice(heap, Img().Ref(indx), []);
      hoffset := hoffset + nbytes;
      var offset := inp[indx];
      ghost var was := inp;
      for cnt := 0 to |inp|
        invariant Img() == old(Img()).(inp := inp, hoffset := old(hoffset) + nbytes,
                                       heap := Splice(old(heap), old(Img().Ref(indx)), []))
        invariant |inp| == |was|
        invariant forall k :: 0 <= k < |was| ==> inp[k] == if k < cnt && was[k] < offset then was[k] + nbytes else was[k]
      {
        if inp[cnt] < offset {
          inp := inp[cnt := inp[cnt] + nbytes];
        }
      }
      assert inp == MoveOffsets(was, offset - 1, nbytes);
      inp := inp[..indx] + inp[indx + 1..];
    }

    /** `__bam_adjindx`. */
    method AdjIndx(indx: nat, indxCopy: nat, isInsert: bool)
      requires if isInsert then indx <= |inp| && indxCopy < |inp| else indx < |inp|
      modifies this`inp
      ensures Img() == Adjusted(old(Img()), indx, indxCopy, isInsert)
    {
      if isInsert {
        var copy := inp[indxCopy];
        inp := inp[..indx] + [copy] + inp[indx..];
      } else {
        inp := inp[..indx] + inp[indx + 1..];
      }
    }

    /** `__bam_ditem`: the slot goes, and its item with it unless another key slot of the
      * duplicate set still needs it.  `freed` is the overflow chain given back. */
    method BamDItem(indx: nat) returns (copy: Option<nat>, freed: Option<nat>)
      requires Img().Valid() && DupSets(Img()) && indx < |inp|
      modifies this
      ensures Img().Valid() && Slots(Img()) == Remove(Slots(old(Img())), indx)
      ensures copy == CopyIndex(old(Img()), indx)
      ensures copy.Some? ==> Img() == Adjusted(old(Img()), indx, copy.value, false)
      ensures copy.None? ==> Img() == Drop(old(Img()), indx)
      ensures freed == match old(Img()).Slot(indx)
                       case OffPage(_, false, first, _) => if copy.Some? then None else Some(first)
                       case BigChild(_, _, first, _) => if copy.Some? then None else Some(first)
                       case _ => None
    {
      hide Size, Find, Depth, Total, Drop, Adjusted;
      freed := None;
      CopyIndexIffShared(Img(), indx);
      copy := CopyIndex(Img(), indx);
      var item := Img().Slot(indx);
      if copy.Some? {
        UnadjustedSlots(Img(), indx, copy.value);
        AdjIndx(indx, copy.value, false);
        return;
      }
      match item {
        case OffPage(_, false, first, _) => freed := Some(first);
        case BigChild(_, _, first, _) => freed := Some(first);
        case _ =>
      }
      DropSlots(Img(), indx);
      DItem(indx, Size(item));
    }

    /** `__bam_ritem`.  On an internal page the flag changes the type of the entry; on a leaf
      * page the deleted flag of the old item is logged in its place. */
    method RItem(indx: nat, data: seq<byte>, typeflag: bool) returns (d: Diff, logged: bool)
      requires Img().Valid() && indx < |inp| && Fits(Img().Slot(indx), typeflag, data)
      modifies this
      ensures Img() == Replace(old(Img()), indx, Remade(old(Img()).Slot(indx), typeflag, data))
      ensures Describes(d, Body(old(Img()).Slot(indx)), data)
      ensures logged == match old(Img()).Slot(indx) case KeyData(deleted, _) => deleted case _ => typeflag
    {
      hide Find, Total, Depth, Size, Describes, Body, Remade, Fits;
      var bk, ref := Img().Slot(indx), Img().Ref(indx);
      var item := Remade(bk, typeflag, data);
      HasBody(bk, typeflag, data);
      d := FindDiff(Body(bk), data);
      logged := match bk case KeyData(deleted, _) => deleted case _ => typeflag;
      Resize(indx, Size(bk) - Size(item));
      heap := Splice(heap, ref, [item]);
    }

    /** `__bam_irep`: the overflow chain of the old entry is `freed`. */
    method IRep(indx: nat, entry: Item) returns (d: Diff, typeflag: bool, freed: Option<nat>)
      requires Img().Valid() && indx < |inp| && Replaceable(Img().Slot(indx)) && !Img().Slot(indx).KeyData?
      requires Replaceable(entry) && !entry.KeyData?
      modifies this
      ensures Img() == Replace(old(Img()), indx, entry)
      ensures Describes(d, Body(old(Img()).Slot(indx)), Body(entry))
      ensures TurnsInto(old(Img()).Slot(indx), typeflag, entry)
      ensures freed == match old(Img()).Slot(indx) case BigChild(_, _, first, _) => Some(first) case _ => None
    {
      hide Find, Total, Depth, Size, Describes, Body, Remade, Fits, Replace;
      var bi := Img().Slot(indx);
      freed := match bi case BigChild(_, _, first, _) => Some(first) case _ => None;
      RemadeOfBody(bi, bi.BigChild? != entry.BigChild?, entry);
      d, typeflag := RItem(indx, Body(entry), bi.BigChild? != entry.BigChild?);
    }

    method Resize(indx: nat, nbytes: int)
      requires indx < |inp|
      modifies this`inp, this`hoffset
      ensures inp == if old(hoffset) == old(inp[indx]) then old(inp[indx := inp[indx] + nbytes])
                     else MoveOffsets(old(inp), old(inp[indx]), nbytes)
      ensures hoffset == old(hoffset) + nbytes
    {
      if nbytes == 0 {
        NoMove(inp, indx);
        return;
      }
      if hoffset == inp[indx] {
        inp := inp[indx := inp[indx] + nbytes];
      } else {
        ShiftIndices(inp[indx], nbytes);
      }
      hoffset := hoffset + nbytes;
    }

    /** The offsets of the items moved by `__bam_ritem`. */
    method ShiftIndices(off: int, nbytes: int)
      modifies this`inp
      ensures inp == MoveOffsets(old(inp), off, nbytes)
    {
      ghost var was := inp;
      for cnt := 0 to |inp|
        invariant |inp| == |was|
        invariant forall k :: 0 <= k < |was| ==> inp[k] == if k < cnt && was[k] <= off then was[k] + nbytes else was[k]
      {
        if inp[cnt] <= off {
          inp := inp[cnt := inp[cnt] + nbytes];
        }
      }
    }
  }

  lemma NoMove(inp: seq<int>, indx: nat)
    requires indx < |inp|
    ensures MoveOffsets(inp, inp[indx], 0) == inp && inp[indx := inp[indx] + 0] == inp
  {
  }
  lemma HasBody(item: Item, typeflag: bool, body: seq<byte>)
    requires Fits(item, typeflag, body)
    ensures Replaceable(item)
  {
  }
}
