/** Write-ahead-log recovery of the btree records adj, cadjust, cdel, repl, relink and split:
  * what each record does to one page, and what its undo does. */
module Recovery {
  import opened Bytes
  import opened ItemBytes
  import opened SlottedPage
  import opened PageOps
  import opened PageSplit

  const PGNO_INVALID: nat := 0
  const ZERO_LSN: nat := 0
  const NOT_LOGGED: nat := 1
  const LEAFLEVEL: nat := 1

  /** A log record, with the LSN each of its pages had when it was written.  Off the page
    * image `pg` of a split, the page that was divided is recovered. */
  datatype Record =
    | Adj(pgno: nat, lsn: nat, indx: nat, indxCopy: nat, isInsert: bool)
    | CAdjust(pgno: nat, lsn: nat, indx: nat, adjust: int, updateRoot: bool)
    | CDel(pgno: nat, lsn: nat, indx: nat)
    | Repl(pgno: nat, lsn: nat, indx: nat, isDeleted: bool, diff: Diff)
    | Relink(pgno: nat, newPgno: nat, prev: nat, lsnPrev: nat, next: nat, lsnNext: nat)
    | Split(left: nat, llsn: nat, right: nat, rlsn: nat, indx: nat, npgno: nat, nlsn: nat,
            ppgno: nat, plsn: nat, pindx: nat, pg: Image, pentry: Item, rentry: Item,
            recno: bool, nrecs: bool)

  predicate RootSplit(rec: Record)
    requires rec.Split?
  {
    rec.ppgno == rec.pg.pgno
  }

  function Touches(rec: Record): set<nat> {
    match rec
    case Relink(_, _, prev, _, next, _) =>
      (if next != PGNO_INVALID then {next} else {}) + (if prev != PGNO_INVALID then {prev} else {})
    case Split(left, _, right, _, _, npgno, _, ppgno, _, _, _, _, _, _, _) =>
      {left, right, ppgno} + if !RootSplit(rec) && npgno != PGNO_INVALID then {npgno} else {}
    case _ => {rec.pgno}
  }

  /** The logged LSN of a page before the record. */
  function Prior(rec: Record, p: nat): nat {
    match rec
    case Relink(_, _, prev, lsnPrev, next, lsnNext) => if p == next then lsnNext else lsnPrev
    case Split(left, llsn, right, rlsn, _, _, nlsn, ppgno, plsn, _, pg, _, _, _, _) =>
      if p == ppgno then (if RootSplit(rec) then pg.lsn else plsn)
      else if p == left then llsn else if p == right then rlsn else nlsn
    case _ => rec.lsn
  }

  /** Pages a split takes from the free list; their contents before it do not matter. */
  predicate IsNew(rec: Record, p: nat) {
    rec.Split? && (p == rec.right || (RootSplit(rec) && p == rec.left))
  }

  // ---- Single-page effects ----

  function AdjustItem(item: Item, adjust: int): Item {
    match item
    case Child(pgno, nrecs, key) => Child(pgno, nrecs + adjust, key)
    case BigChild(pgno, nrecs, first, tlen) => BigChild(pgno, nrecs + adjust, first, tlen)
    case RecnoChild(pgno, nrecs) => RecnoChild(pgno, nrecs + adjust)
    case _ => item
  }

  /** An item changed where it lies, without changing its size. */
  function InPlace(g: Image, indx: nat, item: Item): Image
    requires indx < |g.inp| && g.Ref(indx) >= 0
  {
    g.(heap := g.heap[g.Ref(indx) := item])
  }

  /** The count of an internal entry, and the total that a root keeps in its link field. */
  function CountAdjusted(g: Image, indx: nat, adjust: int, updateRoot: bool): Image
    requires indx < |g.inp| && g.Ref(indx) >= 0
  {
    var c := InPlace(g, indx, AdjustItem(g.Slot(indx), adjust));
    if updateRoot then c.(prev := g.prev + adjust) else c
  }

  predicate Leaf(item: Item) {
    item.KeyData? || item.OffPage?
  }

  function SetDeleted(item: Item, deleted: bool): Item {
    match item
    case KeyData(_, data) => KeyData(deleted, data)
    case OffPage(_, duplicates, first, tlen) => OffPage(deleted, duplicates, first, tlen)
    case _ => item
  }

  /** The slot of the data item a deletion marks. */
  function DataIndex(g: Image, indx: nat): nat {
    indx + if g.kind == LBtree then O_INDX else 0
  }

  function Marked(g: Image, indx: nat, deleted: bool): Image
    requires DataIndex(g, indx) < |g.inp| && g.Ref(DataIndex(g, indx)) >= 0
  {
    InPlace(g, DataIndex(g, indx), SetDeleted(g.Slot(DataIndex(g, indx)), deleted))
  }

  /** An item of another value and the same size. */
  lemma InPlaceSlots(g: Image, indx: nat, item: Item)
    requires g.Valid() && indx < |g.inp| && Size(item) == Size(g.Slot(indx))
    ensures InPlace(g, indx, item).Valid() && Refs(InPlace(g, indx, item)) == Refs(g)
    ensures !g.Shared(indx) ==> Slots(InPlace(g, indx, item)) == Slots(g)[indx := item]
  {
    hide Size, Find, Depth, Total, Slots, Refs, Onto;
    ReplaceSlots(g, indx, item);
    NoMove(g.inp, indx);
    assert Splice(g.heap, g.Ref(indx), [item]) == g.heap[g.Ref(indx) := item];
    assert Replace(g, indx, item) == InPlace(g, indx, item);
  }

  /** The count of one entry grows, and nothing else on the page changes but the total. */
  lemma CountAdjustedSlots(g: Image, indx: nat, adjust: int, updateRoot: bool)
    requires g.Valid() && indx < |g.inp| && !Leaf(g.Slot(indx)) && !g.Shared(indx)
    ensures var c := CountAdjusted(g, indx, adjust, updateRoot);
            && c.Valid()
            && Slots(c) == Slots(g)[indx := g.Slot(indx).(nrecs := g.Slot(indx).nrecs + adjust)]
            && c == g.(prev := g.prev + (if updateRoot then adjust else 0), heap := c.heap)
  {
    hide Find, Depth, Total, Slots, Refs, Onto;
    var item := g.Slot(indx).(nrecs := g.Slot(indx).nrecs + adjust);
    InPlaceSlots(g, indx, item);
    MovedLink(InPlace(g, indx, item), g.prev + adjust);
  }

  lemma MovedLink(g: Image, prev: int)
    requires g.Valid()
    ensures g.(prev := prev).Valid() && Slots(g.(prev := prev)) == Slots(g)
  {
    hide Find, Total;
    assert Refs(g) == Refs(g.(prev := prev));
  }

  /** The flag of one data item changes, behind its key on a btree leaf. */
  lemma MarkedSlots(g: Image, indx: nat, deleted: bool)
    requires g.Valid() && (if g.kind == LBtree then indx + 1 else indx) < |g.inp|
    requires var at := if g.kind == LBtree then indx + 1 else indx; Leaf(g.Slot(at)) && !g.Shared(at)
    ensures var m, at := Marked(g, indx, deleted), if g.kind == LBtree then indx + 1 else indx;
            && m.Valid() && Slots(m) == Slots(g)[at := g.Slot(at).(deleted := deleted)]
            && m == g.(heap := m.heap)
  {
    hide Find, Depth, Total, Slots, Refs, Onto;
    var at := if g.kind == LBtree then indx + 1 else indx;
    InPlaceSlots(g, at, g.Slot(at).(deleted := deleted));
  }

  /** The item can be rebuilt from the bytes on the page. */
  predicate CanRebuild(g: Image, indx: nat, flag: bool, d: Diff, middle: seq<byte>) {
    && indx < |g.inp| && g.Ref(indx) >= 0 && Replaceable(g.Slot(indx))
    && d.prefix + d.suffix <= |Body(g.Slot(indx))|
    && Fits(g.Slot(indx), flag, Rebuild(Body(g.Slot(indx)), d.prefix, d.suffix, middle))
  }

  function Rebuilt(g: Image, indx: nat, flag: bool, d: Diff, middle: seq<byte>): Image
    requires CanRebuild(g, indx, flag, d, middle)
  {
    Replace(g, indx, Remade(g.Slot(indx), flag, Rebuild(Body(g.Slot(indx)), d.prefix, d.suffix, middle)))
  }

  /** On a leaf page the flag of the record is the deleted flag of the old item. */
  function UndoRepl(g: Image, rec: Record): Image
    requires rec.Repl? && CanRebuild(g, rec.indx, rec.isDeleted, rec.diff, rec.diff.orig)
  {
    var r := Rebuilt(g, rec.indx, rec.isDeleted, rec.diff, rec.diff.orig);
    if rec.isDeleted && g.level == LEAFLEVEL && r.Ref(rec.indx) >= 0 then InPlace(r, rec.indx, SetDeleted(r.Slot(rec.indx), true)) else r
  }

  /** What slot `i` adds to the total. */
  function CountOf(kind: Kind, i: nat, item: Item): int {
    match item
    case KeyData(deleted, _) => if kind == LRecno || (!deleted && (kind == LBtree ==> i % 2 == 1)) then 1 else 0
    case OffPage(deleted, _, _, _) => if kind == LRecno || (!deleted && (kind == LBtree ==> i % 2 == 1)) then 1 else 0
    case Child(_, nrecs, _) => nrecs
    case BigChild(_, nrecs, _, _) => nrecs
    case RecnoChild(_, nrecs) => nrecs
  }

  /** `__bam_total`: the records below a page. */
  function RecordTotal(kind: Kind, slots: seq<Item>): int {
    if slots == [] then 0
    else RecordTotal(kind, slots[..|slots| - 1]) + CountOf(kind, |slots| - 1, slots[|slots| - 1])
  }

  // ---- The pages of a split, built from the logged image ----

  ghost predicate SplitImage(rec: Record) {
    && rec.Split? && rec.pg.Valid() && DupSets(rec.pg) && SplitPoint(rec.pg, rec.indx)
  }

  ghost function LeftPage(rec: Record): Image
    requires SplitImage(rec)
  {
    var sp := rec.pg;
    var internal := IsInternal(sp.kind);
    var blank := if RootSplit(rec)
      then Fresh(sp.size, 0, rec.left, 0, if internal then 0 else rec.right, sp.level, sp.kind)
      else Fresh(sp.size, 0, sp.pgno, if internal then 0 else sp.prev, if internal then 0 else rec.right, sp.level, sp.kind);
    Copied(sp, blank, 0, rec.indx)
  }

  ghost function RightPage(rec: Record): Image
    requires SplitImage(rec)
  {
    var sp := rec.pg;
    var internal := IsInternal(sp.kind);
    var blank := if RootSplit(rec)
      then Fresh(sp.size, 0, rec.right, if internal then 0 else rec.left, 0, sp.level, sp.kind)
      else Fresh(sp.size, 0, rec.right, if internal then 0 else sp.pgno, if internal then 0 else sp.next, sp.level, sp.kind);
    Copied(sp, blank, rec.indx, |sp.inp| - rec.indx)
  }

  /** The parent of a root split is the root page itself, made anew. */
  ghost function NewRoot(rec: Record): Image
    requires SplitImage(rec) && rec.pindx == 0
  {
    SplitPages(rec);
    var left, right := LeftPage(rec), RightPage(rec);
    var blank := Fresh(rec.pg.size, 0, rec.pg.pgno, 0, 0, left.level + 1, if rec.recno then IRecno else IBtree);
    var counted := if rec.nrecs
      then blank.(prev := RecordTotal(left.kind, Slots(left)) + RecordTotal(right.kind, Slots(right)))
      else blank;
    Put(Put(counted, rec.pindx, rec.pentry), rec.pindx + 1, rec.rentry)
  }

  /** Both entries of a new root page fit on it. */
  predicate RootFits(rec: Record)
    requires rec.Split?
  {
    Size(rec.pentry) + Size(rec.rentry) + SIZEOF_PAGE + 2 <= rec.pg.size
  }

  lemma SplitPages(rec: Record)
    requires SplitImage(rec)
    ensures LeftPage(rec).Valid() && RightPage(rec).Valid()
    ensures DupSets(LeftPage(rec)) && DupSets(RightPage(rec))
    ensures Slots(LeftPage(rec)) + [Slots(rec.pg)[rec.indx]] + Slots(RightPage(rec))[1..] == Slots(rec.pg)
  {
    hide Find, Depth, Total, DupSets, Copied;
    var sp := rec.pg;
    var internal := IsInternal(sp.kind);
    if RootSplit(rec) {
      SplitConserves(sp, Fresh(sp.size, 0, rec.left, 0, if internal then 0 else rec.right, sp.level, sp.kind),
                     Fresh(sp.size, 0, rec.right, if internal then 0 else rec.left, 0, sp.level, sp.kind), rec.indx);
    } else {
      SplitConserves(sp, Fresh(sp.size, 0, sp.pgno, if internal then 0 else sp.prev,
                               if internal then 0 else rec.right, sp.level, sp.kind),
                     Fresh(sp.size, 0, rec.right, if internal then 0 else sp.pgno,
                           if internal then 0 else sp.next, sp.level, sp.kind), rec.indx);
    }
  }

  // ---- Redo and undo of one record on one page ----

  /** The page is one the record can be executed on. */
  ghost predicate CanRedo(rec: Record, p: nat, g: Image) {
    match rec
    case Adj(_, _, indx, copy, isInsert) =>
      if isInsert then indx <= |g.inp| && copy < |g.inp| else indx < |g.inp|
    case CAdjust(_, _, indx, _, _) => indx < |g.inp| && g.Ref(indx) >= 0
    case CDel(_, _, indx) => DataIndex(g, indx) < |g.inp| && g.Ref(DataIndex(g, indx)) >= 0
    case Repl(_, _, indx, flag, d) => CanRebuild(g, indx, flag, d, d.repl)
    case Relink(_, _, _, _, _, _) => true
    case Split(_, _, _, _, _, _, _, ppgno, _, pindx, _, _, _, _, _) =>
      && SplitImage(rec)
      && (p == ppgno ==> if RootSplit(rec) then pindx == 0 && RootFits(rec)
                         else pindx < |g.inp| && Size(rec.rentry) <= g.FreeSpace())
  }

  ghost function Redo(rec: Record, lsn: nat, p: nat, g: Image): (r: Image)
    requires CanRedo(rec, p, g)
    ensures r.lsn == lsn
  {
    var r := match rec
      case Adj(_, _, indx, copy, isInsert) => Adjusted(g, indx, copy, isInsert)
      case CAdjust(_, _, indx, adjust, updateRoot) => CountAdjusted(g, indx, adjust, updateRoot)
      case CDel(_, _, indx) => Marked(g, indx, true)
      case Repl(_, _, indx, flag, d) => Rebuilt(g, indx, flag, d, d.repl)
      case Relink(_, newPgno, prev, _, next, _) =>
        if p == next then g.(prev := if newPgno == PGNO_INVALID then prev else newPgno)
        else g.(next := if newPgno == PGNO_INVALID then next else newPgno)
      case Split(left, _, right, _, _, _, _, ppgno, _, pindx, _, _, rentry, _, _) =>
        if p == ppgno then (if RootSplit(rec) then NewRoot(rec) else Put(g, pindx + 1, rentry))
        else if p == left then LeftPage(rec)
        else if p == right then RightPage(rec)
        else g.(prev := right);
    r.(lsn := lsn)
  }

  ghost predicate CanUndo(rec: Record, p: nat, g: Image) {
    match rec
    case Adj(_, _, indx, copy, isInsert) =>
      if isInsert then indx < |g.inp| else indx <= |g.inp| && copy < |g.inp|
    case Split(_, _, _, _, _, _, _, ppgno, _, pindx, _, _, _, _, _) =>
      p == ppgno && !RootSplit(rec) ==> pindx + 1 < |g.inp| && g.Ref(pindx + 1) >= 0
    case Repl(_, _, indx, flag, d) => CanRebuild(g, indx, flag, d, d.orig)
    case _ => CanRedo(rec, p, g)
  }

  /** A page taken from the free list gets only its LSN back; undoing its allocation returns
    * it to the list. */
  ghost function Undo(rec: Record, p: nat, g: Image): Image
    requires CanUndo(rec, p, g)
  {
    match rec
    case Adj(_, lsn, indx, copy, isInsert) => Adjusted(g, indx, copy, !isInsert).(lsn := lsn)
    case CAdjust(_, lsn, indx, adjust, updateRoot) => CountAdjusted(g, indx, -adjust, updateRoot).(lsn := lsn)
    case CDel(_, lsn, indx) => Marked(g, indx, false).(lsn := lsn)
    case Repl(_, lsn, _, _, _) => UndoRepl(g, rec).(lsn := lsn)
    case Relink(pgno, _, _, lsnPrev, next, lsnNext) =>
      if p == next then g.(prev := pgno, lsn := lsnNext) else g.(next := pgno, lsn := lsnPrev)
    case Split(left, llsn, right, rlsn, _, _, nlsn, ppgno, plsn, pindx, pg, _, _, _, _) =>
      if IsNew(rec, p) then g.(lsn := Prior(rec, p))
      else if p == pg.pgno then pg
      else if p == ppgno then Drop(g, pindx + 1).(lsn := plsn)
      else g.(prev := left, lsn := nlsn)
  }

  // ---- Undo is the inverse of redo ----

  /** The first item on the page changes its size only if its slot is the only one for it. */
  ghost predicate MayMove(g: Image, indx: nat, item: Item)
    requires indx < |g.inp| && g.Ref(indx) >= 0
  {
    g.hoffset == g.inp[indx] && Size(item) != Size(g.Slot(indx)) ==> !g.Shared(indx)
  }

  /** What holds of a page when a record about it is written. */
  ghost predicate Logs(rec: Record, p: nat, g: Image) {
    && p in Touches(rec) && g.lsn == Prior(rec, p) && CanRedo(rec, p, g)
    && match rec
       case Adj(_, _, indx, copy, isInsert) => isInsert || CopyOf(g, indx, copy)
       case CAdjust(_, _, _, _, _) => true
       case CDel(_, _, indx) =>
         g.Slot(DataIndex(g, indx)) == SetDeleted(g.Slot(DataIndex(g, indx)), false)
       case Repl(_, _, indx, isDeleted, d) =>
         var item := g.Slot(indx);
         var data := Body(item);
         && g.Valid() && (g.level == LEAFLEVEL <==> item.KeyData?)
         && (item.KeyData? ==> isDeleted == item.deleted)
         && d.orig == data[d.prefix..|data| - d.suffix]
         && MayMove(g, indx, Remade(item, isDeleted, Rebuild(data, d.prefix, d.suffix, d.repl)))
       case Relink(pgno, _, prev, _, next, _) =>
         prev != next && if p == next then g.prev == pgno else g.next == pgno
       case Split(left, _, right, _, _, npgno, _, ppgno, _, _, pg, _, _, _, _) =>
         && left != right && ppgno != right && ppgno != npgno
         && left != npgno && right != npgno
         && (if RootSplit(rec) then ppgno != left else left == pg.pgno)
         && (p == pg.pgno ==> g == pg)
         && (p == ppgno && !RootSplit(rec) ==> g.Valid())
         && (p == npgno && !RootSplit(rec) ==> g.prev == left)
  }

  /** Items of the same size do not move others. */
  lemma RefInPlace(g: Image, indx: nat, item: Item)
    requires indx < |g.inp| && g.Ref(indx) >= 0 && Size(item) == Size(g.Slot(indx))
    ensures InPlace(g, indx, item).Ref(indx) == g.Ref(indx)
  {
    hide Size, Find, Depth, Total;
    var j := g.Ref(indx);
    assert g.heap[j := item] == Splice(g.heap, j, [item]);
    UpdatedDepth(g.heap, j, item, j);
    FindDepth(g.heap[j := item], j);
    FindsDepth(g, indx);
  }

  lemma FlagSize(item: Item, deleted: bool)
    ensures Size(SetDeleted(item, deleted)) == Size(item)
  {
  }

  lemma FindsDepth(g: Image, indx: nat)
    requires indx < |g.inp| && g.Ref(indx) >= 0
    ensures Depth(g.heap, g.Ref(indx)) == g.size - g.inp[indx]
  {
  }

  lemma UndoInPlace(g: Image, indx: nat, item: Item)
    requires indx < |g.inp| && g.Ref(indx) >= 0 && Size(item) == Size(g.Slot(indx))
    ensures InPlace(g, indx, item).Ref(indx) >= 0
    ensures InPlace(g, indx, item).Slot(indx) == item
    ensures InPlace(InPlace(g, indx, item), indx, g.Slot(indx)) == g
  {
    hide Size, Find;
    RefInPlace(g, indx, item);
  }

  lemma UndoCount(g: Image, indx: nat, adjust: int, updateRoot: bool, lsn: nat)
    requires indx < |g.inp| && g.Ref(indx) >= 0
    ensures var r := CountAdjusted(g, indx, adjust, updateRoot).(lsn := lsn);
            && indx < |r.inp| && r.Ref(indx) >= 0
            && CountAdjusted(r, indx, -adjust, updateRoot).(lsn := g.lsn) == g
  {
    hide Find;
    UndoInPlace(g, indx, AdjustItem(g.Slot(indx), adjust));
    assert AdjustItem(AdjustItem(g.Slot(indx), adjust), -adjust) == g.Slot(indx);
  }

  lemma UndoMark(g: Image, indx: nat, lsn: nat)
    requires DataIndex(g, indx) < |g.inp| && g.Ref(DataIndex(g, indx)) >= 0
    requires g.Slot(DataIndex(g, indx)) == SetDeleted(g.Slot(DataIndex(g, indx)), false)
    ensures var r := Marked(g, indx, true).(lsn := lsn);
            && DataIndex(r, indx) < |r.inp| && r.Ref(DataIndex(r, indx)) >= 0
            && Marked(r, indx, false).(lsn := g.lsn) == g
  {
    hide Find;
    var i := DataIndex(g, indx);
    UndoInPlace(g, i, SetDeleted(g.Slot(i), true));
  }

  lemma UndoReplaceAndFlag(g: Image, indx: nat, item: Item)
    requires g.Valid() && indx < |g.inp| && MayMove(g, indx, item)
    ensures var r, plain := Replace(g, indx, item), SetDeleted(g.Slot(indx), false);
            && |r.inp| == |g.inp| && r.level == g.level
            && r.Ref(indx) >= 0 && r.Slot(indx) == item
            && Replace(r, indx, plain) == InPlace(g, indx, plain)
  {
    hide Size, Find, Depth, Total, Onto;
    var plain := SetDeleted(g.Slot(indx), false);
    var live := InPlace(g, indx, plain);
    Undeleted(g, indx);
    assert live.Slot(indx) == plain;
    assert live.Shared(indx) <==> g.Shared(indx);
    FlagSize(g.Slot(indx), false);
    UndoReplace(live, indx, item);
    ReplaceIgnoresFlag(g, indx, item);
  }

  /** The logged difference rebuilds the new item from the old and the old from the new. */
  lemma UndoReplaced(rec: Record, p: nat, g: Image, lsn: nat)
    requires rec.Repl? && Logs(rec, p, g)
    ensures CanUndo(rec, p, Redo(rec, lsn, p, g))
    ensures Undo(rec, p, Redo(rec, lsn, p, g)) == g
  {
    hide Size, Find, Depth, Total, Image.Valid, Replace, Body, Remade, Fits;
    var indx, d, item := rec.indx, rec.diff, g.Slot(rec.indx);
    var body := Rebuild(Body(item), d.prefix, d.suffix, d.repl);
    var new' := Remade(item, rec.isDeleted, body);
    BothWays(Body(item), d);
    BodyOfRemade(item, rec.isDeleted, body);
    ItemBytes.BackAgain(item, rec.isDeleted, new');
    UndoReplaceAndFlag(g, indx, new');
    ReplaceIgnoresLsn(g, indx, new', lsn);
    ReplaceIgnoresLsn(Replace(g, indx, new'), indx, SetDeleted(item, false), lsn);
    FlagSize(item, false);
    UndoInPlace(g, indx, SetDeleted(item, false));
  }

  lemma ReplaceIgnoresLsn(g: Image, indx: nat, item: Item, lsn: nat)
    requires indx < |g.inp| && g.Ref(indx) >= 0
    ensures g.(lsn := lsn).Ref(indx) == g.Ref(indx)
    ensures Replace(g.(lsn := lsn), indx, item) == Replace(g, indx, item).(lsn := lsn)
    ensures Replace(g, indx, item).level == g.level
    ensures |Replace(g, indx, item).inp| == |g.inp|
  {
  }

  lemma BothWays(data: seq<byte>, d: Diff)
    requires d.prefix + d.suffix <= |data| && d.orig == data[d.prefix..|data| - d.suffix]
    ensures var new' := Rebuild(data, d.prefix, d.suffix, d.repl);
            && d.prefix + d.suffix <= |new'|
            && Rebuild(new', d.prefix, d.suffix, d.orig) == data
  {
    var after := Rebuild(data, d.prefix, d.suffix, d.repl);
    assert after[..d.prefix] == data[..d.prefix];
    assert after[|after| - d.suffix..] == data[|data| - d.suffix..];
  }

  /** The deleted flag does not matter to where items lie. */
  lemma Undeleted(g: Image, indx: nat)
    requires g.Valid() && indx < |g.inp|
    ensures var live := InPlace(g, indx, SetDeleted(g.Slot(indx), false));
            && live.Valid() && live.Ref(indx) == g.Ref(indx)
            && live.inp == g.inp && live.hoffset == g.hoffset
  {
    hide Size, Find, Depth, Total, Onto;
    var j, item := g.Ref(indx), SetDeleted(g.Slot(indx), false);
    FlagSize(g.Slot(indx), false);
    var live := InPlace(g, indx, item);
    RefsOf(g);
    assert live.heap == Splice(g.heap, j, [item]);
    forall k | 0 <= k < |g.inp|
      ensures live.inp[k] == live.size - Depth(live.heap, Refs(g)[k])
    {
      UpdatedDepth(g.heap, j, item, Refs(g)[k]);
    }
    TotalSpliced(g.heap, j, [item]);
    TotalOne(item);
    ValidFromRefs(live, Refs(g));
    assert Refs(live)[indx] == Refs(g)[indx];
  }

  lemma ReplaceIgnoresFlag(g: Image, indx: nat, item: Item)
    requires g.Valid() && indx < |g.inp|
    ensures var live := InPlace(g, indx, SetDeleted(g.Slot(indx), false));
            live.Ref(indx) >= 0 && Replace(live, indx, item) == Replace(g, indx, item)
  {
    hide Find, Depth, Total;
    Undeleted(g, indx);
    var live := InPlace(g, indx, SetDeleted(g.Slot(indx), false));
    var j := g.Ref(indx);
    assert Splice(live.heap, j, [item]) == Splice(g.heap, j, [item]);
  }

  /** Undoing a record restores each page that existed before it, exactly; a page taken from
    * the free list gets its LSN back. */
  lemma UndoRedo(rec: Record, lsn: nat, p: nat, g: Image)
    requires Logs(rec, p, g)
    ensures CanUndo(rec, p, Redo(rec, lsn, p, g))
    ensures !IsNew(rec, p) ==> Undo(rec, p, Redo(rec, lsn, p, g)) == g
    ensures IsNew(rec, p) ==> Undo(rec, p, Redo(rec, lsn, p, g)).lsn == g.lsn
  {
    hide Size, Find, Depth, Total, Copied, Replace, Drop, InPlace;
    match rec
    case Adj(_, _, indx, copy, isInsert) =>
      if isInsert {
        UndoCopy(g, indx, copy);
      } else {
        UndoRemoval(g, indx, copy);
      }
    case CAdjust(_, _, indx, adjust, updateRoot) => UndoCount(g, indx, adjust, updateRoot, lsn);
    case CDel(_, _, indx) => UndoMark(g, indx, lsn);
    case Repl(_, _, _, _, _) => UndoReplaced(rec, p, g, lsn);
    case Relink(_, _, _, _, _, _) =>
    case Split(_, _, _, _, _, _, _, ppgno, _, pindx, _, _, rentry, _, _) =>
      if p == ppgno && !RootSplit(rec) {
        UndoPut(g, pindx + 1, rentry);
        DropIgnoresLsn(Put(g, pindx + 1, rentry), pindx + 1, lsn);
      }
  }

  lemma DropIgnoresLsn(g: Image, indx: nat, lsn: nat)
    requires indx < |g.inp| && g.Ref(indx) >= 0
    ensures g.(lsn := lsn).Ref(indx) == g.Ref(indx)
    ensures Drop(g.(lsn := lsn), indx) == Drop(g, indx).(lsn := lsn)
  {
  }

  // ---- Executions ----

  type Disk = map<nat, Image>

  /** The record is about pages that exist, and pages taken from the free list have not been
    * touched since the log began. */
  ghost predicate Written(d: Disk, base: nat, rec: Record) {
    forall p <- Touches(rec) :: p in d && Logs(rec, p, d[p]) && (IsNew(rec, p) ==> d[p].lsn <= base)
  }

  lemma WrittenRedoable(d: Disk, base: nat, rec: Record)
    requires Written(d, base, rec)
    ensures forall p <- Touches(rec) :: p in d && CanRedo(rec, p, d[p])
  {
    hide Touches, CanRedo;
  }

  ghost function Execute(d: Disk, rec: Record, lsn: nat): Disk
    requires forall p <- Touches(rec) :: p in d && CanRedo(rec, p, d[p])
  {
    map p | p in d :: if p in Touches(rec) then Redo(rec, lsn, p, d[p]) else d[p]
  }

  /** The disks between the records of a log.  Record `k` has LSN `base + k + 1`. */
  ghost predicate Execution(base: nat, vs: seq<Disk>, log: seq<Record>) {
    && |vs| == |log| + 1 && NOT_LOGGED <= base
    && (forall p <- vs[0] :: vs[0][p].lsn <= base)
    && (forall k :: 0 <= k < |log| ==> Written(vs[k], base, log[k]) && vs[k + 1] == Execute(vs[k], log[k], base + k + 1))
  }

  lemma ExecutionStep(base: nat, vs: seq<Disk>, log: seq<Record>, k: nat, p: nat)
    requires Execution(base, vs, log) && k < |log| && p in vs[k]
    ensures p in vs[k + 1]
    ensures p in Touches(log[k]) ==>
              && Logs(log[k], p, vs[k][p]) && vs[k + 1][p] == Redo(log[k], base + k + 1, p, vs[k][p])
              && vs[k + 1][p].lsn == base + k + 1
              && (IsNew(log[k], p) ==> vs[k][p].lsn <= base)
    ensures p !in Touches(log[k]) ==> vs[k + 1][p] == vs[k][p]
  {
    hide Redo, Logs, CanRedo, Touches;
    assert Written(vs[k], base, log[k]);
  }

  lemma {:induction false} SamePages(base: nat, vs: seq<Disk>, log: seq<Record>, k: nat)
    requires Execution(base, vs, log) && k < |vs|
    ensures vs[k].Keys == vs[0].Keys
  {
    hide Redo, Logs, CanRedo, Touches;
    if k > 0 {
      SamePages(base, vs, log, k - 1);
      assert Written(vs[k - 1], base, log[k - 1]);
      WrittenRedoable(vs[k - 1], base, log[k - 1]);
      assert vs[(k - 1) + 1] == Execute(vs[k - 1], log[k - 1], base + (k - 1) + 1);
    }
  }

  /** LSNs of versions grow with the log. */
  lemma {:induction false} VersionLsn(base: nat, vs: seq<Disk>, log: seq<Record>, k: nat, m: nat, p: nat)
    requires Execution(base, vs, log) && k <= m < |vs| && p in vs[0]
    ensures p in vs[k] && p in vs[m]
    ensures vs[k][p].lsn <= vs[m][p].lsn && vs[m][p].lsn <= base + m
    ensures k < m && p in Touches(log[k]) ==> vs[m][p].lsn > base + k
    decreases m
  {
    hide Execution, Touches;
    SamePages(base, vs, log, k);
    SamePages(base, vs, log, m);
    if m == 0 {
      ExecutionStart(base, vs, log, p);
    } else if k < m {
      VersionLsn(base, vs, log, k, m - 1, p);
      ExecutionLength(base, vs, log);
      ExecutionStep(base, vs, log, m - 1, p);
    } else {
      VersionLsn(base, vs, log, m - 1, m - 1, p);
      ExecutionLength(base, vs, log);
      ExecutionStep(base, vs, log, m - 1, p);
    }
  }

  lemma ExecutionStart(base: nat, vs: seq<Disk>, log: seq<Record>, p: nat)
    requires Execution(base, vs, log) && p in vs[0]
    ensures vs[0][p].lsn <= base
  {
  }

  lemma ExecutionLength(base: nat, vs: seq<Disk>, log: seq<Record>)
    requires Execution(base, vs, log)
    ensures |vs| == |log| + 1
  {
  }

  // ---- Recovery of one record ----

  datatype RecoveryOp = Abort | Apply | BackwardRoll | ForwardRoll

  predicate IsRedo(op: RecoveryOp) {
    op == ForwardRoll || op == Apply
  }

  /** CHECK_LSN: a page older than the record's prior LSN misses an update. */
  predicate Behind(op: RecoveryOp, rec: Record, p: nat, g: Image) {
    IsRedo(op) && g.lsn < Prior(rec, p) && g.lsn != NOT_LOGGED && g.lsn != ZERO_LSN
  }

  /** The pages to which CHECK_ABORT applies. */
  predicate AbortChecked(rec: Record, p: nat) {
    match rec
    case Adj(_, _, _, _, _) => false
    case CAdjust(_, _, _, _, _) => false
    case Split(_, _, _, _, _, _, _, ppgno, _, _, pg, _, _, _, _) => p == pg.pgno || p == ppgno
    case _ => true
  }

  /** CHECK_ABORT: an update that is aborted must be the last one to its page. */
  predicate Misplaced(op: RecoveryOp, rec: Record, lsn: nat, p: nat, g: Image) {
    op == Abort && AbortChecked(rec, p) && g.lsn != lsn && g.lsn != NOT_LOGGED && g.lsn != ZERO_LSN
  }

  ghost predicate Ready(op: RecoveryOp, rec: Record, lsn: nat, p: nat, g: Image) {
    && (IsRedo(op) && g.lsn == Prior(rec, p) ==> CanRedo(rec, p, g))
    && (!IsRedo(op) && g.lsn == lsn ==> CanUndo(rec, p, g))
  }

  /** The LSN-guarded redo or undo of a record on a page. */
  ghost function RecoverPage(op: RecoveryOp, rec: Record, lsn: nat, p: nat, g: Image): Image
    requires Ready(op, rec, lsn, p, g)
  {
    if IsRedo(op) then
      if g.lsn == Prior(rec, p) then Redo(rec, lsn, p, g) else g
    else
      if g.lsn == lsn then Undo(rec, p, g) else g
  }

  ghost predicate AllReady(op: RecoveryOp, rec: Record, lsn: nat, d: Disk) {
    forall p <- Touches(rec) :: p in d ==> Ready(op, rec, lsn, p, d[p])
  }

  ghost predicate Passes(op: RecoveryOp, rec: Record, lsn: nat, d: Disk) {
    forall p <- Touches(rec) :: p in d ==> !Behind(op, rec, p, d[p]) && !Misplaced(op, rec, lsn, p, d[p])
  }

  ghost function Recovered(op: RecoveryOp, rec: Record, lsn: nat, d: Disk): Disk
    requires AllReady(op, rec, lsn, d)
  {
    map p | p in d :: if p in Touches(rec) then RecoverPage(op, rec, lsn, p, d[p]) else d[p]
  }

  /** A page after the recovery of a record that may or may not be about it. */
  ghost predicate Becomes(op: RecoveryOp, rec: Record, lsn: nat, p: nat, g: Image, r: Image) {
    if p in Touches(rec) then Ready(op, rec, lsn, p, g) && r == RecoverPage(op, rec, lsn, p, g) else r == g
  }

  lemma RecoveredPage(op: RecoveryOp, rec: Record, lsn: nat, d: Disk, p: nat)
    requires AllReady(op, rec, lsn, d) && p in d
    ensures Recovered(op, rec, lsn, d).Keys == d.Keys
    ensures Becomes(op, rec, lsn, p, d[p], Recovered(op, rec, lsn, d)[p])
  {
    hide Ready, RecoverPage, Touches;
  }

  lemma RecoveredKeys(op: RecoveryOp, rec: Record, lsn: nat, d: Disk)
    requires AllReady(op, rec, lsn, d)
    ensures Recovered(op, rec, lsn, d).Keys == d.Keys
  {
    hide Ready, RecoverPage, Touches;
  }

  // ---- Redo ----

  function Max(a: nat, b: nat): nat {
    if a < b then b else a
  }

  function Min(a: nat, b: nat): nat {
    if a < b then a else b
  }

  /** Each page is at its version after some prefix of the log, or after `k` records if that
    * is later. */
  ghost predicate RedoneTo(vs: seq<Disk>, at: map<nat, nat>, k: nat, d: Disk) {
    && k < |vs| && at.Keys == vs[0].Keys && d.Keys == vs[0].Keys
    && forall p <- d :: at[p] < |vs| && RedonePage(vs, k, at[p], p, d[p])
  }

  ghost predicate RedonePage(vs: seq<Disk>, k: nat, a: nat, p: nat, g: Image)
    requires k < |vs| && a < |vs|
  {
    p in vs[Max(k, a)] && g == vs[Max(k, a)][p]
  }

  lemma RedoReady(base: nat, vs: seq<Disk>, log: seq<Record>, op: RecoveryOp, k: nat, a: nat, p: nat, g: Image)
    requires Execution(base, vs, log) && IsRedo(op) && k < |log| && a < |vs| && p in vs[0]
    requires k < |vs| && p in Touches(log[k]) && RedonePage(vs, k, a, p, g)
    ensures Ready(op, log[k], base + k + 1, p, g) && !Behind(op, log[k], p, g)
  {
    hide Execution, Redo, Undo, CanUndo, CanRedo, Touches, Prior;
    ExecutionLength(base, vs, log);
    SamePages(base, vs, log, k);
    ExecutionStep(base, vs, log, k, p);
    VersionLsn(base, vs, log, k, Max(k, a), p);
    VersionLsn(base, vs, log, k, k, p);
  }

  lemma RedoPage(base: nat, vs: seq<Disk>, log: seq<Record>, op: RecoveryOp, k: nat, a: nat, p: nat, g: Image, r: Image)
    requires Execution(base, vs, log) && IsRedo(op) && k < |log| && a < |vs| && p in vs[0]
    requires k < |vs| && RedonePage(vs, k, a, p, g) && Becomes(op, log[k], base + k + 1, p, g, r)
    ensures k + 1 < |vs| && RedonePage(vs, k + 1, a, p, r)
  {
    hide Execution, Redo, Undo, CanUndo, CanRedo, Touches, Prior;
    ExecutionLength(base, vs, log);
    SamePages(base, vs, log, k);
    SamePages(base, vs, log, Max(k + 1, a));
    ExecutionStep(base, vs, log, k, p);
    VersionLsn(base, vs, log, k, Max(k, a), p);
    VersionLsn(base, vs, log, k, k, p);
  }

  /** One record of the redo pass. */
  lemma RedoStep(base: nat, vs: seq<Disk>, log: seq<Record>, op: RecoveryOp, at: map<nat, nat>, k: nat, d: Disk)
    requires Execution(base, vs, log) && IsRedo(op) && k < |log| && RedoneTo(vs, at, k, d)
    ensures AllReady(op, log[k], base + k + 1, d) && Passes(op, log[k], base + k + 1, d)
    ensures RedoneTo(vs, at, k + 1, Recovered(op, log[k], base + k + 1, d))
  {
    hide Execution, RecoverPage, Ready, Behind, Touches, Becomes, Recovered, RedonePage;
    ExecutionLength(base, vs, log);
    forall p <- Touches(log[k]) | p in d
      ensures Ready(op, log[k], base + k + 1, p, d[p])
      ensures !Behind(op, log[k], p, d[p]) && !Misplaced(op, log[k], base + k + 1, p, d[p])
    {
      RedoReady(base, vs, log, op, k, at[p], p, d[p]);
    }
    var r := Recovered(op, log[k], base + k + 1, d);
    RecoveredKeys(op, log[k], base + k + 1, d);
    forall p <- d
      ensures RedonePage(vs, k + 1, at[p], p, r[p])
    {
      RecoveredPage(op, log[k], base + k + 1, d, p);
      RedoPage(base, vs, log, op, k, at[p], p, d[p], r[p]);
    }
  }

  // ---- What the LSN checks find ----

  /** A record between two versions is about the page. */
  ghost predicate UpdatedBetween(log: seq<Record>, p: nat, j: nat, k: nat) {
    exists i | j <= i < k && i < |log| :: p in Touches(log[i])
  }

  lemma {:induction false} NotUpdated(base: nat, vs: seq<Disk>, log: seq<Record>, j: nat, k: nat, p: nat)
    requires Execution(base, vs, log) && j <= k <= |log| && p in vs[0] && !UpdatedBetween(log, p, j, k)
    ensures p in vs[j] && p in vs[k] && vs[k][p] == vs[j][p]
    decreases k
  {
    hide Execution, Touches;
    ExecutionLength(base, vs, log);
    SamePages(base, vs, log, j);
    SamePages(base, vs, log, k);
    if j < k {
      assert p !in Touches(log[k - 1]);
      NotUpdated(base, vs, log, j, k - 1, p);
      ExecutionStep(base, vs, log, k - 1, p);
    }
  }

  lemma UpdatedLsn(base: nat, vs: seq<Disk>, log: seq<Record>, j: nat, k: nat, p: nat)
    requires Execution(base, vs, log) && j <= k <= |log| && p in vs[0]
    ensures p in vs[j] && p in vs[k] && (vs[j][p].lsn < vs[k][p].lsn <==> UpdatedBetween(log, p, j, k))
    ensures vs[j][p].lsn <= vs[k][p].lsn
  {
    hide Execution, Touches;
    ExecutionLength(base, vs, log);
    VersionLsn(base, vs, log, j, k, p);
    if UpdatedBetween(log, p, j, k) {
      var i :| j <= i < k && i < |log| && p in Touches(log[i]);
      VersionLsn(base, vs, log, i, k, p);
      VersionLsn(base, vs, log, j, i, p);
    } else {
      NotUpdated(base, vs, log, j, k, p);
    }
  }

  /** A record is refused by the redo of a page exactly when an update of the page that came
    * before the record has been lost, except that pages that were never logged are let pass. */
  lemma ChecksLoss(base: nat, vs: seq<Disk>, log: seq<Record>, op: RecoveryOp, j: nat, k: nat, p: nat)
    requires Execution(base, vs, log) && IsRedo(op) && k < |log| && j <= |log| && p in vs[0] && p in Touches(log[k])
    ensures p in vs[j]
    ensures Behind(op, log[k], p, vs[j][p]) <==>
              UpdatedBetween(log, p, j, k) && vs[j][p].lsn != NOT_LOGGED && vs[j][p].lsn != ZERO_LSN
  {
    hide Execution, Touches, UpdatedBetween, CanRedo;
    ExecutionLength(base, vs, log);
    SamePages(base, vs, log, k);
    ExecutionStep(base, vs, log, k, p);
    PriorOf(log[k], p, vs[k][p]);
    if j <= k {
      UpdatedLsn(base, vs, log, j, k, p);
    } else {
      UpdatedLsn(base, vs, log, k, j, p);
      NoneBetween(log, p, j, k);
    }
  }

  lemma PriorOf(rec: Record, p: nat, g: Image)
    requires Logs(rec, p, g)
    ensures Prior(rec, p) == g.lsn
  {
    hide CanRedo;
  }

  lemma NoneBetween(log: seq<Record>, p: nat, j: nat, k: nat)
    requires j >= k
    ensures !UpdatedBetween(log, p, j, k)
  {
  }

  /** Where it is checked, an abort of a record is refused exactly when a later update of the
    * page still stands. */
  lemma ChecksLater(base: nat, vs: seq<Disk>, log: seq<Record>, j: nat, k: nat, p: nat)
    requires Execution(base, vs, log) && k < j <= |log| && p in vs[0] && p in Touches(log[k]) && AbortChecked(log[k], p)
    ensures p in vs[j]
    ensures Misplaced(Abort, log[k], base + k + 1, p, vs[j][p]) <==> UpdatedBetween(log, p, k + 1, j)
  {
    hide Execution, Touches, UpdatedBetween, AbortChecked;
    ExecutionLength(base, vs, log);
    LoggedBase(base, vs, log);
    SamePages(base, vs, log, k);
    ExecutionStep(base, vs, log, k, p);
    UpdatedLsn(base, vs, log, k + 1, j, p);
  }

  lemma LoggedBase(base: nat, vs: seq<Disk>, log: seq<Record>)
    requires Execution(base, vs, log)
    ensures base >= NOT_LOGGED
  {
  }

  // ---- Undo ----

  /** A later record took the page from the free list. */
  ghost predicate TakenFrom(log: seq<Record>, p: nat, k: nat, m: nat) {
    exists i :: k <= i < m && i < |log| && IsNew(log[i], p)
  }

  /** Each page is at its version after `k` records, or at an earlier one if it was never
    * written back; a page that was still free then has its LSN back. */
  ghost predicate UndoneTo(vs: seq<Disk>, log: seq<Record>, at: map<nat, nat>, k: nat, d: Disk) {
    && k < |vs| && at.Keys == vs[0].Keys && d.Keys == vs[0].Keys
    && forall p <- d :: at[p] < |vs| && UndonePage(vs, log, k, at[p], p, d[p])
  }

  /** What an undo pass has made of a page when it has come down to record `k`. */
  ghost predicate UndonePage(vs: seq<Disk>, log: seq<Record>, k: nat, a: nat, p: nat, g: Image)
    requires k < |vs| && a < |vs|
  {
    && p in vs[Min(k, a)]
    && (g == vs[Min(k, a)][p] || (TakenFrom(log, p, k, a) && g.lsn == vs[Min(k, a)][p].lsn))
  }

  /** Before it was taken from the free list, no record touched the page. */
  lemma FreeUntouched(base: nat, vs: seq<Disk>, log: seq<Record>, p: nat, r: nat, m: nat)
    requires Execution(base, vs, log) && p in vs[0] && TakenFrom(log, p, r + 1, m)
    ensures r < |log| && p !in Touches(log[r])
  {
    hide Execution, Logs;
    ExecutionLength(base, vs, log);
    var i :| r + 1 <= i < m && i < |log| && IsNew(log[i], p);
    SamePages(base, vs, log, i);
    assert p in Touches(log[i]);
    hide Touches;
    ExecutionStep(base, vs, log, i, p);
    VersionLsn(base, vs, log, r, i, p);
  }

  /** A page in its own version is undone to the version before. */
  lemma UndoVersion(base: nat, vs: seq<Disk>, log: seq<Record>, op: RecoveryOp, k: nat, a: nat, p: nat, g: Image)
    requires Execution(base, vs, log) && !IsRedo(op) && k < |log| && a < |vs| && p in vs[0] && p in Touches(log[k])
    requires p in vs[Min(k + 1, a)] && g == vs[Min(k + 1, a)][p]
    ensures p in vs[Min(k, a)]
    ensures Ready(op, log[k], base + k + 1, p, g)
    ensures a > k ==> !Misplaced(op, log[k], base + k + 1, p, g)
    ensures var r := RecoverPage(op, log[k], base + k + 1, p, g);
            r == vs[Min(k, a)][p] || (IsNew(log[k], p) && k < a && r.lsn == vs[Min(k, a)][p].lsn)
  {
    hide Execution, Redo, Undo, CanUndo, CanRedo, Touches, Prior, Logs;
    ExecutionLength(base, vs, log);
    SamePages(base, vs, log, Min(k, a));
    SamePages(base, vs, log, k);
    ExecutionStep(base, vs, log, k, p);
    if k < a {
      UndoRedo(log[k], base + k + 1, p, vs[k][p]);
    } else {
      VersionLsn(base, vs, log, a, a, p);
    }
  }

  lemma UndoReady(base: nat, vs: seq<Disk>, log: seq<Record>, op: RecoveryOp, k: nat, a: nat, p: nat, g: Image)
    requires Execution(base, vs, log) && !IsRedo(op) && k < |log| && a < |vs| && p in vs[0] && p in Touches(log[k])
    requires k + 1 < |vs| && UndonePage(vs, log, k + 1, a, p, g)
    ensures g == vs[Min(k + 1, a)][p]
    ensures Ready(op, log[k], base + k + 1, p, g)
    ensures a > k ==> !Misplaced(op, log[k], base + k + 1, p, g)
  {
    hide Execution, Touches, Ready, RecoverPage, TakenFrom, Misplaced;
    if TakenFrom(log, p, k + 1, a) {
      FreeUntouched(base, vs, log, p, k, a);
      assert false;
    }
    UndoVersion(base, vs, log, op, k, a, p, g);
  }

  lemma UndoPage(base: nat, vs: seq<Disk>, log: seq<Record>, op: RecoveryOp, k: nat, a: nat, p: nat, g: Image, r: Image)
    requires Execution(base, vs, log) && !IsRedo(op) && k < |log| && a < |vs| && p in vs[0]
    requires k + 1 < |vs| && UndonePage(vs, log, k + 1, a, p, g)
    requires Becomes(op, log[k], base + k + 1, p, g, r)
    ensures UndonePage(vs, log, k, a, p, r)
  {
    hide Execution, Touches, Ready, RecoverPage, Misplaced;
    if p in Touches(log[k]) {
      UndoReady(base, vs, log, op, k, a, p, g);
      UndoVersion(base, vs, log, op, k, a, p, g);
    } else {
      SamePages(base, vs, log, k);
      SamePages(base, vs, log, Min(k, a));
      ExecutionStep(base, vs, log, k, p);
    }
  }

  /** One record of the undo pass. */
  lemma UndoStep(base: nat, vs: seq<Disk>, log: seq<Record>, op: RecoveryOp, at: map<nat, nat>, k: nat, d: Disk)
    requires Execution(base, vs, log) && !IsRedo(op) && k < |log| && UndoneTo(vs, log, at, k + 1, d)
    ensures AllReady(op, log[k], base + k + 1, d)
    ensures (op == Abort ==> forall p <- at :: at[p] > k) ==> Passes(op, log[k], base + k + 1, d)
    ensures UndoneTo(vs, log, at, k, Recovered(op, log[k], base + k + 1, d))
  {
    hide Execution, RecoverPage, Ready, Touches, Becomes, Recovered, UndonePage;
    forall p <- Touches(log[k]) | p in d
      ensures Ready(op, log[k], base + k + 1, p, d[p])
      ensures at[p] > k ==> !Misplaced(op, log[k], base + k + 1, p, d[p])
    {
      UndoReady(base, vs, log, op, k, at[p], p, d[p]);
    }
    var r := Recovered(op, log[k], base + k + 1, d);
    RecoveredKeys(op, log[k], base + k + 1, d);
    forall p <- d
      ensures UndonePage(vs, log, k, at[p], p, r[p])
    {
      RecoveredPage(op, log[k], base + k + 1, d, p);
      UndoPage(base, vs, log, op, k, at[p], p, d[p], r[p]);
    }
  }
}
