/** Cursors of a btree across a page split and its undo. */
module SplitCursors {

  const PGNO_INVALID: nat := 0

  datatype Spot = Spot(pgno: nat, indx: nat)

  class Cursor {
    var pgno: nat
    var indx: nat
    /** Cursors of recno trees keep their place by record number and are passed over. */
    const isRecno: bool

    constructor (pgno: nat, indx: nat, isRecno: bool)
      ensures At() == Spot(pgno, indx) && this.isRecno == isRecno
    {
      this.pgno, this.indx, this.isRecno := pgno, indx, isRecno;
    }

    function At(): Spot
      reads this
    {
      Spot(pgno, indx)
    }
  }

  /** Page `from` is divided at `split`: the rest goes to `right`, and if `moved` the first
    * part goes to `left`. */
  datatype Division = Division(from: nat, left: nat, right: nat, split: nat, moved: bool)

  function AfterSplit(d: Division, s: Spot): Spot {
    if s.pgno != d.from then s
    else if s.indx < d.split then (if d.moved then s.(pgno := d.left) else s)
    else Spot(d.right, s.indx - d.split)
  }

  /** `left` is the logged left page: PGNO_INVALID if the left half stayed in place. */
  function AfterUndo(d: Division, left: nat, s: Spot): Spot {
    if s.pgno == d.right then Spot(d.from, s.indx + d.split)
    else if s.pgno == left then s.(pgno := d.from)
    else s
  }

  function LoggedLeft(d: Division): nat {
    if d.moved then d.left else PGNO_INVALID
  }

  /** `__bam_ca_split`. */
  method CaSplit(d: Division, cursors: seq<Cursor>)
    requires forall i, j :: 0 <= i < j < |cursors| ==> cursors[i] != cursors[j]
    modifies cursors
    ensures forall c <- cursors :: c.At() == if c.isRecno then old(c.At()) else AfterSplit(d, old(c.At()))
  {
    for k := 0 to |cursors|
      invariant forall i :: 0 <= i < |cursors| ==>
                  cursors[i].At() == if cursors[i].isRecno || i >= k then old(cursors[i].At())
                                     else AfterSplit(d, old(cursors[i].At()))
    {
      var cp := cursors[k];
      if !cp.isRecno && cp.pgno == d.from {
        if cp.indx < d.split {
          if d.moved {
            cp.pgno := d.left;
          }
        } else {
          cp.pgno := d.right;
          cp.indx := cp.indx - d.split;
        }
      }
    }
  }

  /** `__bam_ca_undosplit`. */
  method CaUndoSplit(d: Division, left: nat, cursors: seq<Cursor>)
    requires forall i, j :: 0 <= i < j < |cursors| ==> cursors[i] != cursors[j]
    modifies cursors
    ensures forall c <- cursors :: c.At() == if c.isRecno then old(c.At()) else AfterUndo(d, left, old(c.At()))
  {
    for k := 0 to |cursors|
      invariant forall i :: 0 <= i < |cursors| ==>
                  cursors[i].At() == if cursors[i].isRecno || i >= k then old(cursors[i].At())
                                     else AfterUndo(d, left, old(cursors[i].At()))
    {
      var cp := cursors[k];
      if !cp.isRecno {
        if cp.pgno == d.right {
          cp.pgno := d.from;
          cp.indx := cp.indx + d.split;
        } else if cp.pgno == left {
          cp.pgno := d.from;
        }
      }
    }
  }

  /** The slots of the pages of a file, before and after a split. */
  ghost predicate Divides<T>(d: Division, before: map<nat, seq<T>>, after: map<nat, seq<T>>) {
    && d.from in before && d.split <= |before[d.from]|
    && d.right in after && after[d.right] == before[d.from][d.split..]
    && (if d.moved then d.left in after && after[d.left] == before[d.from][..d.split]
        else d.from in after && after[d.from] == before[d.from][..d.split])
    && forall p <- before :: p != d.from && p != d.right && p != d.left ==> p in after && after[p] == before[p]
  }

  /** Every cursor refers to the same record after the split. */
  lemma SameRecord<T>(d: Division, before: map<nat, seq<T>>, after: map<nat, seq<T>>, s: Spot)
    requires Divides(d, before, after) && s.pgno in before && s.indx < |before[s.pgno]|
    requires s.pgno == d.from || (s.pgno != d.right && s.pgno != d.left)
    ensures var t := AfterSplit(d, s);
            t.pgno in after && t.indx < |after[t.pgno]| && after[t.pgno][t.indx] == before[s.pgno][s.indx]
  {
  }

  /** The undo returns a cursor to its place exactly when it was on neither of the pages the
    * undo looks for: not on the new ones, and, when the left half stayed in place, not
    * unpositioned either. */
  lemma UndoRestores(d: Division, s: Spot)
    requires d.from != d.right && (d.moved ==> d.left != d.right && d.from != d.left)
    requires d.from != PGNO_INVALID && d.right != PGNO_INVALID
    ensures AfterUndo(d, LoggedLeft(d), AfterSplit(d, s)) == s <==> s.pgno != d.right && s.pgno != LoggedLeft(d)
  {
  }
}
