/** Cursors of a renumbering recno tree: how `__ram_ca` rewrites every open cursor when a
  * record is inserted or deleted, and what the undo of such an adjustment restores.
  *
  * A cursor whose record was deleted stays "between" records; its place among the other
  * deleted cursors with the same record number is encoded in `order`.  The specification is
  * a line of slots, one for each record that ever was, in which deleting a record only
  * blanks its slot and a cursor never changes slot. */
module RecnoCursors {

  const INVALID_ORDER: int := 0

  datatype Op = Delete | InsertAfter | InsertBefore | InsertCurrent

  datatype Position = Position(recno: int, deleted: bool, order: int)

  /** C_LESSTHAN. */
  predicate Before(p: Position, q: Position) {
    || p.recno < q.recno
    || (p.recno == q.recno && p.deleted && (q.deleted ==> p.order < q.order))
  }

  /** C_EQUAL. */
  predicate Same(p: Position, q: Position) {
    p.recno == q.recno && p.deleted == q.deleted && (p.deleted ==> p.order == q.order)
  }

  class Cursor {
    const root: nat
    var recno: int
    var deleted: bool
    var order: int

    constructor (root: nat, recno: int)
      ensures this.root == root && Pos() == Position(recno, false, INVALID_ORDER)
    {
      this.root, this.recno, this.deleted, this.order := root, recno, false, INVALID_ORDER;
    }

    function Pos(): Position
      reads this
    {
      Position(recno, deleted, order)
    }
  }

  /** What one visit of the adjustment loop does to a cursor of the same tree.  `recno` and
    * `order` were fixed before the loop; `arg` is read at the visit. */
  function Adjust(op: Op, recno: int, order: int, arg: Position, p: Position): Position {
    match op
    case Delete =>
      if recno < p.recno then
        Position(p.recno - 1, p.deleted, if recno == p.recno - 1 && p.deleted then p.order + order else p.order)
      else if recno == p.recno && !p.deleted then
        Position(p.recno, true, order)
      else
        p
    case InsertAfter => if Before(arg, p) then p.(recno := p.recno + 1) else p
    case InsertBefore => if Same(arg, p) || Before(arg, p) then p.(recno := p.recno + 1) else p
    case InsertCurrent =>
      if Same(arg, p) then Position(p.recno, false, INVALID_ORDER)
      else if Before(arg, p) then p.(recno := p.recno + 1)
      else p
  }

  /** The positions of the cursors open on a tree, by their place in the list. */
  ghost function OnTree(cursors: seq<Cursor>, root: nat): map<int, Position>
    reads cursors
  {
    map i | 0 <= i < |cursors| && cursors[i].root == root :: cursors[i].Pos()
  }

  /** The order a newly deleted cursor gets is above that of every cursor already deleted at
    * the same record number. */
  ghost predicate FreshOrder(order: int, recno: int, ps: map<int, Position>) {
    && order >= 1
    && forall i <- ps :: ps[i].recno == recno && ps[i].deleted ==> ps[i].order < order
  }

  /** Every cursor compared with the argument as it was before the loop. */
  ghost function Snapshot(op: Op, order: int, arg: Position, ps: map<int, Position>): map<int, Position> {
    map i | i in ps :: Adjust(op, arg.recno, order, arg, ps[i])
  }

  /** A cursor the loop gets wrong when it is visited after the argument: it lies between the
    * argument's old place and its new one. */
  predicate Blind(op: Op, arg: Position, p: Position) {
    && !Before(p, arg)
    && match op
       case InsertBefore => Before(p, arg.(recno := arg.recno + 1))
       case InsertCurrent => p.recno == arg.recno
       case _ => false
  }

  /** What the loop makes of the cursors when the argument is number `a` in the list: the
    * cursors behind it are compared with what has become of it. */
  ghost function Looped(op: Op, order: int, arg: Position, a: int, ps: map<int, Position>): map<int, Position> {
    map i | i in ps :: Adjust(op, arg.recno, order,
                              if a < i then Adjust(op, arg.recno, order, arg, arg) else arg, ps[i])
  }

  /** Reading the argument during the loop is harmless exactly when no cursor behind it in
    * the list is blind; in particular when it is the last of its tree. */
  lemma LiveReads(op: Op, order: int, arg: Position, ps: map<int, Position>, a: int)
    requires op == InsertCurrent ==> arg.deleted
    ensures Looped(op, order, arg, a, ps) == Snapshot(op, order, arg, ps)
       <==> forall i <- ps :: a < i ==> !Blind(op, arg, ps[i])
  {
    var live, snapshot := Looped(op, order, arg, a, ps), Snapshot(op, order, arg, ps);
    forall i <- ps
      ensures live[i] == snapshot[i] <==> a >= i || !Blind(op, arg, ps[i])
    {
    }
    if forall i <- ps :: a < i ==> !Blind(op, arg, ps[i]) {
      assert live == snapshot;
    } else {
      var i :| i in ps && a < i && Blind(op, arg, ps[i]);
      assert live[i] != snapshot[i];
    }
  }

  // ---- The loops of `__ram_ca` ----

  /** The first pass of a delete. */
  method HighestOrder(recno: int, root: nat, cursors: seq<Cursor>) returns (order: int)
    ensures FreshOrder(order, recno, OnTree(cursors, root))
    ensures forall o :: 1 <= o < order ==> !FreshOrder(o, recno, OnTree(cursors, root))
  {
    order := 1;
    ghost var highest := 0;
    ghost var ps := OnTree(cursors, root);
    for k := 0 to |cursors|
      invariant order >= 1
      invariant forall i <- ps :: i < k && ps[i].recno == recno && ps[i].deleted ==> ps[i].order < order
      invariant order > 1 ==> highest in ps && ps[highest].recno == recno && ps[highest].deleted
                              && ps[highest].order == order - 1
    {
      var c := cursors[k];
      if c.root == root && c.recno == recno && c.deleted && order <= c.order {
        highest, order := k, c.order + 1;
      }
    }
  }

  /** The switch of the loop body, for a cursor of the same tree. */
  method AdjustOne(op: Op, recno: int, order: int, arg: Cursor, c: Cursor)
    requires recno <= arg.Pos().recno || op == Delete
    modifies c`recno, c`deleted, c`order
    ensures c.Pos() == Adjust(op, recno, order, old(arg.Pos()), old(c.Pos()))
  {
    if op == Delete {
      if recno < c.recno {
        c.recno := c.recno - 1;
        if recno == c.recno && c.deleted {
          c.order := c.order + order;
        }
      } else if recno == c.recno && !c.deleted {
        c.deleted := true;
        c.order := order;
      }
      return;
    }
    var adjusted := false;
    if op == InsertBefore && Same(arg.Pos(), c.Pos()) {
      c.recno := c.recno + 1;
      adjusted := true;
    } else if op == InsertCurrent && Same(arg.Pos(), c.Pos()) {
      c.deleted := false;
      c.order := INVALID_ORDER;
      return;
    }
    if !adjusted && Before(arg.Pos(), c.Pos()) {
      c.recno := c.recno + 1;
      adjusted := true;
    }
    // A moved cursor is past `recno`, so its order is never split.
    var split, whole := c.order - (arg.order - 1), c.order;
    c.order := if recno == c.recno && adjusted then split else whole;
  }

  ghost function IndexOf(arg: Cursor, cursors: seq<Cursor>): (a: nat)
    ensures a <= |cursors| && (a < |cursors| ==> cursors[a] == arg)
    ensures forall i :: 0 <= i < a ==> cursors[i] != arg
  {
    if cursors == [] || cursors[0] == arg then 0 else 1 + IndexOf(arg, cursors[1..])
  }

  /** The cursors of a tree, by their place in the list; which they are never changes. */
  ghost function Members(cursors: seq<Cursor>, root: nat, k: nat): set<int> {
    set i | 0 <= i < k && i < |cursors| && cursors[i].root == root
  }

  lemma ArgStaysAhead(op: Op, recno: int, order: int, arg: Position)
    requires recno <= arg.recno || op == Delete
    ensures recno <= Adjust(op, recno, order, arg, arg).recno || op == Delete
  {
  }

  /** One visit of the second pass. */
  method Visit(op: Op, recno: int, order: int, arg: Cursor, cursors: seq<Cursor>, k: nat) returns (found: bool)
    requires forall i, j :: 0 <= i < j < |cursors| ==> cursors[i] != cursors[j]
    requires k < |cursors|
    requires recno <= arg.Pos().recno || op == Delete
    modifies cursors[k]
    ensures recno <= arg.Pos().recno || op == Delete
    ensures arg != cursors[k] ==> arg.Pos() == old(arg.Pos())
    ensures forall i :: 0 <= i < |cursors| && i != k ==> cursors[i].Pos() == old(cursors[i].Pos())
    ensures cursors[k].Pos() == if !found then old(cursors[k].Pos()) else
              Adjust(op, recno, order, old(arg.Pos()), old(cursors[k].Pos()))
    ensures found == (cursors[k].root == arg.root)
  {
    hide Adjust;
    var c := cursors[k];
    found := c.root == arg.root;
    if found {
      ArgStaysAhead(op, recno, order, arg.Pos());
      AdjustOne(op, recno, order, arg, c);
    }
  }

  /** The second pass, over cursors of every tree. */
  method AdjustAll(op: Op, recno: int, order: int, arg: Cursor, cursors: seq<Cursor>) returns (found: nat)
    requires forall i, j :: 0 <= i < j < |cursors| ==> cursors[i] != cursors[j]
    requires recno <= arg.Pos().recno || op == Delete
    modifies cursors
    ensures forall i :: 0 <= i < |cursors| ==>
              cursors[i].Pos() == if cursors[i].root != arg.root then old(cursors[i].Pos()) else
                Adjust(op, recno, order, if IndexOf(arg, cursors) < i then arg.Pos() else old(arg.Pos()),
                       old(cursors[i].Pos()))
    ensures found == |Members(cursors, arg.root, |cursors|)|
  {
    hide Adjust, Cursor.Pos;
    found := 0;
    ghost var a := IndexOf(arg, cursors);
    ghost var was := arg.Pos();
    for k := 0 to |cursors|
      invariant recno <= arg.Pos().recno || op == Delete
      invariant k <= a ==> arg.Pos() == was
      invariant forall i :: k <= i < |cursors| ==> cursors[i].Pos() == old(cursors[i].Pos())
      invariant forall i :: 0 <= i < k ==>
                  cursors[i].Pos() == if cursors[i].root != arg.root then old(cursors[i].Pos()) else
                    Adjust(op, recno, order, if a < i then arg.Pos() else was, old(cursors[i].Pos()))
      invariant found == |Members(cursors, arg.root, k)|
    {
      MembersNext(cursors, arg.root, k);
      var visited := Visit(op, recno, order, arg, cursors, k);
      found := if visited then found + 1 else found;
    }
  }

  lemma MembersNext(cursors: seq<Cursor>, root: nat, k: nat)
    requires k < |cursors|
    ensures |Members(cursors, root, k + 1)|
         == |Members(cursors, root, k)| + if cursors[k].root == root then 1 else 0
  {
    assert Members(cursors, root, k + 1)
        == Members(cursors, root, k) + if cursors[k].root == root then {k} else {};
  }

  /** `__ram_ca`.  The cursor list is the concatenation of the lists of the handles open on
    * the file. */
  method RamCa(arg: Cursor, op: Op, cursors: seq<Cursor>) returns (found: nat, ghost order: int)
    requires forall i, j :: 0 <= i < j < |cursors| ==> cursors[i] != cursors[j]
    requires op == InsertCurrent ==> arg.deleted
    modifies cursors
    ensures op == Delete ==> FreshOrder(order, old(arg.recno), old(OnTree(cursors, arg.root)))
    ensures OnTree(cursors, arg.root)
         == Looped(op, order, old(arg.Pos()), IndexOf(arg, cursors), old(OnTree(cursors, arg.root)))
    ensures forall c <- cursors :: c.root != arg.root ==> c.Pos() == old(c.Pos())
    ensures found == |old(OnTree(cursors, arg.root)).Keys|
  {
    hide FreshOrder, Adjust;
    var o := INVALID_ORDER;
    if op == Delete {
      o := HighestOrder(arg.recno, arg.root, cursors);
    }
    order := o;
    ghost var ps := OnTree(cursors, arg.root);
    found := AdjustAll(op, arg.recno, o, arg, cursors);
    assert ps.Keys == Members(cursors, arg.root, |cursors|);
  }

  // ---- The specification: a line of slots ----

  datatype Slot<T> = Live(rec: T) | Dead

  function LiveBefore<T>(slots: seq<Slot<T>>, n: nat): (c: nat)
    requires n <= |slots|
  {
    if n == 0 then 0 else LiveBefore(slots, n - 1) + if slots[n - 1].Live? then 1 else 0
  }

  /** The records of the tree. */
  function Records<T>(slots: seq<Slot<T>>): seq<T> {
    if slots == [] then []
    else
      var last := slots[|slots| - 1];
      Records(slots[..|slots| - 1]) + if last.Live? then [last.rec] else []
  }

  /** A cursor on slot `s`. */
  ghost predicate Fits<T>(slots: seq<Slot<T>>, s: nat, p: Position) {
    && s < |slots|
    && p.recno == 1 + LiveBefore(slots, s)
    && p.deleted == slots[s].Dead?
    && (p.deleted ==> p.order >= 1)
  }

  /** Among the deleted cursors of one record number, order numbers follow the line. */
  ghost predicate Aligned(s: nat, p: Position, t: nat, q: Position) {
    p.deleted && q.deleted && p.recno == q.recno ==> (p.order < q.order <==> s < t)
  }

  /** The position `p` stands for slot `s` beside all the open cursors. */
  ghost predicate Coherent<T>(slots: seq<Slot<T>>, s: nat, p: Position, at: map<int, nat>, ps: map<int, Position>)
    requires at.Keys == ps.Keys
  {
    && Fits(slots, s, p)
    && forall i <- ps :: Aligned(s, p, at[i], ps[i]) && Aligned(at[i], ps[i], s, p)
  }

  /** The open cursors stand for the slots `at`. */
  ghost predicate Tracks<T>(slots: seq<Slot<T>>, at: map<int, nat>, ps: map<int, Position>) {
    && at.Keys == ps.Keys
    && forall i <- ps :: Coherent(slots, at[i], ps[i], at, ps)
  }

  ghost predicate Applies<T>(op: Op, slots: seq<Slot<T>>, s: nat) {
    && s < |slots|
    && (op == Delete ==> slots[s].Live?)
    && (op == InsertCurrent ==> slots[s].Dead?)
  }

  /** The operation on the line, at the slot of the argument cursor. */
  function Apply<T>(op: Op, slots: seq<Slot<T>>, s: nat, x: T): seq<Slot<T>>
    requires s < |slots|
  {
    match op
    case Delete => slots[s := Dead]
    case InsertAfter => slots[..s + 1] + [Live(x)] + slots[s + 1..]
    case InsertBefore => slots[..s] + [Live(x)] + slots[s..]
    case InsertCurrent => slots[s := Live(x)]
  }

  /** Where slot `t` is afterwards. */
  function Moved(op: Op, s: nat, t: nat): nat {
    if (op == InsertAfter && t > s) || (op == InsertBefore && t >= s) then t + 1 else t
  }

  ghost function MovedAll(op: Op, s: nat, at: map<int, nat>): map<int, nat> {
    map i | i in at :: Moved(op, s, at[i])
  }

  // ---- Places and record numbers ----

  lemma {:induction false} LiveBeforeGrows<T>(slots: seq<Slot<T>>, s: nat, t: nat)
    requires s < t <= |slots|
    ensures LiveBefore(slots, s) + (if slots[s].Live? then 1 else 0) <= LiveBefore(slots, t)
    decreases t
  {
    if s < t - 1 {
      LiveBeforeGrows(slots, s, t - 1);
    }
  }

  /** C_LESSTHAN and C_EQUAL decide the order of the slots. */
  lemma OrderIsPlace<T>(slots: seq<Slot<T>>, s: nat, p: Position, t: nat, q: Position)
    requires Fits(slots, s, p) && Fits(slots, t, q)
    requires Aligned(s, p, t, q) && Aligned(t, q, s, p)
    ensures Before(p, q) <==> s < t
    ensures Same(p, q) <==> s == t
    ensures Before(p, q) || Same(p, q) || Before(q, p)
  {
    if s < t {
      LiveBeforeGrows(slots, s, t);
    } else if t < s {
      LiveBeforeGrows(slots, t, s);
    }
  }

  lemma {:induction false} LiveBeforeAfterInsert<T>(slots: seq<Slot<T>>, k: nat, x: T, n: nat)
    requires k <= |slots| && n <= |slots| + 1
    ensures LiveBefore(slots[..k] + [Live(x)] + slots[k..], n)
         == if n <= k then LiveBefore(slots, n) else LiveBefore(slots, n - 1) + 1
    decreases n
  {
    if n > 0 {
      LiveBeforeAfterInsert(slots, k, x, n - 1);
    }
  }

  lemma {:induction false} LiveBeforeAfterUpdate<T>(slots: seq<Slot<T>>, s: nat, slot: Slot<T>, n: nat)
    requires s < |slots| && n <= |slots| && slot.Live? != slots[s].Live?
    ensures LiveBefore(slots[s := slot], n)
         == LiveBefore(slots, n) + if n <= s then 0 else if slot.Live? then 1 else -1
    decreases n
  {
    if n > 0 {
      LiveBeforeAfterUpdate(slots, s, slot, n - 1);
    }
  }

  /** What the operation does to the number of live slots before any slot that stays. */
  lemma LiveBeforeAfter<T>(op: Op, slots: seq<Slot<T>>, s: nat, x: T, t: nat)
    requires Applies(op, slots, s) && t < |slots|
    ensures Moved(op, s, t) < |Apply(op, slots, s, x)|
    ensures t != s ==> Apply(op, slots, s, x)[Moved(op, s, t)] == slots[t]
    ensures t == s && (op == InsertAfter || op == InsertBefore) ==> Apply(op, slots, s, x)[Moved(op, s, t)] == slots[t]
    ensures LiveBefore(Apply(op, slots, s, x), Moved(op, s, t))
         == LiveBefore(slots, t) + if t > s then (if op == Delete then -1 else 1)
                                   else if t == s && op == InsertBefore then 1 else 0
  {
    hide LiveBefore;
    match op
    case Delete => LiveBeforeAfterUpdate(slots, s, Dead, t);
    case InsertCurrent => LiveBeforeAfterUpdate(slots, s, Live(x), t);
    case InsertAfter => LiveBeforeAfterInsert(slots, s + 1, x, Moved(op, s, t));
    case InsertBefore => LiveBeforeAfterInsert(slots, s, x, Moved(op, s, t));
  }

  // ---- The adjustment keeps every cursor on its slot ----

  lemma AdjustFits<T>(op: Op, order: int, slots: seq<Slot<T>>, s: nat, arg: Position, x: T, t: nat, p: Position)
    requires Applies(op, slots, s) && order >= 1
    requires Fits(slots, s, arg) && Fits(slots, t, p)
    requires Aligned(s, arg, t, p) && Aligned(t, p, s, arg)
    ensures Fits(Apply(op, slots, s, x), Moved(op, s, t), Adjust(op, arg.recno, order, arg, p))
  {
    OrderIsPlace(slots, s, arg, t, p);
    LiveBeforeAfter(op, slots, s, x, t);
  }

  lemma AdjustAligned<T>(op: Op, order: int, slots: seq<Slot<T>>, s: nat, arg: Position,
                         t: nat, p: Position, u: nat, q: Position)
    requires Applies(op, slots, s)
    requires Fits(slots, s, arg) && Fits(slots, t, p) && Fits(slots, u, q)
    requires Aligned(s, arg, t, p) && Aligned(t, p, s, arg)
    requires Aligned(s, arg, u, q) && Aligned(u, q, s, arg)
    requires Aligned(t, p, u, q) && Aligned(u, q, t, p)
    requires op == Delete ==> forall c <- {p, q} :: c.recno == arg.recno && c.deleted ==> c.order < order
    ensures Aligned(Moved(op, s, t), Adjust(op, arg.recno, order, arg, p),
                    Moved(op, s, u), Adjust(op, arg.recno, order, arg, q))
  {
    OrderIsPlace(slots, s, arg, t, p);
    OrderIsPlace(slots, s, arg, u, q);
    OrderIsPlace(slots, t, p, u, q);
    if op == Delete {
      assert p in {p, q} && q in {p, q};
    }
  }

  /** One call of `__ram_ca` leaves every cursor on its slot: the order numbers stand for
    * exactly the places of the deleted records, whatever the operation. */
  lemma AdjustTracks<T>(op: Op, order: int, slots: seq<Slot<T>>, s: nat, arg: Position, x: T,
                        at: map<int, nat>, ps: map<int, Position>)
    requires Applies(op, slots, s) && order >= 1
    requires Tracks(slots, at, ps) && Coherent(slots, s, arg, at, ps)
    requires op == Delete ==> FreshOrder(order, arg.recno, ps)
    ensures Tracks(Apply(op, slots, s, x), MovedAll(op, s, at), Snapshot(op, order, arg, ps))
  {
    hide Adjust, Apply, Moved, Fits, Aligned;
    var ps', at' := Snapshot(op, order, arg, ps), MovedAll(op, s, at);
    forall i, j | i in ps && j in ps
      ensures Fits(Apply(op, slots, s, x), at'[i], ps'[i])
      ensures Aligned(at'[i], ps'[i], at'[j], ps'[j])
    {
      assert Coherent(slots, at[i], ps[i], at, ps) && Coherent(slots, at[j], ps[j], at, ps);
      AdjustFits(op, order, slots, s, arg, x, at[i], ps[i]);
      AdjustAligned(op, order, slots, s, arg, at[i], ps[i], at[j], ps[j]);
    }
  }

  /** Moving slots keeps their order. */
  lemma SamePlaces<T>(slots: seq<Slot<T>>, at: map<int, nat>, ps: map<int, Position>,
                      slots': seq<Slot<T>>, at': map<int, nat>, ps': map<int, Position>)
    requires Tracks(slots, at, ps) && Tracks(slots', at', ps') && at.Keys == at'.Keys
    requires forall i, j :: i in at && j in at ==> (at[i] < at[j] <==> at'[i] < at'[j])
    ensures SameOrder(ps, ps')
  {
    forall i, j | i in ps && j in ps
      ensures Before(ps[i], ps[j]) <==> Before(ps'[i], ps'[j])
      ensures Same(ps[i], ps[j]) <==> Same(ps'[i], ps'[j])
    {
      assert Coherent(slots, at[i], ps[i], at, ps) && Coherent(slots, at[j], ps[j], at, ps);
      assert Coherent(slots', at'[i], ps'[i], at', ps') && Coherent(slots', at'[j], ps'[j], at', ps');
      OrderIsPlace(slots, at[i], ps[i], at[j], ps[j]);
      OrderIsPlace(slots', at'[i], ps'[i], at'[j], ps'[j]);
    }
  }

  ghost predicate SameOrder(ps: map<int, Position>, ps': map<int, Position>) {
    && ps.Keys == ps'.Keys
    && forall i, j :: i in ps && j in ps ==>
         (Before(ps[i], ps[j]) <==> Before(ps'[i], ps'[j])) && (Same(ps[i], ps[j]) <==> Same(ps'[i], ps'[j]))
  }

  /** No operation reorders, merges or separates cursors. */
  lemma AdjustKeepsOrder<T>(op: Op, order: int, slots: seq<Slot<T>>, s: nat, arg: Position, x: T,
                            at: map<int, nat>, ps: map<int, Position>)
    requires Applies(op, slots, s) && order >= 1
    requires Tracks(slots, at, ps) && Coherent(slots, s, arg, at, ps)
    requires op == Delete ==> FreshOrder(order, arg.recno, ps)
    ensures SameOrder(ps, Snapshot(op, order, arg, ps))
  {
    AdjustTracks(op, order, slots, s, arg, x, at, ps);
    SamePlaces(slots, at, ps, Apply(op, slots, s, x), MovedAll(op, s, at), Snapshot(op, order, arg, ps));
  }

  // ---- Records ----

  lemma {:induction false} RecordsLength<T>(slots: seq<Slot<T>>)
    ensures |Records(slots)| == LiveBefore(slots, |slots|)
  {
    if slots != [] {
      var front := slots[..|slots| - 1];
      RecordsLength(front);
      LiveBeforePrefix(front, slots, |front|);
    }
  }

  lemma {:induction false} LiveBeforePrefix<T>(front: seq<Slot<T>>, slots: seq<Slot<T>>, n: nat)
    requires front <= slots && n <= |front|
    ensures LiveBefore(front, n) == LiveBefore(slots, n)
  {
    if n > 0 {
      LiveBeforePrefix(front, slots, n - 1);
    }
  }

  /** A live cursor's record number is the number of its record. */
  lemma {:induction false} CursorRecord<T>(slots: seq<Slot<T>>, s: nat)
    requires s < |slots| && slots[s].Live?
    ensures LiveBefore(slots, s) < |Records(slots)|
    ensures Records(slots)[LiveBefore(slots, s)] == slots[s].rec
  {
    var front := slots[..|slots| - 1];
    RecordsLength(front);
    RecordsLength(slots);
    LiveBeforePrefix(front, slots, |front|);
    if s < |front| {
      CursorRecord(front, s);
      LiveBeforePrefix(front, slots, s);
    }
  }

  lemma {:induction false} RecordsAppend<T>(a: seq<Slot<T>>, b: seq<Slot<T>>)
    ensures Records(a + b) == Records(a) + Records(b)
  {
    if b == [] {
      assert a + b == a;
    } else {
      var n := |b| - 1;
      assert (a + b)[..|a + b| - 1] == a + b[..n];
      RecordsAppend(a, b[..n]);
    }
  }

  /** Where the record of an operation goes, in record numbers: the new record of an insert
    * relative to a deleted cursor goes just before the record with the cursor's number. */
  lemma RecordsAfter<T>(op: Op, slots: seq<Slot<T>>, s: nat, x: T)
    requires Applies(op, slots, s)
    ensures LiveBefore(slots, s) + (if slots[s].Live? then 1 else 0) <= |Records(slots)|
    ensures Records(Apply(op, slots, s, x))
         == Edited(op, Records(slots), LiveBefore(slots, s), slots[s].Live?, x)
  {
    hide LiveBefore, Records, Apply, Edited, Middle, MiddleRecords;
    var a, here, b := slots[..s], [slots[s]], slots[s + 1..];
    assert slots == a + here + b;
    RecordsOfThree(a, here, b);
    RecordsLength(a);
    LiveBeforePrefix(a, slots, s);
    OneRecord(slots[s]);
    EditedParts(op, Records(a), slots[s], Records(b), x);
    ApplyParts(op, a, slots[s], b, x);
    ApplyRecords(op, a, slots[s], b, x);
  }

  /** The record list after the operation at a slot with `n` records before it. */
  function Edited<T>(op: Op, r: seq<T>, n: nat, live: bool, x: T): seq<T>
    requires n + (if live then 1 else 0) <= |r|
  {
    if op == Delete then r[..n] + (if live then r[n + 1..] else r[n..])
    else if op == InsertAfter && live then r[..n + 1] + [x] + r[n + 1..]
    else r[..n] + [x] + r[n..]
  }

  lemma ApplyParts<T>(op: Op, a: seq<Slot<T>>, slot: Slot<T>, b: seq<Slot<T>>, x: T)
    ensures Apply(op, a + [slot] + b, |a|, x) == a + Middle(op, slot, x) + b
  {
    var slots := a + [slot] + b;
    match op
    case Delete => assert slots[|a| := Dead] == a + [Dead] + b;
    case InsertCurrent => assert slots[|a| := Live(x)] == a + [Live(x)] + b;
    case InsertAfter =>
      assert slots[..|a| + 1] == a + [slot] && slots[|a| + 1..] == b;
      assert a + [slot] + [Live(x)] == a + [slot, Live(x)];
    case InsertBefore =>
      assert slots[..|a|] == a && slots[|a|..] == [slot] + b;
      assert a + [Live(x)] + ([slot] + b) == a + [Live(x), slot] + b;
  }

  function Middle<T>(op: Op, slot: Slot<T>, x: T): seq<Slot<T>> {
    match op
    case Delete => [Dead]
    case InsertAfter => [slot, Live(x)]
    case InsertBefore => [Live(x), slot]
    case InsertCurrent => [Live(x)]
  }

  lemma ApplyRecords<T>(op: Op, a: seq<Slot<T>>, slot: Slot<T>, b: seq<Slot<T>>, x: T)
    requires op == InsertCurrent ==> slot.Dead?
    ensures Records(a + Middle(op, slot, x) + b) == Records(a) + MiddleRecords(op, slot, x) + Records(b)
  {
    RecordsOfThree(a, Middle(op, slot, x), b);
    OneRecord(slot);
    OneRecord(Live(x));
    OneRecord<T>(Dead);
    match op
    case InsertAfter =>
      assert Middle(op, slot, x) == [slot] + [Live(x)];
      RecordsAppend([slot], [Live(x)]);
    case InsertBefore =>
      assert Middle(op, slot, x) == [Live(x)] + [slot];
      RecordsAppend([Live(x)], [slot]);
    case _ =>
  }

  function MiddleRecords<T>(op: Op, slot: Slot<T>, x: T): seq<T> {
    var here := if slot.Live? then [slot.rec] else [];
    match op
    case Delete => []
    case InsertAfter => here + [x]
    case InsertBefore => [x] + here
    case InsertCurrent => [x]
  }

  lemma EditedParts<T>(op: Op, a: seq<T>, slot: Slot<T>, b: seq<T>, x: T)
    ensures Edited(op, a + (if slot.Live? then [slot.rec] else []) + b, |a|, slot.Live?, x)
         == if op == InsertCurrent && slot.Live? then a + [x, slot.rec] + b
            else a + MiddleRecords(op, slot, x) + b
  {
    if slot.Live? {
      var r := a + [slot.rec] + b;
      assert r[..|a|] == a && r[..|a| + 1] == a + [slot.rec];
      assert r[|a|..] == [slot.rec] + b && r[|a| + 1..] == b;
    } else {
      var r := a + [] + b;
      assert r[..|a|] == a && r[|a|..] == b;
    }
  }

  lemma OneRecord<T>(slot: Slot<T>)
    ensures Records([slot]) == if slot.Live? then [slot.rec] else []
  {
    assert [slot][..0] == [];
    assert Records<T>([]) == [];
  }

  lemma RecordsOfThree<T>(a: seq<Slot<T>>, b: seq<Slot<T>>, c: seq<Slot<T>>)
    ensures Records(a + b + c) == Records(a) + Records(b) + Records(c)
  {
    RecordsAppend(a + b, c);
    RecordsAppend(a, b);
  }

  // ---- Whole runs ----

  datatype Line<T> = Line(slots: seq<Slot<T>>, at: map<int, nat>, ps: map<int, Position>)

  datatype Event<T> =
    | Adjusted(op: Op, who: int, rec: T, order: int)
    | Placed(who: int, slot: nat)

  ghost predicate Can<T>(st: Line<T>, e: Event<T>) {
    match e
    case Adjusted(op, who, _, order) =>
      && who in st.at && who in st.ps
      && Applies(op, st.slots, st.at[who])
      && order >= 1
      && (op == Delete ==> FreshOrder(order, st.ps[who].recno, st.ps))
    case Placed(_, slot) => slot < |st.slots| && st.slots[slot].Live?
  }

  ghost function Next<T>(st: Line<T>, e: Event<T>): Line<T>
    requires Can(st, e)
  {
    match e
    case Adjusted(op, who, x, order) =>
      Line(Apply(op, st.slots, st.at[who], x), MovedAll(op, st.at[who], st.at),
           Snapshot(op, order, st.ps[who], st.ps))
    case Placed(who, slot) =>
      Line(st.slots, st.at[who := slot],
           st.ps[who := Position(1 + LiveBefore(st.slots, slot), false, INVALID_ORDER)])
  }

  ghost predicate Runs<T>(st: Line<T>, events: seq<Event<T>>, end: Line<T>)
    decreases |events|
  {
    if events == [] then st == end else Can(st, events[0]) && Runs(Next(st, events[0]), events[1..], end)
  }

  lemma NextTracks<T>(st: Line<T>, e: Event<T>)
    requires Tracks(st.slots, st.at, st.ps) && Can(st, e)
    ensures var next := Next(st, e); Tracks(next.slots, next.at, next.ps)
  {
    match e
    case Adjusted(op, who, x, order) =>
      AdjustTracks(op, order, st.slots, st.at[who], st.ps[who], x, st.at, st.ps);
    case Placed(who, slot) =>
      var next := Next(st, e);
      forall i, j | i in next.ps && j in next.ps
        ensures Fits(next.slots, next.at[i], next.ps[i])
        ensures Aligned(next.at[i], next.ps[i], next.at[j], next.ps[j])
      {
        assert i != who ==> Coherent(st.slots, st.at[i], st.ps[i], st.at, st.ps);
      }
  }

  /** Through any run of inserts, deletes and cursor movements, every cursor stands for its
    * slot, and a cursor that is not deleted names the record of its slot. */
  lemma {:induction false} RunTracks<T>(st: Line<T>, events: seq<Event<T>>, end: Line<T>)
    requires Tracks(st.slots, st.at, st.ps) && Runs(st, events, end)
    ensures Tracks(end.slots, end.at, end.ps)
    ensures forall i <- end.ps :: !end.ps[i].deleted ==>
              && 1 <= end.ps[i].recno <= |Records(end.slots)|
              && end.slots[end.at[i]] == Live(Records(end.slots)[end.ps[i].recno - 1])
    decreases |events|
  {
    hide Next, Can;
    if events == [] {
      forall i <- end.ps | !end.ps[i].deleted
        ensures 1 <= end.ps[i].recno <= |Records(end.slots)|
        ensures end.slots[end.at[i]] == Live(Records(end.slots)[end.ps[i].recno - 1])
      {
        assert Coherent(end.slots, end.at[i], end.ps[i], end.at, end.ps);
        CursorRecord(end.slots, end.at[i]);
      }
    } else {
      NextTracks(st, events[0]);
      RunTracks(Next(st, events[0]), events[1..], end);
    }
  }

  // ---- Undo ----

  ghost predicate Restored(ps: map<int, Position>, ps': map<int, Position>) {
    && SameOrder(ps, ps')
    && forall i <- ps :: ps'[i].recno == ps[i].recno && ps'[i].deleted == ps[i].deleted
  }

  lemma RestoredBy<T>(slots: seq<Slot<T>>, at: map<int, nat>, ps: map<int, Position>,
                      slots': seq<Slot<T>>, at': map<int, nat>, ps': map<int, Position>)
    requires Tracks(slots, at, ps) && Tracks(slots', at', ps') && at.Keys == at'.Keys
    requires forall i, j :: i in at && j in at ==> (at[i] < at[j] <==> at'[i] < at'[j])
    requires forall i <- at :: at[i] < |slots| && at'[i] < |slots'|
                               && LiveBefore(slots', at'[i]) == LiveBefore(slots, at[i])
                               && slots'[at'[i]].Dead? == slots[at[i]].Dead?
    ensures Restored(ps, ps')
  {
    hide LiveBefore;
    SamePlaces(slots, at, ps, slots', at', ps');
    forall i <- ps
      ensures ps'[i].recno == ps[i].recno && ps'[i].deleted == ps[i].deleted
    {
      assert Coherent(slots, at[i], ps[i], at, ps) && Coherent(slots', at'[i], ps'[i], at', ps');
    }
  }

  lemma Unmoved(op: Op, s: nat, at: map<int, nat>)
    requires op == Delete || op == InsertCurrent
    ensures MovedAll(op, s, at) == at
  {
    var moved := MovedAll(op, s, at);
    assert forall i <- at :: moved[i] == at[i];
    assert moved.Keys == at.Keys;
  }

  lemma IgnoresOrder(o: int, p: int, arg: Position, ps: map<int, Position>)
    ensures Snapshot(InsertCurrent, o, arg, ps) == Snapshot(InsertCurrent, p, arg, ps)
  {
    var a, b := Snapshot(InsertCurrent, o, arg, ps), Snapshot(InsertCurrent, p, arg, ps);
    assert forall i <- ps :: a[i] == b[i];
    assert a.Keys == b.Keys;
  }

  /** The record of a delete holds the argument's record number and the order it was given;
    * putting the record back with CA_ICURRENT restores every cursor but for raw orders. */
  lemma UndoDelete<T>(order: int, ignored: int, slots: seq<Slot<T>>, s: nat, arg: Position,
                      at: map<int, nat>, ps: map<int, Position>)
    requires Tracks(slots, at, ps) && Coherent(slots, s, arg, at, ps) && slots[s].Live?
    requires FreshOrder(order, arg.recno, ps)
    ensures var deleted := Snapshot(Delete, order, arg, ps);
            Restored(ps, Snapshot(InsertCurrent, ignored, Position(arg.recno, true, order), deleted))
  {
    var slots1, ps1 := slots[s := Dead], Snapshot(Delete, order, arg, ps);
    var logged := Position(arg.recno, true, order);
    AdjustTracks(Delete, order, slots, s, arg, slots[s].rec, at, ps);
    Unmoved(Delete, s, at);
    assert logged == Adjust(Delete, arg.recno, order, arg, arg);
    AdjustFits(Delete, order, slots, s, arg, slots[s].rec, s, arg);
    forall i <- ps
      ensures Aligned(s, logged, at[i], ps1[i]) && Aligned(at[i], ps1[i], s, logged)
    {
      assert Coherent(slots, at[i], ps[i], at, ps);
      AdjustAligned(Delete, order, slots, s, arg, s, arg, at[i], ps[i]);
      AdjustAligned(Delete, order, slots, s, arg, at[i], ps[i], s, arg);
    }
    UndoneBy(slots1, s, logged, slots[s].rec, at, ps1);
    assert slots1[s := Live(slots[s].rec)] == slots;
    var ps2 := Snapshot(InsertCurrent, ignored, logged, ps1);
    IgnoresOrder(ignored, 1, logged, ps1);
    RestoredBy(slots, at, ps, slots, at, ps2);
  }

  /** When later adjustments come between a delete and its undo, the logged order may no
    * longer be the order of the cursors on the deleted record.  The undo works exactly when
    * the logged position still stands for the deleted slot among the open cursors. */
  lemma UndoneBy<T>(slots: seq<Slot<T>>, s: nat, logged: Position, x: T, at: map<int, nat>, ps: map<int, Position>)
    requires Tracks(slots, at, ps) && Fits(slots, s, logged) && logged.deleted
    ensures Tracks(slots[s := Live(x)], at, Snapshot(InsertCurrent, 1, logged, ps))
       <==> forall i <- ps :: ps[i].deleted && ps[i].recno == logged.recno ==>
              && (ps[i].order < logged.order <==> at[i] < s)
              && (ps[i].order > logged.order <==> at[i] > s)
  {
    var ps' := Snapshot(InsertCurrent, 1, logged, ps);
    Unmoved(InsertCurrent, s, at);
    if forall i <- ps :: Aligned(s, logged, at[i], ps[i]) && Aligned(at[i], ps[i], s, logged) {
      AdjustTracks(InsertCurrent, 1, slots, s, logged, x, at, ps);
    }
    if Tracks(slots[s := Live(x)], at, ps') {
      forall i <- ps | ps[i].deleted && ps[i].recno == logged.recno
        ensures ps[i].order < logged.order <==> at[i] < s
        ensures ps[i].order > logged.order <==> at[i] > s
      {
        assert Coherent(slots, at[i], ps[i], at, ps);
        assert Coherent(slots[s := Live(x)], at[i], ps'[i], at, ps');
        LiveBeforeAfterUpdate(slots, s, Live(x), at[i]);
      }
    }
  }

  /** What a delete and its undo leave of a cursor: all but the raw orders, which stay raised
    * at the next record. */
  function Raised(recno: int, order: int, p: Position): Position {
    if !p.deleted then (if p.recno == recno then p.(order := INVALID_ORDER) else p)
    else if p.recno == recno + 1 then p.(order := p.order + order)
    else p
  }

  ghost predicate Ordered(ps: map<int, Position>) {
    forall i <- ps :: ps[i].deleted ==> ps[i].order >= 1
  }

  /** One delete as its log record describes it, and the undo of that record. */
  ghost function DeletedAt(recno: int, order: int, ps: map<int, Position>): map<int, Position> {
    Snapshot(Delete, order, Position(recno, false, INVALID_ORDER), ps)
  }

  ghost function UndoneAt(recno: int, order: int, ps: map<int, Position>): map<int, Position> {
    Snapshot(InsertCurrent, INVALID_ORDER, Position(recno, true, order), ps)
  }

  lemma DeleteAndUndo(recno: int, order: int, ps: map<int, Position>, i: int)
    requires i in ps && FreshOrder(order, recno, ps) && Ordered(ps)
    ensures UndoneAt(recno, order, DeletedAt(recno, order, ps))[i] == Raised(recno, order, ps[i])
  {
  }

  /** A cursor the two undos below lose: it was on or just in front of the first record
    * deleted, and the merge of the second delete has lifted it to the order logged by the
    * first or above. */
  predicate Lost(r: int, first: int, second: int, p: Position) {
    p.recno == r && (p.deleted ==> p.order + second >= first)
  }

  /** What two deletes and their undos leave of a cursor. */
  function Twice(r1: int, o1: int, r2: int, o2: int, p: Position): Position {
    if r2 + 1 < r1 then Raised(r1, o1, Raised(r2, o2, p))
    else if r2 + 1 > r1 then Raised(r1, o1, Raised(r2 + 1, o2, p))
    else if !p.deleted then
      (if p.recno == r1 then Position(r1 + 1, true, o1 + o2)
       else if p.recno == r2 then p.(order := INVALID_ORDER)
       else p)
    else if p.recno == r1 then
      (if p.order + o2 == o1 then Position(r1, false, INVALID_ORDER)
       else Position(if p.order + o2 > o1 then r1 + 1 else r1, true, p.order + o2))
    else if p.recno == r1 + 1 then p.(order := p.order + o1 + o2)
    else p
  }

  lemma BackAgain(r1: int, o1: int, r2: int, o2: int, p: Position)
    requires o1 >= 1 && o2 >= 1 && (p.deleted ==> p.order >= 1)
    requires p.recno == r1 && p.deleted ==> p.order < o1
    ensures Adjust(InsertCurrent, r1, INVALID_ORDER, Position(r1, true, o1),
                   Raised(r2, o2, Adjust(Delete, r1, o1, Position(r1, false, INVALID_ORDER), p)))
         == Twice(r1, o1, r2, o2, p)
  {
  }

  lemma TwiceInOrder(r1: int, o1: int, r2: int, o2: int, p: Position, q: Position)
    requires r2 + 1 != r1 || (!Lost(r1, o1, o2, p) && !Lost(r1, o1, o2, q))
    ensures Before(p, q) <==> Before(Twice(r1, o1, r2, o2, p), Twice(r1, o1, r2, o2, q))
    ensures Same(p, q) <==> Same(Twice(r1, o1, r2, o2, p), Twice(r1, o1, r2, o2, q))
  {
  }

  /** Record `r1` is deleted, then record `r2`, with orders `o1` and `o2`, and both are undone
    * in reverse. */
  ghost function BothUndone(r1: int, o1: int, r2: int, o2: int, ps: map<int, Position>): map<int, Position> {
    UndoneAt(r1, o1, UndoneAt(r2, o2, DeletedAt(r2, o2, DeletedAt(r1, o1, ps))))
  }

  lemma EachUndone(r1: int, o1: int, r2: int, o2: int, ps: map<int, Position>, i: int)
    requires i in ps && Ordered(ps) && FreshOrder(o1, r1, ps) && FreshOrder(o2, r2, DeletedAt(r1, o1, ps))
    ensures BothUndone(r1, o1, r2, o2, ps)[i] == Twice(r1, o1, r2, o2, ps[i])
  {
    DeleteAndUndo(r2, o2, DeletedAt(r1, o1, ps), i);
    BackAgain(r1, o1, r2, o2, ps[i]);
  }

  /** The cursors come back unless the second record was directly in front of the first and a
    * cursor there is lost: the first undo takes the merged orders back to the next record
    * without splitting them again. */
  lemma UndoOfDeletes(r1: int, o1: int, r2: int, o2: int, ps: map<int, Position>)
    requires Ordered(ps) && FreshOrder(o1, r1, ps) && FreshOrder(o2, r2, DeletedAt(r1, o1, ps))
    ensures Restored(ps, BothUndone(r1, o1, r2, o2, ps))
       <==> r2 + 1 != r1 || forall i <- ps :: !Lost(r1, o1, o2, ps[i])
  {
    hide Twice, BothUndone, Before, Same;
    var back := BothUndone(r1, o1, r2, o2, ps);
    BackKeys(r1, o1, r2, o2, ps);
    forall i <- ps
      ensures back[i] == Twice(r1, o1, r2, o2, ps[i])
      ensures back[i].recno == ps[i].recno && back[i].deleted == ps[i].deleted
         <==> r2 + 1 != r1 || !Lost(r1, o1, o2, ps[i])
    {
      EachUndone(r1, o1, r2, o2, ps, i);
      TwicePlace(r1, o1, r2, o2, ps[i]);
    }
    if r2 + 1 != r1 || forall i <- ps :: !Lost(r1, o1, o2, ps[i]) {
      forall i, j | i in ps && j in ps
        ensures Before(ps[i], ps[j]) <==> Before(back[i], back[j])
        ensures Same(ps[i], ps[j]) <==> Same(back[i], back[j])
      {
        TwiceInOrder(r1, o1, r2, o2, ps[i], ps[j]);
      }
    }
  }

  lemma BackKeys(r1: int, o1: int, r2: int, o2: int, ps: map<int, Position>)
    ensures BothUndone(r1, o1, r2, o2, ps).Keys == ps.Keys
  {
  }

  lemma TwicePlace(r1: int, o1: int, r2: int, o2: int, p: Position)
    ensures var q := Twice(r1, o1, r2, o2, p);
            q.recno == p.recno && q.deleted == p.deleted <==> r2 + 1 != r1 || !Lost(r1, o1, o2, p)
  {
  }

  /** With the orders the code takes, the least fresh ones, any cursor on or in front of the
    * first record is lost. */
  lemma NeighboursLost(r1: int, o1: int, r2: int, o2: int, ps: map<int, Position>)
    requires Ordered(ps) && FreshOrder(o1, r1, ps) && FreshOrder(o2, r2, DeletedAt(r1, o1, ps))
    requires o1 > 1 ==> !FreshOrder(o1 - 1, r1, ps)
    ensures Restored(ps, BothUndone(r1, o1, r2, o2, ps))
       <==> r2 + 1 != r1 || forall i <- ps :: ps[i].recno != r1
  {
    hide BothUndone, DeletedAt, Restored;
    UndoOfDeletes(r1, o1, r2, o2, ps);
    if i :| i in ps && ps[i].recno == r1 && ps[i].deleted {
      var k :| k in ps && ps[k].recno == r1 && ps[k].deleted && ps[k].order >= o1 - 1;
      assert Lost(r1, o1, o2, ps[k]);
    }
  }

  /** Two deletes of neighbouring records: the cursor on the first record deleted comes back
    * deleted and one record too far. */
  lemma UndoOfTwoDeletes()
    ensures var ps := map[0 := Position(1, false, 0), 1 := Position(2, false, 0)];
            && FreshOrder(1, 2, ps) && FreshOrder(1, 1, DeletedAt(2, 1, ps))
            && BothUndone(2, 1, 1, 1, ps)[0] == ps[0]
            && BothUndone(2, 1, 1, 1, ps)[1] == Position(3, true, 2)
  {
  }

  lemma Deleted<T>(slots: seq<Slot<T>>, s: nat, x: T)
    requires s < |slots|
    ensures Apply(Delete, slots, s, x) == slots[s := Dead]
  {
  }

  function NewSlot(op: Op, s: nat): nat {
    if op == InsertAfter then s + 1 else s
  }

  /** The place of a cursor on the record just inserted. */
  function Inserted<T>(op: Op, slots: seq<Slot<T>>, s: nat, x: T): Position
    requires op != Delete && Applies(op, slots, s)
  {
    Position(1 + LiveBefore(Apply(op, slots, s, x), NewSlot(op, s)), false, INVALID_ORDER)
  }

  lemma BlankedAgain<T>(op: Op, slots: seq<Slot<T>>, s: nat, x: T, t: nat)
    requires op != Delete && Applies(op, slots, s) && t < |slots|
    ensures NewSlot(op, s) < |Apply(op, slots, s, x)| && Apply(op, slots, s, x)[NewSlot(op, s)] == Live(x)
    ensures var slots' := Apply(op, slots, s, x)[NewSlot(op, s) := Dead];
            && Moved(op, s, t) < |slots'|
            && slots'[Moved(op, s, t)].Dead? == slots[t].Dead?
            && LiveBefore(slots', Moved(op, s, t)) == LiveBefore(slots, t)
  {
    LiveBeforeAfter(op, slots, s, x, t);
    LiveBeforeAfterUpdate(Apply(op, slots, s, x), NewSlot(op, s), Dead, Moved(op, s, t));
  }

  /** An insert is undone by deleting its record. */
  lemma UndoInsert<T>(op: Op, order: int, slots: seq<Slot<T>>, s: nat, arg: Position, x: T,
                      at: map<int, nat>, ps: map<int, Position>)
    requires op != Delete && Applies(op, slots, s)
    requires Tracks(slots, at, ps) && Coherent(slots, s, arg, at, ps)
    requires FreshOrder(order, Inserted(op, slots, s, x).recno, Snapshot(op, 1, arg, ps))
    ensures Restored(ps, Snapshot(Delete, order, Inserted(op, slots, s, x), Snapshot(op, 1, arg, ps)))
  {
    hide Adjust, Apply, LiveBefore;
    var n, added := NewSlot(op, s), Inserted(op, slots, s, x);
    var slots1, at1, ps1 := Apply(op, slots, s, x), MovedAll(op, s, at), Snapshot(op, 1, arg, ps);
    BlankedAgain(op, slots, s, x, s);
    AdjustTracks(op, 1, slots, s, arg, x, at, ps);
    AdjustTracks(Delete, order, slots1, n, added, x, at1, ps1);
    Unmoved(Delete, n, at1);
    Deleted(slots1, n, x);
    forall i <- ps
      ensures LiveBefore(slots1[n := Dead], at1[i]) == LiveBefore(slots, at[i])
      ensures slots1[n := Dead][at1[i]].Dead? == slots[at[i]].Dead?
    {
      BlankedAgain(op, slots, s, x, at[i]);
    }
    RestoredBy(slots, at, ps, slots1[n := Dead], at1, Snapshot(Delete, order, added, ps1));
  }

  /** `__bam_rcuradj_recover` on an abort: an adjustment is undone through a new cursor that
    * carries the logged position.  It is the last of the list, so what the loop makes of it
    * is read by no one, and it is closed afterwards. */
  method UndoAdjustment(mode: Op, root: nat, recno: int, logged: int, cursors: seq<Cursor>)
    returns (ghost order: int)
    requires forall i, j :: 0 <= i < j < |cursors| ==> cursors[i] != cursors[j]
    modifies cursors
    ensures OnTree(cursors, root)
         == if mode == Delete then
              Snapshot(InsertCurrent, order, Position(recno, true, logged), old(OnTree(cursors, root)))
            else
              Snapshot(Delete, order, Position(recno, false, INVALID_ORDER), old(OnTree(cursors, root)))
    ensures mode != Delete ==> FreshOrder(order, recno, old(OnTree(cursors, root)))
    ensures forall c <- cursors :: c.root != root ==> c.Pos() == old(c.Pos())
  {
    hide Adjust, Blind, FreshOrder, Snapshot, Looped, IndexOf;
    var rc := new Cursor(root, recno);
    if mode == Delete {
      rc.deleted, rc.order := true, logged;
    }
    ghost var ps, p := OnTree(cursors, root), rc.Pos();
    var op := if mode == Delete then InsertCurrent else Delete;
    var found;
    found, order := RamCa(rc, op, cursors);
    NoneBehind(op, order, p, ps, rc, cursors);
  }

  lemma NoneBehind(op: Op, order: int, arg: Position, ps: map<int, Position>, rc: Cursor, cursors: seq<Cursor>)
    requires rc !in cursors && forall i <- ps :: i < |cursors|
    requires op == InsertCurrent ==> arg.deleted
    ensures Looped(op, order, arg, IndexOf(rc, cursors), ps) == Snapshot(op, order, arg, ps)
  {
    LiveReads(op, order, arg, ps, IndexOf(rc, cursors));
  }
}
