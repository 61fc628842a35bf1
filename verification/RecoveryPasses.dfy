/** The recovery functions of the btree records, and whole recovery passes over a log. */
module RecoveryPasses {
  import opened SlottedPage
  import opened PageOps
  import opened PageSplit
  import opened Recovery

  lemma OnePage(op: RecoveryOp, rec: Record, lsn: nat, d: Disk, p: nat)
    requires AllReady(op, rec, lsn, d) && Touches(rec) == {p}
    ensures p !in d ==> Recovered(op, rec, lsn, d) == d && Passes(op, rec, lsn, d)
    ensures p in d ==> Ready(op, rec, lsn, p, d[p])
    ensures p in d ==> Recovered(op, rec, lsn, d) == d[p := RecoverPage(op, rec, lsn, p, d[p])]
    ensures p in d ==> (Passes(op, rec, lsn, d) <==> !Behind(op, rec, p, d[p]) && !Misplaced(op, rec, lsn, p, d[p]))
  {
    hide Ready, RecoverPage, Behind, Misplaced, Touches;
    var r := Recovered(op, rec, lsn, d);
    if p in d {
      assert p in Touches(rec);
      assert r == d[p := RecoverPage(op, rec, lsn, p, d[p])];
    } else {
      assert forall q <- d :: q !in Touches(rec);
      assert r == d;
    }
  }

  /** The pages of a file, as the buffer pool hands them out. */
  class Store {
    var pages: map<nat, Image>

    constructor (pages: map<nat, Image>)
      ensures this.pages == pages
    {
      this.pages := pages;
    }

    /** `__bam_adj_recover`. */
    method AdjRecover(rec: Record, lsn: nat, op: RecoveryOp) returns (ok: bool)
      requires rec.Adj? && AllReady(op, rec, lsn, pages)
      modifies this
      ensures ok <==> old(Passes(op, rec, lsn, pages))
      ensures !IsRedo(op) ==> ok
      ensures ok ==> pages == old(Recovered(op, rec, lsn, pages))
    {
      hide Recovered, Passes, AllReady;
      OnePage(op, rec, lsn, pages, rec.pgno);
      if rec.pgno !in pages {
        return true;
      }
      var g := pages[rec.pgno];
      if Behind(op, rec, rec.pgno, g) {
        return false;
      }
      if g.lsn == rec.lsn && IsRedo(op) {
        pages := pages[rec.pgno := Adjusted(g, rec.indx, rec.indxCopy, rec.isInsert).(lsn := lsn)];
      } else if g.lsn == lsn && !IsRedo(op) {
        pages := pages[rec.pgno := Adjusted(g, rec.indx, rec.indxCopy, !rec.isInsert).(lsn := rec.lsn)];
      } else {
        assert pages == pages[rec.pgno := g];
      }
      return true;
    }

    /** `__bam_cadjust_recover`. */
    method CAdjustRecover(rec: Record, lsn: nat, op: RecoveryOp) returns (ok: bool)
      requires rec.CAdjust? && AllReady(op, rec, lsn, pages)
      modifies this
      ensures ok <==> old(Passes(op, rec, lsn, pages))
      ensures !IsRedo(op) ==> ok
      ensures ok ==> pages == old(Recovered(op, rec, lsn, pages))
    {
      hide Recovered, Passes, AllReady, CountAdjusted;
      OnePage(op, rec, lsn, pages, rec.pgno);
      if rec.pgno !in pages {
        return true;
      }
      var g := pages[rec.pgno];
      if Behind(op, rec, rec.pgno, g) {
        return false;
      }
      if g.lsn == rec.lsn && IsRedo(op) {
        pages := pages[rec.pgno := CountAdjusted(g, rec.indx, rec.adjust, rec.updateRoot).(lsn := lsn)];
      } else if g.lsn == lsn && !IsRedo(op) {
        pages := pages[rec.pgno := CountAdjusted(g, rec.indx, -rec.adjust, rec.updateRoot).(lsn := rec.lsn)];
      } else {
        assert pages == pages[rec.pgno := g];
      }
      return true;
    }

    /** `__bam_cdel_recover`. */
    method CDelRecover(rec: Record, lsn: nat, op: RecoveryOp) returns (ok: bool)
      requires rec.CDel? && AllReady(op, rec, lsn, pages)
      modifies this
      ensures ok <==> old(Passes(op, rec, lsn, pages))
      ensures op == Abort && rec.pgno in old(pages) ==>
                (ok <==> old(pages)[rec.pgno].lsn == lsn || old(pages)[rec.pgno].lsn <= NOT_LOGGED)
      ensures ok ==> pages == old(Recovered(op, rec, lsn, pages))
    {
      hide Recovered, Passes, AllReady, Marked;
      OnePage(op, rec, lsn, pages, rec.pgno);
      if rec.pgno !in pages {
        return true;
      }
      var g := pages[rec.pgno];
      if Behind(op, rec, rec.pgno, g) || Misplaced(op, rec, lsn, rec.pgno, g) {
        return false;
      }
      if g.lsn == rec.lsn && IsRedo(op) {
        pages := pages[rec.pgno := Marked(g, rec.indx, true).(lsn := lsn)];
      } else if g.lsn == lsn && !IsRedo(op) {
        pages := pages[rec.pgno := Marked(g, rec.indx, false).(lsn := rec.lsn)];
      } else {
        assert pages == pages[rec.pgno := g];
      }
      return true;
    }

    /** `__bam_repl_recover`. */
    method ReplRecover(rec: Record, lsn: nat, op: RecoveryOp) returns (ok: bool)
      requires rec.Repl? && AllReady(op, rec, lsn, pages)
      modifies this
      ensures ok <==> old(Passes(op, rec, lsn, pages))
      ensures op == Abort && rec.pgno in old(pages) ==>
                (ok <==> old(pages)[rec.pgno].lsn == lsn || old(pages)[rec.pgno].lsn <= NOT_LOGGED)
      ensures ok ==> pages == old(Recovered(op, rec, lsn, pages))
    {
      hide Recovered, Passes, AllReady, Rebuilt, UndoRepl;
      OnePage(op, rec, lsn, pages, rec.pgno);
      if rec.pgno !in pages {
        return true;
      }
      var g := pages[rec.pgno];
      if Behind(op, rec, rec.pgno, g) || Misplaced(op, rec, lsn, rec.pgno, g) {
        return false;
      }
      if g.lsn == rec.lsn && IsRedo(op) {
        pages := pages[rec.pgno := Rebuilt(g, rec.indx, rec.isDeleted, rec.diff, rec.diff.repl).(lsn := lsn)];
      } else if g.lsn == lsn && !IsRedo(op) {
        pages := pages[rec.pgno := UndoRepl(g, rec).(lsn := rec.lsn)];
      } else {
        assert pages == pages[rec.pgno := g];
      }
      return true;
    }

    /** One of the pages of a record: the LSN tests and the update they allow. */
    method RecoverOther(rec: Record, lsn: nat, op: RecoveryOp, p: nat, redone: Image, undone: Image,
                        ghost d: Disk, ghost done: set<nat>) returns (ok: bool)
      requires AllReady(op, rec, lsn, d) && pages == RecoveredOn(op, rec, lsn, d, done)
      requires p in Touches(rec) && p !in done
      requires p in d && IsRedo(op) && d[p].lsn == Prior(rec, p) ==> redone == Redo(rec, lsn, p, d[p])
      requires p in d && !IsRedo(op) && d[p].lsn == lsn ==> undone == Undo(rec, p, d[p])
      modifies this
      ensures ok <==> (p in d ==> !Behind(op, rec, p, d[p]) && !Misplaced(op, rec, lsn, p, d[p]))
      ensures ok ==> pages == RecoveredOn(op, rec, lsn, d, done + {p})
    {
      hide AllReady, RecoveredOn, Touches, Prior, AbortChecked;
      OneMore(op, rec, lsn, d, done, p);
      if p !in pages {
        return true;
      }
      var g := pages[p];
      if Behind(op, rec, p, g) || Misplaced(op, rec, lsn, p, g) {
        return false;
      }
      if g.lsn == Prior(rec, p) && IsRedo(op) {
        pages := pages[p := redone];
      } else if g.lsn == lsn && !IsRedo(op) {
        pages := pages[p := undone];
      } else {
        assert pages == pages[p := g];
      }
      return true;
    }

    /** `__bam_relink_recover`: the page behind the unlinked one, then the page before it. */
    method RelinkRecover(rec: Record, lsn: nat, op: RecoveryOp) returns (ok: bool)
      requires rec.Relink? && AllReady(op, rec, lsn, pages)
      requires rec.prev == rec.next ==> rec.next == PGNO_INVALID
      modifies this
      ensures ok <==> old(Passes(op, rec, lsn, pages))
      ensures ok ==> pages == old(Recovered(op, rec, lsn, pages))
    {
      hide AllReady, RecoveredOn, Passes, Recovered, Behind, Misplaced;
      ghost var d, done := pages, {};
      NoneRecovered(op, rec, lsn, d);
      PassesAt(op, rec, lsn, d);
      if rec.next != PGNO_INVALID {
        if rec.next in pages {
          var g := pages[rec.next];
          ok := RecoverOther(rec, lsn, op, rec.next,
                             g.(prev := if rec.newPgno == PGNO_INVALID then rec.prev else rec.newPgno, lsn := lsn),
                             g.(prev := rec.pgno, lsn := rec.lsnNext), d, done);
          if !ok {
            return;
          }
        } else {
          OneMore(op, rec, lsn, d, done, rec.next);
        }
        done := done + {rec.next};
      }
      if rec.prev != PGNO_INVALID {
        OneMore(op, rec, lsn, d, done, rec.prev);
        if rec.prev in pages {
          var g := pages[rec.prev];
          ok := RecoverOther(rec, lsn, op, rec.prev,
                             g.(next := if rec.newPgno == PGNO_INVALID then rec.next else rec.newPgno, lsn := lsn),
                             g.(next := rec.pgno, lsn := rec.lsnPrev), d, done);
          if !ok {
            return;
          }
        }
        done := done + {rec.prev};
      }
      AllRecovered(op, rec, lsn, d, done);
      return true;
    }

    /** Whether a page still lacks the split; `ok` is CHECK_LSN. */
    method Lacks(rec: Record, lsn: nat, op: RecoveryOp, p: nat) returns (ok: bool, due: bool)
      requires IsRedo(op)
      ensures ok <==> (p in pages ==> !Behind(op, rec, p, pages[p]))
      ensures due <==> p in pages && pages[p].lsn == Prior(rec, p)
    {
      due := p in pages && pages[p].lsn == Prior(rec, p);
      ok := !(p in pages && Behind(op, rec, p, pages[p]));
    }

    /** What the pages that lack the split become. */
    method Rebuild(rec: Record, lsn: nat, op: RecoveryOp, pUpdate: bool, lUpdate: bool, rUpdate: bool)
      returns (lp: Image, rp: Image, pp: Image)
      requires rec.Split? && IsRedo(op) && AllReady(op, rec, lsn, pages) && Distinct(rec)
      requires pUpdate <==> rec.ppgno in pages && pages[rec.ppgno].lsn == Prior(rec, rec.ppgno)
      requires lUpdate <==> rec.left in pages && pages[rec.left].lsn == Prior(rec, rec.left)
      requires rUpdate <==> rec.right in pages && pages[rec.right].lsn == Prior(rec, rec.right)
      ensures lUpdate ==> CanRedo(rec, rec.left, pages[rec.left]) && lp == Redo(rec, lsn, rec.left, pages[rec.left])
      ensures rUpdate ==> CanRedo(rec, rec.right, pages[rec.right]) && rp == Redo(rec, lsn, rec.right, pages[rec.right])
      ensures pUpdate ==> CanRedo(rec, rec.ppgno, pages[rec.ppgno]) && pp == Redo(rec, lsn, rec.ppgno, pages[rec.ppgno])
    {
      hide AllReady, SplitImage, Prior, LeftPage, RightPage, NewRoot, Put, Size;
      lp, rp, pp := rec.pg, rec.pg, rec.pg;
      if pUpdate || lUpdate || rUpdate {
        DueImage(op, rec, lsn, pages);
        lp, rp := Halves(rec);
        if pUpdate {
          DueParent(op, rec, lsn, pages);
          if RootSplit(rec) {
            pp := RootPage(rec, lp, rp);
          } else {
            pp := WithEntry(pages[rec.ppgno], rec.pindx + 1, rec.rentry);
          }
          pp := pp.(lsn := lsn);
        }
        lp, rp := lp.(lsn := lsn), rp.(lsn := lsn);
      }
    }

    /** The redo half of `__bam_split_recover`: the halves are built anew from the logged image
      * if any of the pages lacks the split. */
    method SplitRedo(rec: Record, lsn: nat, op: RecoveryOp) returns (ok: bool)
      requires rec.Split? && IsRedo(op) && AllReady(op, rec, lsn, pages) && Distinct(rec)
      modifies this
      ensures ok <==> old(Passes(op, rec, lsn, pages))
      ensures ok ==> pages == old(Recovered(op, rec, lsn, pages))
    {
      hide AllReady, Passes, Recovered, Behind, Misplaced, Ready, Touches, Prior, Redo, CanRedo;
      SplitPasses(op, rec, lsn, pages);
      var pUpdate, lUpdate, rUpdate;
      ok, pUpdate := Lacks(rec, lsn, op, rec.ppgno);
      if !ok { return; }
      ok, lUpdate := Lacks(rec, lsn, op, rec.left);
      if !ok { return; }
      ok, rUpdate := Lacks(rec, lsn, op, rec.right);
      if !ok { return; }
      var lp, rp, pp := Rebuild(rec, lsn, op, pUpdate, lUpdate, rUpdate);
      ok := SplitUpdate(rec, lsn, op, lp, rp, pp);
    }

    method SplitUpdate(rec: Record, lsn: nat, op: RecoveryOp, lp: Image, rp: Image, pp: Image) returns (ok: bool)
      requires rec.Split? && IsRedo(op) && AllReady(op, rec, lsn, pages) && Distinct(rec)
      requires rec.left in pages && pages[rec.left].lsn == Prior(rec, rec.left) ==>
                 CanRedo(rec, rec.left, pages[rec.left]) && lp == Redo(rec, lsn, rec.left, pages[rec.left])
      requires rec.right in pages && pages[rec.right].lsn == Prior(rec, rec.right) ==>
                 CanRedo(rec, rec.right, pages[rec.right]) && rp == Redo(rec, lsn, rec.right, pages[rec.right])
      requires rec.ppgno in pages && pages[rec.ppgno].lsn == Prior(rec, rec.ppgno) ==>
                 CanRedo(rec, rec.ppgno, pages[rec.ppgno]) && pp == Redo(rec, lsn, rec.ppgno, pages[rec.ppgno])
      modifies this
      ensures ok <==> old(Passes(op, rec, lsn, pages))
      ensures ok ==> pages == old(Recovered(op, rec, lsn, pages))
    {
      hide AllReady, RecoveredOn, Passes, Recovered, Behind, Misplaced, Ready, Touches, Prior;
      ghost var d, done := pages, {};
      NoneRecovered(op, rec, lsn, d);
      SplitPasses(op, rec, lsn, d);
      SplitTouches(rec);
      ok := RecoverOther(rec, lsn, op, rec.left, lp, rec.pg, d, done);
      if !ok { return; }
      done := done + {rec.left};
      ok := RecoverOther(rec, lsn, op, rec.right, rp, rec.pg, d, done);
      if !ok { return; }
      done := done + {rec.right};
      ok := RecoverOther(rec, lsn, op, rec.ppgno, pp, rec.pg, d, done);
      if !ok { return; }
      done := done + {rec.ppgno};
      ok := SplitNext(rec, lsn, op, d, done);
    }

    /** The page behind the new one, if the split page had a next page. */
    method SplitNext(rec: Record, lsn: nat, op: RecoveryOp, ghost d: Disk, ghost done: set<nat>) returns (ok: bool)
      requires rec.Split? && AllReady(op, rec, lsn, d) && pages == RecoveredOn(op, rec, lsn, d, done) && Distinct(rec)
      requires done == {rec.left, rec.right, rec.ppgno}
      modifies this
      ensures ok <==> !RootSplit(rec) && rec.npgno != PGNO_INVALID ==> Fine(op, rec, lsn, d, rec.npgno)
      ensures ok ==> pages == Recovered(op, rec, lsn, d)
    {
      hide AllReady, RecoveredOn, Recovered, Behind, Misplaced, Ready, Touches;
      SplitTouches(rec);
      ok := true;
      ghost var all := done;
      if !RootSplit(rec) && rec.npgno != PGNO_INVALID {
        OneMore(op, rec, lsn, d, done, rec.npgno);
        all := done + {rec.npgno};
        if rec.npgno in pages {
          var g := pages[rec.npgno];
          ok := RecoverOther(rec, lsn, op, rec.npgno, g.(prev := rec.right, lsn := lsn),
                             g.(prev := rec.left, lsn := rec.nlsn), d, done);
          if !ok { return; }
        }
      }
      AllRecovered(op, rec, lsn, d, all);
    }

    /** The undo half of `__bam_split_recover`. */
    method SplitUndo(rec: Record, lsn: nat, op: RecoveryOp) returns (ok: bool)
      requires rec.Split? && !IsRedo(op) && AllReady(op, rec, lsn, pages) && Distinct(rec)
      modifies this
      ensures ok <==> old(Passes(op, rec, lsn, pages))
      ensures ok ==> pages == old(Recovered(op, rec, lsn, pages))
    {
      hide AllReady, RecoveredOn, Passes, Recovered, Behind, Misplaced, Touches;
      ghost var d, done := pages, {};
      NoneRecovered(op, rec, lsn, d);
      SplitPasses(op, rec, lsn, d);
      SplitTouches(rec);
      var left := if RootSplit(rec) then WithLsn(rec.left, rec.llsn, rec.pg) else rec.pg;
      ok := RecoverOther(rec, lsn, op, rec.left, rec.pg, left, d, done);
      if !ok { return; }
      done := done + {rec.left};
      OneMore(op, rec, lsn, d, done, rec.right);
      ok := RecoverOther(rec, lsn, op, rec.right, rec.pg, WithLsn(rec.right, rec.rlsn, rec.pg), d, done);
      if !ok { return; }
      done := done + {rec.right};
      OneMore(op, rec, lsn, d, done, rec.ppgno);
      var parent := rec.pg;
      if !RootSplit(rec) && rec.ppgno in pages && pages[rec.ppgno].lsn == lsn {
        parent := Drop(pages[rec.ppgno], rec.pindx + 1).(lsn := rec.plsn);
      }
      ok := RecoverOther(rec, lsn, op, rec.ppgno, rec.pg, parent, d, done);
      if !ok { return; }
      done := done + {rec.ppgno};
      ok := SplitNext(rec, lsn, op, d, done);
    }

    /** The recovery function of the record's type. */
    method Recover(rec: Record, lsn: nat, op: RecoveryOp) returns (ok: bool)
      requires AllReady(op, rec, lsn, pages) && Sane(rec)
      modifies this
      ensures ok <==> old(Passes(op, rec, lsn, pages))
      ensures ok ==> pages == old(Recovered(op, rec, lsn, pages))
    {
      hide AllReady, Passes, Recovered;
      match rec {
        case Adj(_, _, _, _, _) => ok := AdjRecover(rec, lsn, op);
        case CAdjust(_, _, _, _, _) => ok := CAdjustRecover(rec, lsn, op);
        case CDel(_, _, _) => ok := CDelRecover(rec, lsn, op);
        case Repl(_, _, _, _, _) => ok := ReplRecover(rec, lsn, op);
        case Relink(_, _, _, _, _, _) => ok := RelinkRecover(rec, lsn, op);
        case Split(_, _, _, _, _, _, _, _, _, _, _, _, _, _, _) =>
          if IsRedo(op) {
            ok := SplitRedo(rec, lsn, op);
          } else {
            ok := SplitUndo(rec, lsn, op);
          }
      }
    }

    /** The redo pass.  Wherever the crash left each page, it arrives at the executed state,
      * and no LSN check fails on the way. */
    method RedoPass(op: RecoveryOp, base: nat, log: seq<Record>, ghost vs: seq<Disk>, ghost at: map<nat, nat>)
      returns (ok: bool)
      requires Execution(base, vs, log) && IsRedo(op) && RedoneTo(vs, at, 0, pages)
      modifies this
      ensures ok && pages == vs[|log|]
    {
      hide Execution, RedoneTo, AllReady, Passes, Recovered, Sane;
      ExecutionLength(base, vs, log);
      for k := 0 to |log|
        invariant RedoneTo(vs, at, k, pages)
      {
        RedoStep(base, vs, log, op, at, k, pages);
        StepWritten(base, vs, log, k);
        ok := Recover(log[k], base + k + 1, op);
        if !ok {
          return;
        }
      }
      ok := true;
      SamePages(base, vs, log, |log|);
      RedoneAll(vs, at, pages);
    }

    /** A second redo pass changes nothing. */
    method RedoAgain(op: RecoveryOp, base: nat, log: seq<Record>, ghost vs: seq<Disk>, ghost at: map<nat, nat>)
      returns (ok: bool)
      requires Execution(base, vs, log) && IsRedo(op) && RedoneTo(vs, at, 0, pages)
      requires pages == vs[|vs| - 1]
      modifies this
      ensures ok && pages == old(pages)
    {
      ExecutionLength(base, vs, log);
      ok := RedoPass(op, base, log, vs, at);
    }

    /** The undo pass, down to record `j`.  Aborting needs every page at its last version;
      * rolling back starts from any crash state. */
    method UndoPass(op: RecoveryOp, base: nat, log: seq<Record>, j: nat, ghost vs: seq<Disk>, ghost at: map<nat, nat>)
      returns (ok: bool)
      requires Execution(base, vs, log) && !IsRedo(op) && j <= |log|
      requires UndoneTo(vs, log, at, |log|, pages)
      requires op == Abort ==> forall p <- at :: at[p] == |log|
      modifies this
      ensures ok && UndoneTo(vs, log, at, j, pages)
    {
      hide Execution, UndoneTo, AllReady, Passes, Recovered, Sane;
      for k := |log| downto j
        invariant UndoneTo(vs, log, at, k, pages)
      {
        UndoStep(base, vs, log, op, at, k, pages);
        StepWritten(base, vs, log, k);
        ok := Recover(log[k], base + k + 1, op);
        if !ok {
          return;
        }
      }
      ok := true;
    }

    /** The page as it is, with another LSN. */
    function WithLsn(p: nat, lsn: nat, other: Image): Image
      reads this
    {
      if p in pages then pages[p].(lsn := lsn) else other
    }
  }

  ghost predicate Fine(op: RecoveryOp, rec: Record, lsn: nat, d: Disk, p: nat) {
    p in d ==> !Behind(op, rec, p, d[p]) && !Misplaced(op, rec, lsn, p, d[p])
  }

  lemma SplitPasses(op: RecoveryOp, rec: Record, lsn: nat, d: Disk)
    requires rec.Split?
    ensures Passes(op, rec, lsn, d) <==>
              && Fine(op, rec, lsn, d, rec.left) && Fine(op, rec, lsn, d, rec.right) && Fine(op, rec, lsn, d, rec.ppgno)
              && (!RootSplit(rec) && rec.npgno != PGNO_INVALID ==> Fine(op, rec, lsn, d, rec.npgno))
  {
    hide Behind, Misplaced;
  }

  /** A split is about different pages. */
  predicate Distinct(rec: Record)
    requires rec.Split?
  {
    && rec.left != rec.right && rec.ppgno != rec.right && rec.ppgno != rec.left
    && rec.npgno != rec.left && rec.npgno != rec.right && rec.npgno != rec.ppgno
    && (!RootSplit(rec) ==> rec.left == rec.pg.pgno)
  }

  /** A record is about different pages. */
  predicate Sane(rec: Record) {
    && (rec.Relink? && rec.prev == rec.next ==> rec.next == PGNO_INVALID)
    && (rec.Split? ==> Distinct(rec))
  }

  lemma WrittenSane(d: Disk, base: nat, rec: Record)
    requires Written(d, base, rec)
    ensures Sane(rec)
  {
    match rec
    case Split(left, _, _, _, _, _, _, _, _, _, _, _, _, _, _) =>
      assert left in Touches(rec);
      assert Logs(rec, left, d[left]);
    case Relink(_, _, prev, _, next, _) =>
      if next != PGNO_INVALID {
        assert next in Touches(rec);
        assert Logs(rec, next, d[next]);
      }
    case _ =>
  }

  lemma SplitTouches(rec: Record)
    requires rec.Split?
    ensures Touches(rec) == {rec.left, rec.right, rec.ppgno}
                            + if !RootSplit(rec) && rec.npgno != PGNO_INVALID then {rec.npgno} else {}
  {
  }

  lemma DueImage(op: RecoveryOp, rec: Record, lsn: nat, d: Disk)
    requires rec.Split? && IsRedo(op) && AllReady(op, rec, lsn, d)
    requires exists p <- {rec.left, rec.right, rec.ppgno} :: p in d && d[p].lsn == Prior(rec, p)
    ensures SplitImage(rec)
  {
    hide SplitImage, Prior;
    var p :| p in {rec.left, rec.right, rec.ppgno} && p in d && d[p].lsn == Prior(rec, p);
    assert p in Touches(rec);
    assert Ready(op, rec, lsn, p, d[p]);
  }

  lemma DueParent(op: RecoveryOp, rec: Record, lsn: nat, d: Disk)
    requires rec.Split? && IsRedo(op) && AllReady(op, rec, lsn, d)
    requires rec.ppgno in d && d[rec.ppgno].lsn == Prior(rec, rec.ppgno)
    ensures SplitImage(rec) && CanRedo(rec, rec.ppgno, d[rec.ppgno])
  {
    hide SplitImage, Prior;
    assert rec.ppgno in Touches(rec);
    assert Ready(op, rec, lsn, rec.ppgno, d[rec.ppgno]);
  }

  /** The two halves of the logged page. */
  method Halves(rec: Record) returns (lp: Image, rp: Image)
    requires SplitImage(rec)
    ensures lp == LeftPage(rec) && rp == RightPage(rec)
  {
    hide Copied, DupSets;
    var internal := IsInternal(rec.pg.kind);
    var sp := new Page.Of(rec.pg);
    var left, right;
    if RootSplit(rec) {
      left := new Page.Init(sp.size, 0, rec.left, 0, if internal then 0 else rec.right, sp.level, sp.kind);
      right := new Page.Init(sp.size, 0, rec.right, if internal then 0 else rec.left, 0, sp.level, sp.kind);
    } else {
      left := new Page.Init(sp.size, 0, sp.pgno, if internal then 0 else sp.prev,
                            if internal then 0 else rec.right, sp.level, sp.kind);
      right := new Page.Init(sp.size, 0, rec.right, if internal then 0 else sp.pgno,
                             if internal then 0 else sp.next, sp.level, sp.kind);
    }
    Copy(sp, left, 0, rec.indx);
    Copy(sp, right, rec.indx, |rec.pg.inp|);
    lp, rp := left.Img(), right.Img();
  }

  /** The parent page with the new entry. */
  method WithEntry(g: Image, indx: nat, item: Item) returns (pp: Image)
    requires indx <= |g.inp| && Size(item) <= g.FreeSpace()
    ensures pp == Put(g, indx, item)
  {
    hide Size, Put;
    var page := new Page.Of(g);
    var ok := page.PItem(indx, item);
    pp := page.Img();
  }

  /** The root page made anew over the halves. */
  method RootPage(rec: Record, lp: Image, rp: Image) returns (pp: Image)
    requires SplitImage(rec) && RootSplit(rec) && rec.pindx == 0 && RootFits(rec)
    requires lp == LeftPage(rec) && rp == RightPage(rec)
    ensures pp == NewRoot(rec)
  {
    hide Copied, DupSets, Size, LeftPage, RightPage, RecordTotal;
    SplitPages(rec);
    var page := new Page.Init(rec.pg.size, 0, rec.pg.pgno, 0, 0, lp.level + 1, if rec.recno then IRecno else IBtree);
    if rec.nrecs {
      var l := TotalRecords(lp);
      var r := TotalRecords(rp);
      page.prev := l + r;
    }
    pp := WithEntry(page.Img(), rec.pindx, rec.pentry);
    pp := WithEntry(pp, rec.pindx + 1, rec.rentry);
  }

  /** `__bam_total`. */
  method TotalRecords(h: Image) returns (nrecs: int)
    requires h.Valid()
    ensures nrecs == RecordTotal(h.kind, Slots(h))
  {
    hide Find, Depth, Total;
    nrecs := 0;
    ghost var s := Slots(h);
    for i := 0 to |h.inp|
      invariant nrecs == RecordTotal(h.kind, s[..i])
    {
      assert s[..i + 1][..i] == s[..i];
      match h.Slot(i) {
        case KeyData(deleted, _) =>
          if h.kind == LRecno || (!deleted && (h.kind == LBtree ==> i % 2 == 1)) { nrecs := nrecs + 1; }
        case OffPage(deleted, _, _, _) =>
          if h.kind == LRecno || (!deleted && (h.kind == LBtree ==> i % 2 == 1)) { nrecs := nrecs + 1; }
        case Child(_, n, _) => nrecs := nrecs + n;
        case BigChild(_, n, _, _) => nrecs := nrecs + n;
        case RecnoChild(_, n) => nrecs := nrecs + n;
      }
    }
    assert s[..|h.inp|] == s;
  }

  /** A disk on which some of the pages of a record have been recovered. */
  ghost function RecoveredOn(op: RecoveryOp, rec: Record, lsn: nat, d: Disk, done: set<nat>): Disk
    requires AllReady(op, rec, lsn, d)
  {
    map p | p in d :: if p in done && p in Touches(rec) then RecoverPage(op, rec, lsn, p, d[p]) else d[p]
  }

  lemma NoneRecovered(op: RecoveryOp, rec: Record, lsn: nat, d: Disk)
    requires AllReady(op, rec, lsn, d)
    ensures RecoveredOn(op, rec, lsn, d, {}) == d
  {
  }

  lemma AllRecovered(op: RecoveryOp, rec: Record, lsn: nat, d: Disk, done: set<nat>)
    requires AllReady(op, rec, lsn, d) && Touches(rec) <= done
    ensures RecoveredOn(op, rec, lsn, d, done) == Recovered(op, rec, lsn, d)
  {
    hide RecoverPage, Ready, Touches;
  }

  lemma OneMore(op: RecoveryOp, rec: Record, lsn: nat, d: Disk, done: set<nat>, p: nat)
    requires AllReady(op, rec, lsn, d) && p in Touches(rec) && p !in done
    ensures RecoveredOn(op, rec, lsn, d, done).Keys == d.Keys
    ensures p !in d ==> RecoveredOn(op, rec, lsn, d, done + {p}) == RecoveredOn(op, rec, lsn, d, done)
    ensures p in d ==>
              && Ready(op, rec, lsn, p, d[p]) && RecoveredOn(op, rec, lsn, d, done)[p] == d[p]
              && RecoveredOn(op, rec, lsn, d, done + {p})
              == RecoveredOn(op, rec, lsn, d, done)[p := RecoverPage(op, rec, lsn, p, d[p])]
  {
    hide RecoverPage, Ready, Touches;
    var r, s := RecoveredOn(op, rec, lsn, d, done), RecoveredOn(op, rec, lsn, d, done + {p});
    if p in d {
      assert s == r[p := RecoverPage(op, rec, lsn, p, d[p])];
    } else {
      assert s == r;
    }
  }

  lemma PassesAt(op: RecoveryOp, rec: Record, lsn: nat, d: Disk)
    ensures Passes(op, rec, lsn, d) <==>
              forall p <- Touches(rec) :: p in d ==> !Behind(op, rec, p, d[p]) && !Misplaced(op, rec, lsn, p, d[p])
  {
  }

  // ---- What the passes achieve ----

  lemma StepWritten(base: nat, vs: seq<Disk>, log: seq<Record>, k: nat)
    requires Execution(base, vs, log) && k < |log|
    ensures Sane(log[k])
  {
    hide Written, Sane;
    WrittenSane(vs[k], base, log[k]);
  }

  lemma RedoneAll(vs: seq<Disk>, at: map<nat, nat>, d: Disk)
    requires |vs| > 0 && RedoneTo(vs, at, |vs| - 1, d) && vs[|vs| - 1].Keys == vs[0].Keys
    ensures d == vs[|vs| - 1]
  {
    var last := vs[|vs| - 1];
    assert forall p <- d :: RedonePage(vs, |vs| - 1, at[p], p, d[p]);
    assert forall p <- d :: d[p] == last[p];
  }

  /** Every page may have reached the disk after any number of its updates: an undo pass can
    * start from any such state as well as a redo pass. */
  lemma AnyCrashState(vs: seq<Disk>, log: seq<Record>, at: map<nat, nat>, d: Disk)
    requires |vs| == |log| + 1
    ensures RedoneTo(vs, at, 0, d) <==> UndoneTo(vs, log, at, |log|, d)
    ensures RedoneTo(vs, at, 0, d) <==>
              && at.Keys == vs[0].Keys && d.Keys == vs[0].Keys
              && forall p <- d :: at[p] < |vs| && p in vs[at[p]] && d[p] == vs[at[p]][p]
  {
    forall p <- d | p in at && at[p] < |vs|
      ensures RedonePage(vs, 0, at[p], p, d[p]) <==> p in vs[at[p]] && d[p] == vs[at[p]][p]
      ensures UndonePage(vs, log, |log|, at[p], p, d[p]) <==> p in vs[at[p]] && d[p] == vs[at[p]][p]
    {
    }
  }

  /** After a complete undo every page that existed before the log is what it was, and a page
    * that was taken from the free list at least has its LSN back. */
  lemma UndoRestores(vs: seq<Disk>, log: seq<Record>, at: map<nat, nat>, d: Disk, p: nat)
    requires |vs| == |log| + 1 && UndoneTo(vs, log, at, 0, d) && p in d
    ensures p in vs[0] && d[p].lsn == vs[0][p].lsn
    ensures (forall i :: 0 <= i < |log| ==> !IsNew(log[i], p)) ==> d[p] == vs[0][p]
  {
    assert UndonePage(vs, log, 0, at[p], p, d[p]);
  }

  /** The source inserts the parent's new entry before it logs the count of the old one, but
    * logs the split last; replaying the log in its own order gives the same page. */
  lemma CountCommutes(g: Image, indx: nat, adjust: int, entry: Item)
    requires g.Valid() && indx < |g.inp|
    ensures var put := Put(g, indx + 1, entry);
            && put.Ref(indx) == g.Ref(indx)
            && CountAdjusted(put, indx, adjust, false) == Put(CountAdjusted(g, indx, adjust, false), indx + 1, entry)
  {
    hide Size, Find, Depth, Total;
    var put := Put(g, indx + 1, entry);
    RefsOf(g);
    PutRefs(g, indx + 1, entry, Refs(g));
    FindDepth(put.heap, g.Ref(indx));
    var j := g.Ref(indx);
    assert put.heap[j := AdjustItem(g.heap[j], adjust)] == g.heap[j := AdjustItem(g.heap[j], adjust)] + [entry];
  }
}
