/** The backtracking matcher of usual/regex.c.

 `ExecCtx` holds what the matchers change while they recurse.  Every matcher is proved
 to record exactly the end positions of the pruned search (module RegexLanguage), and to
 terminate; `RegExec` is then proved leftmost, and longest in strict mode.
 */
module RegexMatcher {
  import opened Prelude
  import opened RegexLanguage

  /** `struct GMatch`: one open group iteration.  The end pointer and the history used to
      report groups other than 0 are not modelled. */
  datatype Frame = NoFrame | Frame(owner: Op, start: nat, count: nat, parent: Frame)

  // ----- sizes, frames and the termination measure

  ghost function Size(op: Op): nat {
    match op
    case Group(alts, _, _, next) => 1 + SizeAlts(alts) + Size(next)
    case Simple(_, _, _, next) => 1 + Size(next)
    case Assert(_, next) => 1 + Size(next)
    case _ => 1
  }

  ghost function SizeAlts(alts: AndList): nat {
    match alts
    case NoAlt => 1
    case Alt(ops, rest) => 1 + Size(ops) + SizeAlts(rest)
  }

  /** The open frames fit the pattern: each holds an unfinished iteration of its owner, which
      lies inside the owner of the parent frame; only the outermost one ends in Full. */
  ghost predicate FrameOk(gm: Frame, pos: nat) {
    && gm.Frame? && gm.owner.Group? && gm.start <= pos
    && gm.owner.min <= gm.owner.max && gm.count < gm.owner.max
    && WellFormedAlts(gm.owner.alts, gm.parent.NoFrame?)
    && (gm.parent.Frame? ==>
          && WellFormed(gm.owner.next, gm.parent.parent.NoFrame?)
          && Size(gm.owner) < Size(gm.parent.owner)
          && FrameOk(gm.parent, pos))
  }

  lemma {:induction false} FrameOkLater(gm: Frame, pos: nat, later: nat)
    requires FrameOk(gm, pos) && pos <= later
    ensures FrameOk(gm, later)
    decreases gm
  {
    if gm.parent.Frame? {
      FrameOkLater(gm.parent, pos, later);
    }
  }

  /** Number of open frames that have consumed text. */
  ghost function Started(gm: Frame, pos: nat): nat {
    if gm.NoFrame? then 0 else (if gm.start < pos then 1 else 0) + Started(gm.parent, pos)
  }

  /** Ops still to be visited once the open groups are left without repeating. */
  ghost function Pending(gm: Frame): nat {
    if gm.NoFrame? || !gm.owner.Group? then 0 else 1 + Size(gm.owner.next) + Pending(gm.parent)
  }

  /** Start of the outermost frame, the start of the whole match. */
  ghost function Origin(gm: Frame): nat {
    match gm
    case NoFrame => 0
    case Frame(_, start, _, parent) => if parent.NoFrame? then start else Origin(parent)
  }

  // ----- end positions the search can reach

  ghost predicate GroupFrames(gm: Frame) {
    gm.Frame? ==> gm.owner.Group? && GroupFrames(gm.parent)
  }

  /** The search can report a full match ending at e after the current iteration of the
      innermost group ended at j. */
  ghost predicate Exits(v: Env, gm: Frame, j: nat, e: nat)
    requires gm.Frame? && GroupFrames(gm)
    decreases gm, 0
  {
    if gm.parent.NoFrame? then j == e
    else
      var g := gm.owner;
      exists m: nat :: PrunedEnd(v, g.alts, g.min, g.max, gm.count, gm.start, j, m)
        && Reaches(v, g.next, m, gm.parent, e)
  }

  /** The search can report a full match ending at e by running the op list from i. */
  ghost predicate Reaches(v: Env, op: Op, i: nat, gm: Frame, e: nat)
    requires gm.Frame? && GroupFrames(gm)
    decreases gm, 1
  {
    exists j: nat :: Pruned(v, op, i, j) && Exits(v, gm, j, e)
  }

  ghost predicate ReachesAlts(v: Env, alts: AndList, i: nat, gm: Frame, e: nat)
    requires gm.Frame? && GroupFrames(gm)
  {
    exists j: nat :: PrunedAlts(v, alts, i, j) && Exits(v, gm, j, e)
  }

  /** The same for iteration c of the group g started at i. */
  ghost predicate ReachesGroup(v: Env, g: Op, c: nat, i: nat, parent: Frame, e: nat)
    requires g.Group? && parent.Frame? && GroupFrames(parent)
  {
    exists m: nat :: PrunedGroup(v, g.alts, g.min, g.max, c, i, m) && Reaches(v, g.next, m, parent, e)
  }

  ghost function Ends(v: Env, op: Op, i: nat, gm: Frame): set<nat>
    requires gm.Frame? && GroupFrames(gm)
  {
    set e: nat | 0 <= e <= |v.str| && Reaches(v, op, i, gm, e)
  }

  ghost function EndsAlts(v: Env, alts: AndList, i: nat, gm: Frame): set<nat>
    requires gm.Frame? && GroupFrames(gm)
  {
    set e: nat | 0 <= e <= |v.str| && ReachesAlts(v, alts, i, gm, e)
  }

  ghost function EndsGroup(v: Env, g: Op, c: nat, i: nat, parent: Frame): set<nat>
    requires g.Group? && parent.Frame? && GroupFrames(parent)
  {
    set e: nat | 0 <= e <= |v.str| && ReachesGroup(v, g, c, i, parent, e)
  }

  ghost function EndsExit(v: Env, gm: Frame, j: nat): set<nat>
    requires gm.Frame? && GroupFrames(gm)
  {
    set e: nat | 0 <= e <= |v.str| && Exits(v, gm, j, e)
  }

  // ----- how the reachable ends of an op follow from those of its parts

  lemma {:induction false} PrunedGroupForward(v: Env, g: Op, c: nat, i: nat, m: nat)
    requires g.Group? && PrunedGroup(v, g.alts, g.min, g.max, c, i, m)
    ensures i <= m <= |v.str|
    decreases |v.str| - i
  {
    if !(c == 0 && g.min == 0 && i == m) {
      var p: nat :| PrunedAlts(v, g.alts, i, p) && PrunedEnd(v, g.alts, g.min, g.max, c, i, p, m);
      if p != i && m != p {
        PrunedGroupForward(v, g, c + 1, p, m);
      }
    }
  }

  lemma SimpleReaches(v: Env, op: Op, i: nat, gm: Frame, e: nat)
    requires op.Simple? && gm.Frame? && GroupFrames(gm) && i <= |v.str|
    ensures Reaches(v, op, i, gm, e) <==>
      exists k: nat :: op.min <= k <= SimpleMax(op.max) && AcceptsRun(v, op.atom, i, k)
        && Reaches(v, op.next, i + k, gm, e)
  {}

  lemma AssertReaches(v: Env, op: Op, i: nat, gm: Frame, e: nat)
    requires op.Assert? && gm.Frame? && GroupFrames(gm) && i <= |v.str|
    ensures Reaches(v, op, i, gm, e) <==> Holds(v, op.kind, i) && Reaches(v, op.next, i, gm, e)
  {}

  lemma EndReaches(v: Env, op: Op, i: nat, gm: Frame, e: nat)
    requires (op.Gend? || op.Full?) && gm.Frame? && GroupFrames(gm) && i <= |v.str|
    ensures Reaches(v, op, i, gm, e) <==> Exits(v, gm, i, e)
  {}

  lemma GroupOpReaches(v: Env, op: Op, i: nat, gm: Frame, e: nat)
    requires op.Group? && gm.Frame? && GroupFrames(gm) && i <= |v.str|
    ensures Reaches(v, op, i, gm, e) <==> ReachesGroup(v, op, 0, i, gm, e)
  {
    if Reaches(v, op, i, gm, e) {
      var j: nat :| Pruned(v, op, i, j) && Exits(v, gm, j, e);
      var m := GroupThenRest(v, op, i, j);
      assert Reaches(v, op.next, m, gm, e);
    }
    if ReachesGroup(v, op, 0, i, gm, e) {
      var m: nat :| PrunedGroup(v, op.alts, op.min, op.max, 0, i, m) && Reaches(v, op.next, m, gm, e);
      var j: nat :| Pruned(v, op.next, m, j) && Exits(v, gm, j, e);
      PrunedGroupForward(v, op, 0, i, m);
      assert Pruned(v, op, i, j);
    }
  }

  lemma AltReaches(v: Env, alts: AndList, i: nat, gm: Frame, e: nat)
    requires gm.Frame? && GroupFrames(gm)
    ensures ReachesAlts(v, alts, i, gm, e) <==>
      alts.Alt? && (Reaches(v, alts.ops, i, gm, e) || ReachesAlts(v, alts.rest, i, gm, e))
  {
    if ReachesAlts(v, alts, i, gm, e) {
      var j: nat :| PrunedAlts(v, alts, i, j) && Exits(v, gm, j, e);
      OneReaches(v, alts, i, j, gm, e);
    }
    if alts.Alt? && Reaches(v, alts.ops, i, gm, e) {
      var j: nat :| Pruned(v, alts.ops, i, j) && Exits(v, gm, j, e);
      OneReaches(v, alts, i, j, gm, e);
    }
    if alts.Alt? && ReachesAlts(v, alts.rest, i, gm, e) {
      var j: nat :| PrunedAlts(v, alts.rest, i, j) && Exits(v, gm, j, e);
      OneReaches(v, alts, i, j, gm, e);
    }
  }

  /** One end of the alternatives, passed on. */
  lemma OneReaches(v: Env, alts: AndList, i: nat, j: nat, gm: Frame, e: nat)
    requires gm.Frame? && GroupFrames(gm) && Exits(v, gm, j, e)
    ensures PrunedAlts(v, alts, i, j) ==> ReachesAlts(v, alts, i, gm, e)
    ensures alts.Alt? && Pruned(v, alts.ops, i, j) ==> PrunedAlts(v, alts, i, j) && Reaches(v, alts.ops, i, gm, e)
    ensures alts.Alt? && PrunedAlts(v, alts.rest, i, j)
      ==> PrunedAlts(v, alts, i, j) && ReachesAlts(v, alts.rest, i, gm, e)
    ensures PrunedAlts(v, alts, i, j) ==> alts.Alt? && (Pruned(v, alts.ops, i, j) || PrunedAlts(v, alts.rest, i, j))
  {}

  lemma GroupReaches(v: Env, g: Op, c: nat, i: nat, parent: Frame, e: nat)
    requires g.Group? && parent.Frame? && GroupFrames(parent) && i <= |v.str|
    ensures ReachesGroup(v, g, c, i, parent, e) <==>
      || (g.max > 0 && ReachesAlts(v, g.alts, i, Frame(g, i, c, parent), e))
      || (c == 0 && g.min == 0 && Reaches(v, g.next, i, parent, e))
  {
    var gm := Frame(g, i, c, parent);
    if ReachesGroup(v, g, c, i, parent, e) {
      var m: nat :| PrunedGroup(v, g.alts, g.min, g.max, c, i, m) && Reaches(v, g.next, m, parent, e);
      if !(c == 0 && g.min == 0 && i == m) {
        var p := FirstIteration(v, g, c, i, m);
        assert Exits(v, gm, p, e);
      }
    }
    if g.max > 0 && ReachesAlts(v, g.alts, i, gm, e) {
      var p: nat :| PrunedAlts(v, g.alts, i, p) && Exits(v, gm, p, e);
      var m: nat :| PrunedEnd(v, g.alts, g.min, g.max, c, i, p, m) && Reaches(v, g.next, m, parent, e);
      assert PrunedGroup(v, g.alts, g.min, g.max, c, i, m);
    }
    if c == 0 && g.min == 0 && Reaches(v, g.next, i, parent, e) {
      assert PrunedGroup(v, g.alts, g.min, g.max, c, i, i);
    }
  }

  lemma ExitReaches(v: Env, gm: Frame, j: nat, e: nat)
    requires gm.Frame? && GroupFrames(gm) && gm.parent.Frame? && gm.start <= j <= |v.str|
    ensures Exits(v, gm, j, e) <==>
      var g := gm.owner;
      if j == gm.start then
        !(gm.count > 0 && gm.count >= g.min) && Reaches(v, g.next, j, gm.parent, e)
      else
        || (gm.count + 1 < g.max && ReachesGroup(v, g, gm.count + 1, j, gm.parent, e))
        || (gm.count + 1 >= g.min && Reaches(v, g.next, j, gm.parent, e))
  {}

  // ----- what one search leaves behind

  /** A search that covers the ends S turned the recorded end `before` into `after`:
      it succeeds iff S is not empty, records a member of S or keeps what it had, and in
      strict mode never keeps less than the largest member of S. */
  ghost predicate Recorded(strict: bool, before: int, ok: bool, after: int, S: set<nat>) {
    && (ok <==> S != {})
    && (!ok ==> after == before)
    && before <= after
    && (ok ==> after >= 0 && (after == before || after in S))
    && (ok && strict ==> forall e :: e in S ==> e <= after)
  }

  /** One search after another; outside strict mode the second runs only if the first failed. */
  lemma RecordedBoth(strict: bool, before: int, ok: bool, mid: int, S: set<nat>, got: bool, after: int, T: set<nat>)
    requires strict || !ok
    requires Recorded(strict, before, ok, mid, S) && Recorded(strict, mid, got, after, T)
    ensures Recorded(strict, before, ok || got, after, S + T)
  {}

  /** Outside strict mode a success may skip the rest of the search. */
  lemma RecordedEnough(before: int, after: int, S: set<nat>, T: set<nat>)
    requires Recorded(false, before, true, after, S) && S <= T
    ensures Recorded(false, before, true, after, T)
  {}

  /** e is a reachable end after the simple op took k characters, for some lo < k <= hi. */
  ghost predicate ScanReaches(v: Env, op: Op, pos: nat, gm: Frame, lo: int, hi: nat, e: nat)
    requires op.Simple? && gm.Frame? && GroupFrames(gm)
  {
    exists q: nat :: pos + lo < q <= pos + hi && Reaches(v, op.next, q, gm, e)
  }

  ghost function ScanEnds(v: Env, op: Op, pos: nat, gm: Frame, lo: int, hi: nat): set<nat>
    requires op.Simple? && gm.Frame? && GroupFrames(gm)
  {
    set e: nat | 0 <= e <= |v.str| && ScanReaches(v, op, pos, gm, lo, hi, e)
  }

  lemma ScanReachesStep(v: Env, op: Op, pos: nat, gm: Frame, cnt: nat, hi: nat, e: nat)
    requires op.Simple? && gm.Frame? && GroupFrames(gm) && cnt <= hi
    ensures ScanReaches(v, op, pos, gm, cnt - 1, hi, e) <==>
            ScanReaches(v, op, pos, gm, cnt, hi, e) || Reaches(v, op.next, pos + cnt, gm, e)
  {}

  lemma ScanStep(v: Env, op: Op, pos: nat, gm: Frame, cnt: nat, hi: nat)
    requires op.Simple? && gm.Frame? && GroupFrames(gm) && cnt <= hi
    ensures ScanEnds(v, op, pos, gm, cnt - 1, hi) == ScanEnds(v, op, pos, gm, cnt, hi) + Ends(v, op.next, pos + cnt, gm)
  {
    forall e: nat {
      ScanReachesStep(v, op, pos, gm, cnt, hi, e);
    }
  }

  lemma ScanNone(v: Env, op: Op, pos: nat, gm: Frame, lo: int, hi: nat)
    requires op.Simple? && gm.Frame? && GroupFrames(gm) && lo >= hi
    ensures ScanEnds(v, op, pos, gm, lo, hi) == {}
  {}

  lemma ScanLess(v: Env, op: Op, pos: nat, gm: Frame, lower: int, lo: int, hi: nat)
    requires op.Simple? && gm.Frame? && GroupFrames(gm) && lower <= lo
    ensures ScanEnds(v, op, pos, gm, lo, hi) <= ScanEnds(v, op, pos, gm, lower, hi)
  {}

  /** Backing off from the longest run down to the minimum count covers all the choices. */
  lemma ScanAll(v: Env, op: Op, pos: nat, gm: Frame, longest: nat)
    requires op.Simple? && gm.Frame? && GroupFrames(gm) && pos <= |v.str|
    requires AcceptsRun(v, op.atom, pos, longest) && longest <= SimpleMax(op.max)
    requires forall k: nat | op.min <= k <= SimpleMax(op.max) && AcceptsRun(v, op.atom, pos, k) :: k <= longest
    ensures ScanEnds(v, op, pos, gm, op.min - 1, longest) == Ends(v, op, pos, gm)
  {
    forall e: nat ensures Reaches(v, op, pos, gm, e) <==> ScanReaches(v, op, pos, gm, op.min - 1, longest, e) {
      SimpleReaches(v, op, pos, gm, e);
      if ScanReaches(v, op, pos, gm, op.min - 1, longest, e) {
        var q: nat :| pos + op.min - 1 < q <= pos + longest && Reaches(v, op.next, q, gm, e);
        assert AcceptsRun(v, op.atom, pos, q - pos) && Reaches(v, op.next, pos + (q - pos), gm, e);
      }
    }
  }

  /** A character of the text, the terminating NUL included: match_class tests for no end of its own. */
  function CharAt(v: Env, i: nat): Byte { if i < |v.str| then v.str[i] else 0 }

  class ExecCtx {
    const v: Env
    const strict: bool
    const nmatch: nat
    /** End of the best full match so far, -1 for NULL. */
    var lastEndpos: int
    /** pmatch[0]; meaningful only if nmatch > 0. */
    var rmSo: int
    var rmEo: int

    constructor (v: Env, strict: bool, nmatch: nat)
      ensures this.v == v && this.strict == strict && this.nmatch == nmatch
      ensures lastEndpos == -1 && rmSo == -1 && rmEo == -1
    {
      this.v, this.strict, this.nmatch := v, strict, nmatch;
      lastEndpos, rmSo, rmEo := -1, -1, -1;
    }

    /** The published match 0 is the recorded one. */
    ghost predicate Consistent(origin: nat)
      reads this
    {
      && lastEndpos >= -1
      && if lastEndpos >= 0 && nmatch > 0 then rmSo == origin && rmEo == lastEndpos else rmSo == rmEo == -1
    }

    /** do_match: dispatch on the op type. */
    method DoMatch(op: Op, pos: nat, gm: Frame) returns (ok: bool)
      requires pos <= |v.str| && FrameOk(gm, pos) && GroupFrames(gm)
      requires WellFormed(op, gm.parent.NoFrame?) && Size(op) < Size(gm.owner)
      requires Consistent(Origin(gm)) && (strict || lastEndpos == -1)
      modifies this
      ensures Recorded(strict, old(lastEndpos), ok, lastEndpos, Ends(v, op, pos, gm))
      ensures Consistent(Origin(gm))
      decreases |v.str| - pos, Started(gm, pos), Size(op) + Pending(gm), 2
    {
      match op
      case Simple(_, _, _, _) =>
        ok := MatchSimple(op, pos, gm);
      case Group(_, _, _, _) =>
        forall e: nat { GroupOpReaches(v, op, pos, gm, e); }
        assert Ends(v, op, pos, gm) == EndsGroup(v, op, 0, pos, gm);
        ok := MatchGroup(op, pos, gm);
      case Assert(kind, next) =>
        forall e: nat { AssertReaches(v, op, pos, gm, e); }
        assert Holds(v, kind, pos) ==> Ends(v, op, pos, gm) == Ends(v, next, pos, gm);
        assert !Holds(v, kind, pos) ==> Ends(v, op, pos, gm) == {};
        if Holds(v, kind, pos) {
          ok := DoMatch(next, pos, gm);
        } else {
          ok := false;
        }
      case Gend =>
        forall e: nat { EndReaches(v, op, pos, gm, e); }
        assert Ends(v, op, pos, gm) == EndsExit(v, gm, pos);
        ok := MatchGend(pos, gm);
      case Full =>
        forall e: nat { EndReaches(v, op, pos, gm, e); }
        assert Ends(v, op, pos, gm) == {pos};
        ok := GotFullMatch(pos, gm);
    }

    /** match_char, match_any, match_class: take as many characters as possible, then back off. */
    method MatchSimple(op: Op, pos: nat, gm: Frame) returns (ok: bool)
      requires op.Simple?
      requires pos <= |v.str| && FrameOk(gm, pos) && GroupFrames(gm)
      requires WellFormed(op, gm.parent.NoFrame?) && Size(op) < Size(gm.owner)
      requires Consistent(Origin(gm)) && (strict || lastEndpos == -1)
      modifies this
      ensures Recorded(strict, old(lastEndpos), ok, lastEndpos, Ends(v, op, pos, gm))
      ensures Consistent(Origin(gm))
      decreases |v.str| - pos, Started(gm, pos), Size(op) + Pending(gm), 0, 2
    {
      var i := 0;
      while i < SimpleMax(op.max)
            && (if op.atom.Class? then CharAt(v, pos + i) in op.atom.members
                else pos + i < |v.str| && Accepts(v, op.atom, v.str[pos + i]))
        invariant 0 <= i <= SimpleMax(op.max) && AcceptsRun(v, op.atom, pos, i)
        decreases SimpleMax(op.max) - i
      {
        i := i + 1;
      }
      assert forall k: nat | op.min <= k <= SimpleMax(op.max) && AcceptsRun(v, op.atom, pos, k) :: k <= i;
      ok := ScanNext(op, pos, gm, i);
    }

    /** scan_next: try the rest of the list after curcnt characters, then after fewer. */
    method ScanNext(op: Op, pos: nat, gm: Frame, curcnt: nat) returns (ok: bool)
      requires op.Simple? && AcceptsRun(v, op.atom, pos, curcnt) && curcnt <= SimpleMax(op.max)
      requires forall k: nat | op.min <= k <= SimpleMax(op.max) && AcceptsRun(v, op.atom, pos, k) :: k <= curcnt
      requires pos <= |v.str| && FrameOk(gm, pos) && GroupFrames(gm)
      requires WellFormed(op, gm.parent.NoFrame?) && Size(op) < Size(gm.owner)
      requires Consistent(Origin(gm)) && (strict || lastEndpos == -1)
      modifies this
      ensures Recorded(strict, old(lastEndpos), ok, lastEndpos, Ends(v, op, pos, gm))
      ensures Consistent(Origin(gm))
      decreases |v.str| - pos, Started(gm, pos), Size(op) + Pending(gm), 0, 1
    {
      ScanAll(v, op, pos, gm, curcnt);
      ScanNone(v, op, pos, gm, curcnt, curcnt);
      if curcnt == op.min {
        ScanStep(v, op, pos, gm, curcnt, curcnt);
        FrameOkLater(gm, pos, pos + curcnt);
        ok := DoMatch(op.next, pos + curcnt, gm);
        return;
      }
      ok := BackOff(op, pos, gm, curcnt);
    }

    /** The loop of scan_next. */
    method BackOff(op: Op, pos: nat, gm: Frame, curcnt: nat) returns (ok: bool)
      requires op.Simple? && pos + curcnt <= |v.str| && pos <= |v.str| && FrameOk(gm, pos) && GroupFrames(gm)
      requires WellFormed(op, gm.parent.NoFrame?) && Size(op) < Size(gm.owner)
      requires Consistent(Origin(gm)) && (strict || lastEndpos == -1)
      requires ScanEnds(v, op, pos, gm, curcnt, curcnt) == {}
      modifies this
      ensures Recorded(strict, old(lastEndpos), ok, lastEndpos, ScanEnds(v, op, pos, gm, op.min - 1, curcnt))
      ensures Consistent(Origin(gm))
      decreases |v.str| - pos, Started(gm, pos), Size(op) + Pending(gm), 0, 0
    {
      ghost var last, S := lastEndpos, ScanEnds(v, op, pos, gm, curcnt, curcnt);
      ok := false;
      var cnt: int := curcnt;
      while cnt >= op.min
        invariant op.min - 1 <= cnt <= curcnt || (cnt == curcnt < op.min)
        invariant strict || !ok
        invariant Consistent(Origin(gm)) && (strict || lastEndpos == -1)
        invariant S == ScanEnds(v, op, pos, gm, cnt, curcnt)
        invariant Recorded(strict, last, ok, lastEndpos, S)
      {
        FrameOkLater(gm, pos, pos + cnt);
        ghost var mid := lastEndpos;
        var got := DoMatch(op.next, pos + cnt, gm);
        RecordedBoth(strict, last, ok, mid, S, got, lastEndpos, Ends(v, op.next, pos + cnt, gm));
        ScanStep(v, op, pos, gm, cnt, curcnt);
        S := S + Ends(v, op.next, pos + cnt, gm);
        ok := ok || got;
        if got && !strict {
          ScanLess(v, op, pos, gm, op.min - 1, cnt - 1, curcnt);
          RecordedEnough(last, lastEndpos, S, ScanEnds(v, op, pos, gm, op.min - 1, curcnt));
          return;
        }
        cnt := cnt - 1;
      }
      if cnt < op.min - 1 {
        ScanNone(v, op, pos, gm, op.min - 1, curcnt);
      }
    }

    /** match_group: open an iteration, try every alternative, then the case of no iteration. */
    method MatchGroup(op: Op, pos: nat, gm: Frame) returns (ok: bool)
      requires op.Group? && pos <= |v.str| && FrameOk(gm, pos) && GroupFrames(gm)
      requires if gm.owner == op
               then gm.start < pos && gm.count + 1 < op.max && gm.parent.Frame?
               else WellFormed(op, gm.parent.NoFrame?) && Size(op) < Size(gm.owner)
      requires Consistent(Origin(gm)) && (strict || lastEndpos == -1)
      modifies this
      ensures Recorded(strict, old(lastEndpos), ok, lastEndpos,
                if gm.owner == op then EndsGroup(v, op, gm.count + 1, pos, gm.parent) else EndsGroup(v, op, 0, pos, gm))
      ensures Consistent(Origin(gm))
      decreases |v.str| - pos, Started(if gm.owner == op then gm.parent else gm, pos),
                Size(op) + Pending(if gm.owner == op then gm.parent else gm), 1
    {
      var gthis := if gm.owner == op then Frame(op, pos, gm.count + 1, gm.parent) else Frame(op, pos, 0, gm);
      ghost var parent := gthis.parent;
      forall e: nat { GroupReaches(v, op, gthis.count, pos, parent, e); }
      ghost var A := if op.max > 0 then EndsAlts(v, op.alts, pos, gthis) else {};
      ghost var N := if gthis.count == 0 && op.min == 0 then Ends(v, op.next, pos, parent) else {};
      assert EndsGroup(v, op, gthis.count, pos, parent) == A + N;
      ok := false;
      if op.max > 0 {
        ok := TryAlts(op.alts, pos, gthis);
      }
      ghost var mid := lastEndpos;
      if op.min == 0 && gthis.count == 0 && (!ok || strict) {
        var got := DoMatch(op.next, pos, gthis.parent);
        RecordedBoth(strict, old(lastEndpos), ok, mid, A, got, lastEndpos, N);
        ok := ok || got;
      }
    }

    /** The loop over the alternatives of a group. */
    method TryAlts(alts: AndList, pos: nat, gm: Frame) returns (ok: bool)
      requires pos <= |v.str| && FrameOk(gm, pos) && GroupFrames(gm)
      requires WellFormedAlts(alts, gm.parent.NoFrame?) && SizeAlts(alts) < Size(gm.owner)
      requires Consistent(Origin(gm)) && (strict || lastEndpos == -1)
      modifies this
      ensures Recorded(strict, old(lastEndpos), ok, lastEndpos, EndsAlts(v, alts, pos, gm))
      ensures Consistent(Origin(gm))
      decreases |v.str| - pos, Started(gm, pos), SizeAlts(alts) + Pending(gm), 0
    {
      var alist := alts;
      ok := false;
      ghost var S: set<nat> := {};
      while alist.Alt?
        invariant WellFormedAlts(alist, gm.parent.NoFrame?) && SizeAlts(alist) <= SizeAlts(alts)
        invariant strict || !ok
        invariant Consistent(Origin(gm)) && (strict || lastEndpos == -1)
        invariant Recorded(strict, old(lastEndpos), ok, lastEndpos, S)
        invariant EndsAlts(v, alts, pos, gm) == S + EndsAlts(v, alist, pos, gm)
        decreases alist
      {
        forall e: nat { AltReaches(v, alist, pos, gm, e); }
        assert EndsAlts(v, alist, pos, gm) == Ends(v, alist.ops, pos, gm) + EndsAlts(v, alist.rest, pos, gm);
        ghost var mid := lastEndpos;
        var got := DoMatch(alist.ops, pos, gm);
        RecordedBoth(strict, old(lastEndpos), ok, mid, S, got, lastEndpos, Ends(v, alist.ops, pos, gm));
        S := S + Ends(v, alist.ops, pos, gm);
        ok := ok || got;
        if got && !strict {
          return;
        }
        alist := alist.rest;
      }
      forall e: nat { AltReaches(v, alist, pos, gm, e); }
      assert EndsAlts(v, alist, pos, gm) == {};
    }

    /** match_gend: an iteration is complete; repeat, or go on after the group. */
    method MatchGend(pos: nat, gm: Frame) returns (ok: bool)
      requires pos <= |v.str| && FrameOk(gm, pos) && GroupFrames(gm) && gm.parent.Frame?
      requires Consistent(Origin(gm)) && (strict || lastEndpos == -1)
      modifies this
      ensures Recorded(strict, old(lastEndpos), ok, lastEndpos, EndsExit(v, gm, pos))
      ensures Consistent(Origin(gm))
      decreases |v.str| - pos, Started(gm, pos), Pending(gm), 0
    {
      var op := gm.owner;
      var zeromatch := pos == gm.start;
      forall e: nat { ExitReaches(v, gm, pos, e); }
      ghost var R := if gm.count + 1 < op.max && !zeromatch then EndsGroup(v, op, gm.count + 1, pos, gm.parent) else {};
      ghost var N := Ends(v, op.next, pos, gm.parent);

      if zeromatch && gm.count > 0 && gm.count >= op.min {
        assert EndsExit(v, gm, pos) == {};
        return false;
      }
      ok := false;
      if gm.count + 1 < op.max && !zeromatch {
        ok := MatchGroup(op, pos, gm);
        if ok && !strict {
          assert R <= EndsExit(v, gm, pos);
          return;
        }
      }
      if !zeromatch && gm.count + 1 < op.min {
        assert EndsExit(v, gm, pos) == R;
        return;
      }
      assert EndsExit(v, gm, pos) == R + N;
      ghost var mid := lastEndpos;
      var got := DoMatch(op.next, pos, gm.parent);
      RecordedBoth(strict, old(lastEndpos), ok, mid, R, got, lastEndpos, N);
      ok := ok || got;
    }

    /** got_full_match: keep the longest end seen from this start.  A tie can only republish
        the same match 0; which sub-groups win is left open. */
    method GotFullMatch(pos: nat, gm: Frame) returns (ok: bool)
      requires gm.Frame? && gm.parent.NoFrame?
      requires Consistent(Origin(gm)) && (strict || lastEndpos == -1)
      modifies this
      ensures Recorded(strict, old(lastEndpos), ok, lastEndpos, {pos})
      ensures Consistent(Origin(gm))
      decreases 0
    {
      if lastEndpos != -1 && pos < lastEndpos {
        return true;
      }
      var tieWon: bool := *;
      if pos > lastEndpos || (strict && nmatch > 1 && tieWon) {
        lastEndpos := pos;
        if nmatch > 0 {
          rmSo, rmEo := gm.start, pos;
        }
      }
      return true;
    }

    /** match_group on the top group, which has no enclosing frame and is matched exactly once. */
    method MatchTop(root: Op, pos: nat) returns (ok: bool)
      requires root.Group? && root.min == root.max == 1 && WellFormedAlts(root.alts, true)
      requires pos <= |v.str| && lastEndpos == rmSo == rmEo == -1
      modifies this
      ensures ok <==> exists e: nat :: Explores(v, root.alts, pos, e)
      ensures !ok ==> lastEndpos == -1
      ensures ok ==> lastEndpos >= 0 && Explores(v, root.alts, pos, lastEndpos)
      ensures ok && strict ==> forall e: nat :: Explores(v, root.alts, pos, e) ==> e <= lastEndpos
      ensures if ok && nmatch > 0 then rmSo == pos && rmEo == lastEndpos else rmSo == rmEo == -1
    {
      var gthis := Frame(root, pos, 0, NoFrame);
      ghost var S := EndsAlts(v, root.alts, pos, gthis);
      assert forall e: nat :: e in S <==> Explores(v, root.alts, pos, e);
      ok := TryAlts(root.alts, pos, gthis);
      if ok {
        assert Explores(v, root.alts, pos, lastEndpos);
      }
      if e: nat :| Explores(v, root.alts, pos, e) {
        assert e in S;
      }
    }
  }

  /** A compiled pattern: the top group, its number of sub-groups and the compile flags. */
  datatype Regex = Regex(root: Op, reNsub: nat, icase: bool, newline: bool, nosub: bool, relaxedMatching: bool)

  ghost predicate ValidRegex(rx: Regex) {
    rx.root.Group? && rx.root.min == rx.root.max == 1 && WellFormedAlts(rx.root.alts, true)
  }

  datatype ExecFlags = ExecFlags(notBol: bool, notEol: bool)

  /** The environment in which regexec runs a pattern. */
  function ExecEnv(rx: Regex, str: seq<Byte>, eflags: ExecFlags): Env {
    Env(str, Flags(rx.icase, rx.newline, eflags.notBol, eflags.notEol))
  }

  /** Leftmost match, and the longest one for that start if `longest` is asked for. */
  ghost predicate BestMatch(matches: (nat, nat) -> bool, longest: bool, so: int, eo: int) {
    && 0 <= so && 0 <= eo && matches(so, eo)
    && forall i: nat, j: nat :: matches(i, j) ==> so <= i && (longest && i == so ==> j <= eo)
  }

  /** regexec: the first start with a match wins.  The subject has no NUL.  `pmatch0` is what
      match 0 is set to when the caller asks for matches (nmatch > 0, no REG_NOSUB). */
  method RegExec(rx: Regex, str: seq<Byte>, nmatch: nat, eflags: ExecFlags) returns (found: bool, so: int, eo: int)
    requires ValidRegex(rx) && 0 !in str
    ensures found <==> exists i: nat, j: nat :: LeanMatches(ExecEnv(rx, str, eflags), rx.root.alts, i, j)
    ensures found && nmatch > 0 && !rx.nosub ==>
              BestMatch((i: nat, j: nat) => LeanMatches(ExecEnv(rx, str, eflags), rx.root.alts, i, j),
                        !rx.relaxedMatching, so, eo)
    ensures PrunableAlts(rx.root.alts) ==>
              (found <==> exists i: nat, j: nat :: Matches(ExecEnv(rx, str, eflags), rx.root.alts, i, j))
    ensures PrunableAlts(rx.root.alts) && found && nmatch > 0 && !rx.nosub ==>
              BestMatch((i: nat, j: nat) => Matches(ExecEnv(rx, str, eflags), rx.root.alts, i, j),
                        !rx.relaxedMatching, so, eo)
    ensures !found || nmatch == 0 || rx.nosub ==> so == eo == -1
  {
    var used := if rx.nosub then 0 else if nmatch > rx.reNsub + 1 then rx.reNsub + 1 else nmatch;
    var strict := !rx.relaxedMatching && used > 0;
    var v := ExecEnv(rx, str, eflags);
    var ctx := new ExecCtx(v, strict, used);
    ghost var alts := rx.root.alts;

    var pos := 0;
    found := ctx.MatchTop(rx.root, pos);
    while !found && pos < |str|
      invariant 0 <= pos <= |str|
      invariant ctx.v == v && ctx.strict == strict && ctx.nmatch == used
      invariant forall i: nat, j: nat :: i < pos ==> !Explores(v, alts, i, j)
      invariant found <==> exists e: nat :: Explores(v, alts, pos, e)
      invariant !found ==> ctx.lastEndpos == ctx.rmSo == ctx.rmEo == -1
      invariant found ==> ctx.lastEndpos >= 0 && Explores(v, alts, pos, ctx.lastEndpos)
      invariant found && strict ==> forall e: nat :: Explores(v, alts, pos, e) ==> e <= ctx.lastEndpos
      invariant found && used > 0 ==> ctx.rmSo == pos && ctx.rmEo == ctx.lastEndpos
      decreases |str| - pos, !found
    {
      pos := pos + 1;
      found := ctx.MatchTop(rx.root, pos);
    }
    so, eo := if used > 0 then ctx.rmSo else -1, if used > 0 then ctx.rmEo else -1;

    forall i: nat, j: nat ensures Explores(v, alts, i, j) <==> LeanMatches(v, alts, i, j) {
      ExploresExactly(v, alts, i, j);
    }
    if PrunableAlts(alts) {
      forall i: nat, j: nat ensures LeanMatches(v, alts, i, j) <==> Matches(v, alts, i, j) {
        if LeanMatches(v, alts, i, j) { LeanOnlyMatches(v, alts, i, j); }
        if Matches(v, alts, i, j) { LeanAllMatches(v, alts, i, j); }
      }
    }
  }
}
