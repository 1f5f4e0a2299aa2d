/** Compiled patterns of usual/regex.c and the languages that go with them.

 `Lang` is the textbook meaning of a compiled pattern: a group repeated {min,max}
 matches any number of iterations in that range, empty ones included.
 `Lean` is the same language but for groups: iterations that take text, and empty ones
 only to make up the minimum where the group ends.
 `Pruned` follows the matcher: a follow-up iteration that matches nothing ends the
 repetition or is dropped.  The module proves that Pruned and Lean are the same for every
 pattern, that both are contained in Lang, and that all three are equal unless an assertion
 lets an iteration of a group with a minimum count of two or more be empty.
 */
module RegexLanguage {
  import opened Prelude

  const MAX_COUNT: nat := 0x7fff
  const NEWLINE: Byte := 10

  datatype Flags = Flags(icase: bool, newline: bool, notBol: bool, notEol: bool)

  /** The subject string (without its terminating NUL) and the flags of one execution. */
  datatype Env = Env(str: seq<Byte>, flags: Flags)

  /** What a single-character op takes: OP_CHAR, OP_ANY, OP_CLASS. */
  datatype Atom = Lit(lit: Byte) | Dot | Class(members: set<Byte>)

  /** Position assertions: OP_BOL, OP_EOL, OP_WCHANGE, OP_NWCHANGE. */
  datatype Assertion = Bol | Eol | WordChange | NoWordChange

  /** A compiled operation, linked through `next` like `struct Op`.  `Gend` is OP_GMATCH,
      `Full` is OP_FULLMATCH and `NoOp` is the NULL pointer. */
  datatype Op =
    | Simple(atom: Atom, min: nat, max: nat, next: Op)
    | Group(alts: AndList, min: nat, max: nat, next: Op)
    | Assert(kind: Assertion, next: Op)
    | Gend
    | Full
    | NoOp

  /** The alternatives of a group, linked like `struct AndList`. */
  datatype AndList = NoAlt | Alt(ops: Op, rest: AndList)

  /** Shape of the op lists the compiler builds: every branch of the top group ends in
      Full, every branch of another group in Gend, counts are in order and no class
      contains NUL. */
  predicate WellFormed(op: Op, top: bool) {
    match op
    case Gend => !top
    case Full => top
    case NoOp => false
    case Group(alts, min, max, next) =>
      min <= max <= MAX_COUNT && WellFormedAlts(alts, false) && WellFormed(next, top)
    case Simple(atom, min, max, next) =>
      min <= max <= MAX_COUNT && (atom.Class? ==> 0 !in atom.members) && WellFormed(next, top)
    case Assert(_, next) => WellFormed(next, top)
  }

  predicate WellFormedAlts(alts: AndList, top: bool) {
    alts.Alt? ==> WellFormed(alts.ops, top) && WellFormedAlts(alts.rest, top)
  }

  function ToLower(c: Byte): Byte { if 65 <= c <= 90 then c + 32 else c }

  predicate IsWord(c: Byte) { 48 <= c <= 57 || 65 <= c <= 90 || 97 <= c <= 122 || c == 95 }

  /** Largest repeat count of a single-character op; MAX_COUNT stands for "no limit". */
  function SimpleMax(max: nat): nat {
    if max == MAX_COUNT then 0x7FFFFFFF else max
  }

  /** Does a single-character op take this byte?  Literals are signed chars, so that bytes
      over 127 never match when case is folded. */
  predicate Accepts(v: Env, atom: Atom, c: Byte) {
    match atom
    case Lit(lit) => if v.flags.icase then c < 128 && ToLower(c) == lit else c == lit
    case Dot => !(v.flags.newline && c == NEWLINE)
    case Class(members) => c in members
  }

  predicate AcceptsRun(v: Env, atom: Atom, i: nat, k: nat) {
    i + k <= |v.str| && forall x :: i <= x < i + k ==> Accepts(v, atom, v.str[x])
  }

  predicate Holds(v: Env, kind: Assertion, i: nat)
    requires i <= |v.str|
  {
    var prevWord := i != 0 && IsWord(v.str[i - 1]);
    var curWord := i < |v.str| && IsWord(v.str[i]);
    match kind
    case Bol => if i == 0 then !v.flags.notBol else v.str[i - 1] == NEWLINE && v.flags.newline
    case Eol => if i == |v.str| then !v.flags.notEol else v.str[i] == NEWLINE && v.flags.newline
    case WordChange => prevWord != curWord
    case NoWordChange => prevWord == curWord
  }

  // ----- the textbook language

  /** The op list matches exactly str[i..j]. */
  ghost predicate Lang(v: Env, op: Op, i: nat, j: nat)
    decreases op, 0
  {
    && i <= j <= |v.str|
    && match op
       case Gend => i == j
       case Full => i == j
       case NoOp => false
       case Group(alts, min, max, next) =>
         exists m: nat :: Repeated(v, alts, min, max, i, m) && Lang(v, next, m, j)
       case Simple(atom, min, max, next) =>
         exists k: nat :: min <= k <= SimpleMax(max) && AcceptsRun(v, atom, i, k) && Lang(v, next, i + k, j)
       case Assert(kind, next) => Holds(v, kind, i) && Lang(v, next, i, j)
  }

  ghost predicate LangAlts(v: Env, alts: AndList, i: nat, j: nat)
    decreases alts, 0
  {
    alts.Alt? && (Lang(v, alts.ops, i, j) || LangAlts(v, alts.rest, i, j))
  }

  /** Exactly n iterations of the alternatives, one after the other, cover str[i..j]. */
  ghost predicate Times(v: Env, alts: AndList, n: nat, i: nat, j: nat)
    decreases alts, 1, n
  {
    if n == 0 then i == j <= |v.str|
    else exists p: nat :: LangAlts(v, alts, i, p) && Times(v, alts, n - 1, p, j)
  }

  ghost predicate Repeated(v: Env, alts: AndList, min: nat, max: nat, i: nat, j: nat)
    decreases alts, 2
  {
    exists n: nat :: min <= n <= max && Times(v, alts, n, i, j)
  }

  // ----- the lean language

  ghost predicate Lean(v: Env, op: Op, i: nat, j: nat)
    decreases op, 0
  {
    && i <= j <= |v.str|
    && match op
       case Gend => i == j
       case Full => i == j
       case NoOp => false
       case Group(alts, min, max, next) =>
         exists m: nat :: LeanRepeated(v, alts, min, max, i, m) && Lean(v, next, m, j)
       case Simple(atom, min, max, next) =>
         exists k: nat :: min <= k <= SimpleMax(max) && AcceptsRun(v, atom, i, k) && Lean(v, next, i + k, j)
       case Assert(kind, next) => Holds(v, kind, i) && Lean(v, next, i, j)
  }

  ghost predicate LeanAlts(v: Env, alts: AndList, i: nat, j: nat)
    decreases alts, 0
  {
    alts.Alt? && (Lean(v, alts.ops, i, j) || LeanAlts(v, alts.rest, i, j))
  }

  /** Exactly k iterations, none of them empty, cover str[i..j]. */
  ghost predicate LeanTimes(v: Env, alts: AndList, k: nat, i: nat, j: nat)
    decreases alts, 1, k
  {
    if k == 0 then i == j <= |v.str|
    else exists p: nat :: i < p && LeanAlts(v, alts, i, p) && LeanTimes(v, alts, k - 1, p, j)
  }

  /** At most max non-empty iterations cover str[i..j]; too few are made up by empty ones at j. */
  ghost predicate LeanRepeated(v: Env, alts: AndList, min: nat, max: nat, i: nat, j: nat)
    decreases alts, 2
  {
    exists k: nat :: k <= max && LeanTimes(v, alts, k, i, j) && (k >= min || LeanAlts(v, alts, j, j))
  }

  // ----- the pruned language

  ghost predicate Pruned(v: Env, op: Op, i: nat, j: nat)
    decreases op, 0, 0
  {
    && i <= j <= |v.str|
    && match op
       case Gend => i == j
       case Full => i == j
       case NoOp => false
       case Group(alts, min, max, next) =>
         exists m: nat :: PrunedGroup(v, alts, min, max, 0, i, m) && Pruned(v, next, m, j)
       case Simple(atom, min, max, next) =>
         exists k: nat :: min <= k <= SimpleMax(max) && AcceptsRun(v, atom, i, k) && Pruned(v, next, i + k, j)
       case Assert(kind, next) => Holds(v, kind, i) && Pruned(v, next, i, j)
  }

  ghost predicate PrunedAlts(v: Env, alts: AndList, i: nat, j: nat)
    decreases alts, 0, 0
  {
    && i <= j <= |v.str|
    && alts.Alt? && (Pruned(v, alts.ops, i, j) || PrunedAlts(v, alts.rest, i, j))
  }

  /** Iteration number c of a group starts at i; the group as a whole may finish at m. */
  ghost predicate PrunedGroup(v: Env, alts: AndList, min: nat, max: nat, c: nat, i: nat, m: nat)
    decreases alts, 1 + if i <= |v.str| then |v.str| - i else 0, 1
  {
    && i <= |v.str|
    && (|| (c == 0 && min == 0 && i == m)
        || (max > 0 && exists p: nat :: PrunedAlts(v, alts, i, p) && PrunedEnd(v, alts, min, max, c, i, p, m)))
  }

  /** Iteration number c covered str[i..p]; the group as a whole may finish at m. */
  ghost predicate PrunedEnd(v: Env, alts: AndList, min: nat, max: nat, c: nat, i: nat, p: nat, m: nat)
    decreases alts, 1 + if i <= |v.str| then |v.str| - i else 0, 0
  {
    && i <= p <= |v.str|
    && if p == i then
         !(c > 0 && c >= min) && m == p
       else
         (c + 1 < max && PrunedGroup(v, alts, min, max, c + 1, p, m)) || (c + 1 >= min && m == p)
  }

  /** A group op matches the group first and the rest of the list after it. */
  lemma {:induction false} GroupThenRest(v: Env, op: Op, i: nat, j: nat) returns (m: nat)
    requires op.Group? && Pruned(v, op, i, j)
    ensures PrunedGroup(v, op.alts, op.min, op.max, 0, i, m) && Pruned(v, op.next, m, j)
  {
    m :| PrunedGroup(v, op.alts, op.min, op.max, 0, i, m) && Pruned(v, op.next, m, j);
  }

  lemma {:induction false} FirstIteration(v: Env, g: Op, c: nat, i: nat, m: nat) returns (p: nat)
    requires g.Group? && PrunedGroup(v, g.alts, g.min, g.max, c, i, m) && !(c == 0 && g.min == 0 && i == m)
    ensures g.max > 0 && PrunedAlts(v, g.alts, i, p) && PrunedEnd(v, g.alts, g.min, g.max, c, i, p, m)
  {
    p :| PrunedAlts(v, g.alts, i, p) && PrunedEnd(v, g.alts, g.min, g.max, c, i, p, m);
  }

  // ----- the matcher explores exactly the lean language, for every pattern

  lemma {:induction false} PrunedIsLean(v: Env, op: Op, i: nat, j: nat)
    requires WellFormed(op, true) || WellFormed(op, false)
    requires Pruned(v, op, i, j)
    ensures Lean(v, op, i, j)
    decreases op, 0, 0
  {
    if op.Group? {
      var m := GroupThenRest(v, op, i, j);
      var k := PrunedGroupIsLean(v, op.alts, op.min, op.max, 0, i, m);
      PrunedIsLean(v, op.next, m, j);
      assert LeanRepeated(v, op.alts, op.min, op.max, i, m);
    } else if op.Simple? {
      var k: nat :| op.min <= k <= SimpleMax(op.max) && AcceptsRun(v, op.atom, i, k) && Pruned(v, op.next, i + k, j);
      PrunedIsLean(v, op.next, i + k, j);
    } else if op.Assert? {
      PrunedIsLean(v, op.next, i, j);
    }
  }

  lemma {:induction false} PrunedAltsIsLean(v: Env, alts: AndList, i: nat, j: nat)
    requires WellFormedAlts(alts, true) || WellFormedAlts(alts, false)
    requires PrunedAlts(v, alts, i, j)
    ensures LeanAlts(v, alts, i, j)
    decreases alts, 0, 0
  {
    if Pruned(v, alts.ops, i, j) {
      PrunedIsLean(v, alts.ops, i, j);
    } else {
      PrunedAltsIsLean(v, alts.rest, i, j);
    }
  }

  /** A pruned run from iteration c on consists of k non-empty iterations, which together with the
      c earlier ones respect the maximum, and the minimum unless it ends in an empty iteration. */
  lemma {:induction false} PrunedGroupIsLean(v: Env, alts: AndList, min: nat, max: nat, c: nat, i: nat, m: nat)
    returns (k: nat)
    requires WellFormedAlts(alts, false) && min <= max && (c < max || c == 0)
    requires PrunedGroup(v, alts, min, max, c, i, m)
    ensures c + k <= max && LeanTimes(v, alts, k, i, m) && (c + k >= min || LeanAlts(v, alts, m, m))
    decreases alts, 1, if i <= |v.str| then |v.str| - i else 0
  {
    if c == 0 && min == 0 && i == m {
      return 0;
    }
    var p: nat :| PrunedAlts(v, alts, i, p) && PrunedEnd(v, alts, min, max, c, i, p, m);
    PrunedAltsIsLean(v, alts, i, p);
    if p == i {
      k := 0;
    } else if c + 1 < max && PrunedGroup(v, alts, min, max, c + 1, p, m) {
      k := PrunedGroupIsLean(v, alts, min, max, c + 1, p, m);
      k := k + 1;
    } else {
      k := 1;
      assert LeanTimes(v, alts, 0, p, m);
    }
  }

  lemma {:induction false} LeanIsPruned(v: Env, op: Op, i: nat, j: nat)
    requires WellFormed(op, true) || WellFormed(op, false)
    requires Lean(v, op, i, j)
    ensures Pruned(v, op, i, j)
    decreases op, 0, 0
  {
    if op.Group? {
      var m: nat :| LeanRepeated(v, op.alts, op.min, op.max, i, m) && Lean(v, op.next, m, j);
      LeanRepeatedIsPruned(v, op.alts, op.min, op.max, i, m);
      LeanIsPruned(v, op.next, m, j);
    } else if op.Simple? {
      var k: nat :| op.min <= k <= SimpleMax(op.max) && AcceptsRun(v, op.atom, i, k) && Lean(v, op.next, i + k, j);
      LeanIsPruned(v, op.next, i + k, j);
    } else if op.Assert? {
      LeanIsPruned(v, op.next, i, j);
    }
  }

  lemma {:induction false} LeanAltsIsPruned(v: Env, alts: AndList, i: nat, j: nat)
    requires WellFormedAlts(alts, true) || WellFormedAlts(alts, false)
    requires LeanAlts(v, alts, i, j)
    ensures PrunedAlts(v, alts, i, j)
    decreases alts, 0, 0
  {
    if Lean(v, alts.ops, i, j) {
      LeanIsPruned(v, alts.ops, i, j);
    } else {
      LeanAltsIsPruned(v, alts.rest, i, j);
    }
  }

  lemma {:induction false} LeanRepeatedIsPruned(v: Env, alts: AndList, min: nat, max: nat, i: nat, m: nat)
    requires WellFormedAlts(alts, false) && min <= max && LeanRepeated(v, alts, min, max, i, m)
    ensures PrunedGroup(v, alts, min, max, 0, i, m)
    decreases alts, 2, 0
  {
    var k: nat :| k <= max && LeanTimes(v, alts, k, i, m) && (k >= min || LeanAlts(v, alts, m, m));
    LeanRunIsPruned(v, alts, min, max, 0, k, i, m);
  }

  /** k non-empty iterations, closed by an empty one when they are too few, form a pruned run. */
  lemma {:induction false} LeanRunIsPruned(v: Env, alts: AndList, min: nat, max: nat, c: nat, k: nat, i: nat, j: nat)
    requires WellFormedAlts(alts, false) && min <= max
    requires LeanTimes(v, alts, k, i, j) && c + k <= max && (c + k >= min || LeanAlts(v, alts, j, j))
    requires k == 0 ==> c == 0 || c < min
    ensures PrunedGroup(v, alts, min, max, c, i, j)
    decreases alts, 1, k
  {
    if k == 0 {
      if !(c == 0 && min == 0) {
        LeanAltsIsPruned(v, alts, i, i);
        assert PrunedEnd(v, alts, min, max, c, i, i, j);
      }
    } else {
      var p: nat :| i < p && LeanAlts(v, alts, i, p) && LeanTimes(v, alts, k - 1, p, j);
      LeanAltsIsPruned(v, alts, i, p);
      if !(k == 1 && c + 1 >= min) {
        LeanRunIsPruned(v, alts, min, max, c + 1, k - 1, p, j);
      }
      assert PrunedEnd(v, alts, min, max, c, i, p, j);
    }
  }

  // ----- soundness: the lean language is part of the textbook one

  lemma {:induction false} LeanSound(v: Env, op: Op, i: nat, j: nat)
    requires WellFormed(op, true) || WellFormed(op, false)
    requires Lean(v, op, i, j)
    ensures Lang(v, op, i, j)
    decreases op, 0, 0
  {
    if op.Group? {
      var m: nat :| LeanRepeated(v, op.alts, op.min, op.max, i, m) && Lean(v, op.next, m, j);
      LeanRepeatedSound(v, op, i, m);
      LeanSound(v, op.next, m, j);
    } else if op.Simple? {
      var k: nat :| op.min <= k <= SimpleMax(op.max) && AcceptsRun(v, op.atom, i, k) && Lean(v, op.next, i + k, j);
      LeanSound(v, op.next, i + k, j);
    } else if op.Assert? {
      LeanSound(v, op.next, i, j);
    }
  }

  lemma {:induction false} LeanAltsSound(v: Env, alts: AndList, i: nat, j: nat)
    requires WellFormedAlts(alts, true) || WellFormedAlts(alts, false)
    requires LeanAlts(v, alts, i, j)
    ensures LangAlts(v, alts, i, j)
    decreases alts, 0, 0
  {
    if Lean(v, alts.ops, i, j) {
      LeanSound(v, alts.ops, i, j);
    } else {
      LeanAltsSound(v, alts.rest, i, j);
    }
  }

  /** Enough empty iterations where the group ends make up the minimum. */
  lemma {:induction false} LeanRepeatedSound(v: Env, op: Op, i: nat, m: nat)
    requires op.Group? && (WellFormed(op, true) || WellFormed(op, false))
    requires LeanRepeated(v, op.alts, op.min, op.max, i, m)
    ensures Repeated(v, op.alts, op.min, op.max, i, m)
    decreases op.alts, 2, 0
  {
    var k: nat :| k <= op.max && LeanTimes(v, op.alts, k, i, m) && (k >= op.min || LeanAlts(v, op.alts, m, m));
    var extra := if k >= op.min then 0 else op.min - k;
    if extra > 0 { LeanAltsSound(v, op.alts, m, m); }
    LeanTimesSound(v, op.alts, k, i, m, extra);
  }

  lemma {:induction false} LeanTimesSound(v: Env, alts: AndList, k: nat, i: nat, j: nat, extra: nat)
    requires WellFormedAlts(alts, false) && LeanTimes(v, alts, k, i, j)
    requires extra > 0 ==> LangAlts(v, alts, j, j)
    ensures Times(v, alts, k + extra, i, j)
    decreases alts, 1, k
  {
    if k == 0 {
      if extra > 0 { EmptyTimes(v, alts, extra, i); }
    } else {
      var p: nat :| i < p && LeanAlts(v, alts, i, p) && LeanTimes(v, alts, k - 1, p, j);
      LeanAltsSound(v, alts, i, p);
      LeanTimesSound(v, alts, k - 1, p, j, extra);
    }
  }

  /** An empty match can be repeated any number of times where it stands. */
  lemma {:induction false} EmptyTimes(v: Env, alts: AndList, n: nat, i: nat)
    requires LangAlts(v, alts, i, i) && i <= |v.str|
    ensures Times(v, alts, n, i, i)
  {
    if n > 0 {
      EmptyTimes(v, alts, n - 1, i);
    }
  }

  // ----- completeness: nothing of the textbook language is lost, if no iteration of a group that must repeat is empty
  // by an assertion

  /** In groups with a minimum count of two or more, an iteration that may be empty may be so at
      every position: it is not an assertion that makes it empty. */
  predicate Prunable(op: Op) {
    match op
    case Gend => true
    case Full => true
    case NoOp => true
    case Group(alts, min, _, next) =>
      (min >= 2 && MaybeEmptyAlts(alts) ==> NullableAlts(alts)) && PrunableAlts(alts) && Prunable(next)
    case Simple(_, _, _, next) => Prunable(next)
    case Assert(_, next) => Prunable(next)
  }

  predicate PrunableAlts(alts: AndList) {
    alts.Alt? ==> Prunable(alts.ops) && PrunableAlts(alts.rest)
  }

  /** Can an op list match the empty string somewhere, assertions granted? */
  predicate MaybeEmpty(op: Op) {
    match op
    case Gend => true
    case Full => true
    case NoOp => false
    case Group(alts, min, _, next) => (min == 0 || MaybeEmptyAlts(alts)) && MaybeEmpty(next)
    case Simple(_, min, _, next) => min == 0 && MaybeEmpty(next)
    case Assert(_, next) => MaybeEmpty(next)
  }

  predicate MaybeEmptyAlts(alts: AndList) {
    alts.Alt? && (MaybeEmpty(alts.ops) || MaybeEmptyAlts(alts.rest))
  }

  /** Can an op list match the empty string everywhere, without any assertion? */
  predicate Nullable(op: Op) {
    match op
    case Gend => true
    case Full => true
    case NoOp => false
    case Group(alts, min, _, next) => (min == 0 || NullableAlts(alts)) && Nullable(next)
    case Simple(_, min, _, next) => min == 0 && Nullable(next)
    case Assert(_, _) => false
  }

  predicate NullableAlts(alts: AndList) {
    alts.Alt? && (Nullable(alts.ops) || NullableAlts(alts.rest))
  }

  lemma {:induction false} LangMonotone(v: Env, alts: AndList, i: nat, j: nat)
    requires LangAlts(v, alts, i, j)
    ensures i <= j <= |v.str|
    decreases alts
  {
    if !Lang(v, alts.ops, i, j) {
      LangMonotone(v, alts.rest, i, j);
    }
  }

  lemma {:induction false} TimesMonotone(v: Env, alts: AndList, n: nat, i: nat, j: nat)
    requires Times(v, alts, n, i, j)
    ensures i <= j <= |v.str|
    decreases n
  {
    if n > 0 {
      var p: nat :| LangAlts(v, alts, i, p) && Times(v, alts, n - 1, p, j);
      LangMonotone(v, alts, i, p);
      TimesMonotone(v, alts, n - 1, p, j);
    }
  }

  lemma {:induction false} EmptyRepeated(v: Env, alts: AndList, min: nat, max: nat, i: nat, m: nat)
    requires Repeated(v, alts, min, max, i, m) && m <= i
    ensures m == i && (min > 0 ==> LangAlts(v, alts, i, i))
  {
    var n: nat :| min <= n <= max && Times(v, alts, n, i, m);
    TimesMonotone(v, alts, n, i, m);
    if n > 0 {
      EmptyIteration(v, alts, n, i);
    }
  }

  lemma {:induction false} EmptyIteration(v: Env, alts: AndList, n: nat, i: nat)
    requires n > 0 && Times(v, alts, n, i, i)
    ensures LangAlts(v, alts, i, i)
  {
    var p: nat :| LangAlts(v, alts, i, p) && Times(v, alts, n - 1, p, i);
    LangMonotone(v, alts, i, p);
    TimesMonotone(v, alts, n - 1, p, i);
  }

  /** Whatever matches the empty string somewhere may be empty. */
  lemma {:induction false} EmptyImpliesMaybe(v: Env, op: Op, i: nat)
    requires Lang(v, op, i, i)
    ensures MaybeEmpty(op)
    decreases op, 0
  {
    if op.Group? {
      var m: nat :| Repeated(v, op.alts, op.min, op.max, i, m) && Lang(v, op.next, m, i);
      EmptyRepeated(v, op.alts, op.min, op.max, i, m);
      EmptyImpliesMaybe(v, op.next, i);
      if op.min > 0 {
        EmptyImpliesMaybeAlts(v, op.alts, i);
      }
    } else if op.Simple? || op.Assert? {
      EmptyImpliesMaybe(v, op.next, i);
    }
  }

  lemma {:induction false} EmptyImpliesMaybeAlts(v: Env, alts: AndList, i: nat)
    requires LangAlts(v, alts, i, i)
    ensures MaybeEmptyAlts(alts)
    decreases alts, 0
  {
    if Lang(v, alts.ops, i, i) {
      EmptyImpliesMaybe(v, alts.ops, i);
    } else {
      EmptyImpliesMaybeAlts(v, alts.rest, i);
    }
  }

  lemma {:induction false} NullableMatchesEmpty(v: Env, op: Op, i: nat)
    requires WellFormed(op, true) || WellFormed(op, false)
    requires Nullable(op) && i <= |v.str|
    ensures Lang(v, op, i, i)
    decreases op, 0
  {
    if op.Group? {
      NullableMatchesEmpty(v, op.next, i);
      if op.min == 0 {
        assert Times(v, op.alts, 0, i, i);
      } else {
        NullableAltsMatchEmpty(v, op.alts, i);
        EmptyTimes(v, op.alts, op.min, i);
      }
      assert Repeated(v, op.alts, op.min, op.max, i, i);
    } else if op.Simple? {
      NullableMatchesEmpty(v, op.next, i);
      assert AcceptsRun(v, op.atom, i, 0) && Lang(v, op.next, i + 0, i);
    }
  }

  lemma {:induction false} NullableAltsMatchEmpty(v: Env, alts: AndList, i: nat)
    requires WellFormedAlts(alts, true) || WellFormedAlts(alts, false)
    requires NullableAlts(alts) && i <= |v.str|
    ensures LangAlts(v, alts, i, i)
    decreases alts, 0
  {
    if Nullable(alts.ops) {
      NullableMatchesEmpty(v, alts.ops, i);
    } else {
      NullableAltsMatchEmpty(v, alts.rest, i);
    }
  }

  /** Leaving out the empty iterations of a run leaves a lean run; q is where one stood. */
  lemma {:induction false} DropEmpty(v: Env, alts: AndList, n: nat, i: nat, j: nat) returns (k: nat, q: nat)
    requires WellFormedAlts(alts, false) && PrunableAlts(alts) && Times(v, alts, n, i, j)
    ensures k <= n && LeanTimes(v, alts, k, i, j)
    ensures i <= q <= j <= |v.str|
    ensures k < n ==> LangAlts(v, alts, q, q)
    decreases alts, 1, n
  {
    if n == 0 {
      return 0, i;
    }
    var p := FirstTime(v, alts, n, i, j);
    k, q := DropEmpty(v, alts, n - 1, p, j);
    if p == i {
      q := i;
    } else {
      LeanAltsComplete(v, alts, i, p);
      LeanTimesMore(v, alts, k, i, p, j);
      k := k + 1;
    }
  }

  lemma {:induction false} LeanTimesMore(v: Env, alts: AndList, k: nat, i: nat, p: nat, j: nat)
    requires i < p && LeanAlts(v, alts, i, p) && LeanTimes(v, alts, k, p, j)
    ensures LeanTimes(v, alts, k + 1, i, j)
  {}

  lemma {:induction false} FirstTime(v: Env, alts: AndList, n: nat, i: nat, j: nat) returns (p: nat)
    requires n > 0 && Times(v, alts, n, i, j)
    ensures LangAlts(v, alts, i, p) && Times(v, alts, n - 1, p, j) && i <= p <= |v.str|
  {
    p :| LangAlts(v, alts, i, p) && Times(v, alts, n - 1, p, j);
    LangMonotone(v, alts, i, p);
  }

  lemma {:induction false} LeanAltsComplete(v: Env, alts: AndList, i: nat, j: nat)
    requires (WellFormedAlts(alts, true) || WellFormedAlts(alts, false)) && PrunableAlts(alts)
    requires LangAlts(v, alts, i, j)
    ensures LeanAlts(v, alts, i, j)
    decreases alts, 0, 0
  {
    if Lang(v, alts.ops, i, j) {
      LeanComplete(v, alts.ops, i, j);
    } else {
      LeanAltsComplete(v, alts.rest, i, j);
    }
  }

  lemma {:induction false} LeanComplete(v: Env, op: Op, i: nat, j: nat)
    requires (WellFormed(op, true) || WellFormed(op, false)) && Prunable(op)
    requires Lang(v, op, i, j)
    ensures Lean(v, op, i, j)
    decreases op, 0, 0
  {
    if op.Group? {
      var m: nat :| Repeated(v, op.alts, op.min, op.max, i, m) && Lang(v, op.next, m, j);
      RepeatedIsLean(v, op, i, m);
      LeanComplete(v, op.next, m, j);
    } else if op.Simple? {
      var k: nat :| op.min <= k <= SimpleMax(op.max) && AcceptsRun(v, op.atom, i, k) && Lang(v, op.next, i + k, j);
      LeanComplete(v, op.next, i + k, j);
    } else if op.Assert? {
      LeanComplete(v, op.next, i, j);
    }
  }

  lemma {:induction false} RepeatedIsLean(v: Env, op: Op, i: nat, m: nat)
    requires op.Group? && (WellFormed(op, true) || WellFormed(op, false)) && Prunable(op)
    requires Repeated(v, op.alts, op.min, op.max, i, m)
    ensures LeanRepeated(v, op.alts, op.min, op.max, i, m)
    decreases op.alts, 2, 0
  {
    var n: nat :| op.min <= n <= op.max && Times(v, op.alts, n, i, m);
    var k, q := DropEmpty(v, op.alts, n, i, m);
    if k < op.min {
      // an empty iteration was dropped: it can be done again at m
      if op.min >= 2 {
        EmptyImpliesMaybeAlts(v, op.alts, q);
        NullableAltsMatchEmpty(v, op.alts, m);
      }
      LeanAltsComplete(v, op.alts, m, m);
    }
  }

  /** The search for the pattern from i can end at j. */
  ghost predicate Explores(v: Env, alts: AndList, i: nat, j: nat) { PrunedAlts(v, alts, i, j) }

  /** The pattern matches str[i..j]. */
  ghost predicate Matches(v: Env, alts: AndList, i: nat, j: nat) { LangAlts(v, alts, i, j) }

  /** The pattern matches str[i..j] leanly. */
  ghost predicate LeanMatches(v: Env, alts: AndList, i: nat, j: nat) { LeanAlts(v, alts, i, j) }

  /** What the search finds, for every pattern. */
  lemma {:induction false} ExploresExactly(v: Env, alts: AndList, i: nat, j: nat)
    requires WellFormedAlts(alts, true)
    ensures Explores(v, alts, i, j) <==> LeanMatches(v, alts, i, j)
  {
    if Explores(v, alts, i, j) { PrunedAltsIsLean(v, alts, i, j); }
    if LeanMatches(v, alts, i, j) { LeanAltsIsPruned(v, alts, i, j); }
  }

  lemma {:induction false} LeanOnlyMatches(v: Env, alts: AndList, i: nat, j: nat)
    requires WellFormedAlts(alts, true) && LeanMatches(v, alts, i, j)
    ensures Matches(v, alts, i, j)
  {
    LeanAltsSound(v, alts, i, j);
  }

  lemma {:induction false} LeanAllMatches(v: Env, alts: AndList, i: nat, j: nat)
    requires WellFormedAlts(alts, true) && PrunableAlts(alts) && Matches(v, alts, i, j)
    ensures LeanMatches(v, alts, i, j)
  {
    LeanAltsComplete(v, alts, i, j);
  }

  predicate NoAssertions(op: Op) {
    match op
    case Gend => true
    case Full => true
    case NoOp => true
    case Group(alts, _, _, next) => NoAssertionsAlts(alts) && NoAssertions(next)
    case Simple(_, _, _, next) => NoAssertions(next)
    case Assert(_, _) => false
  }

  predicate NoAssertionsAlts(alts: AndList) {
    alts.Alt? ==> NoAssertions(alts.ops) && NoAssertionsAlts(alts.rest)
  }

  /** Groups with a minimum count of two or more hold no position assertion at all. */
  predicate PlainRepeats(op: Op) {
    match op
    case Gend => true
    case Full => true
    case NoOp => true
    case Group(alts, min, _, next) =>
      (min >= 2 ==> NoAssertionsAlts(alts)) && PlainRepeatsAlts(alts) && PlainRepeats(next)
    case Simple(_, _, _, next) => PlainRepeats(next)
    case Assert(_, next) => PlainRepeats(next)
  }

  predicate PlainRepeatsAlts(alts: AndList) {
    alts.Alt? ==> PlainRepeats(alts.ops) && PlainRepeatsAlts(alts.rest)
  }

  lemma {:induction false} NoAssertionsNullable(op: Op)
    requires NoAssertions(op) && MaybeEmpty(op)
    ensures Nullable(op)
    decreases op
  {
    if op.Group? {
      NoAssertionsNullable(op.next);
      if op.min > 0 { NoAssertionsNullableAlts(op.alts); }
    } else if op.Simple? {
      NoAssertionsNullable(op.next);
    }
  }

  lemma {:induction false} NoAssertionsNullableAlts(alts: AndList)
    requires NoAssertionsAlts(alts) && MaybeEmptyAlts(alts)
    ensures NullableAlts(alts)
    decreases alts
  {
    if MaybeEmpty(alts.ops) {
      NoAssertionsNullable(alts.ops);
    } else {
      NoAssertionsNullableAlts(alts.rest);
    }
  }

  /** In particular nothing is lost when such groups hold no assertion. */
  lemma {:induction false} PlainIsPrunable(op: Op)
    requires PlainRepeats(op)
    ensures Prunable(op)
    decreases op
  {
    match op {
      case Group(alts, min, _, next) =>
        PlainIsPrunableAlts(alts);
        PlainIsPrunable(next);
        if min >= 2 && MaybeEmptyAlts(alts) { NoAssertionsNullableAlts(alts); }
      case Simple(_, _, _, next) => PlainIsPrunable(next);
      case Assert(_, next) => PlainIsPrunable(next);
      case Gend =>
      case Full =>
      case NoOp =>
    }
  }

  lemma {:induction false} PlainIsPrunableAlts(alts: AndList)
    requires PlainRepeatsAlts(alts)
    ensures PrunableAlts(alts)
    decreases alts
  {
    if alts.Alt? {
      PlainIsPrunable(alts.ops);
      PlainIsPrunableAlts(alts.rest);
    }
  }

  // ----- the side condition cannot be dropped

  /** `(^|a){2}`: an assertion inside a group that must repeat. */
  const TWICE_BOL_OR_A: AndList :=
    Alt(Group(Alt(Assert(Bol, Gend), Alt(Simple(Lit(97), 1, 1, Gend), NoAlt)), 2, 2, Full), NoAlt)

  const PLAIN := Flags(false, false, false, false)
  const TEXT_A := Env([97], PLAIN)

  /** On the text "a" the pattern `(^|a){2}` matches all of it (first `^`, then `a`),
      but the search stops repeating after the empty first iteration. */
  lemma {:induction false} PruningLosesMatch(v: Env, alts: AndList)
    requires v == TEXT_A && alts == TWICE_BOL_OR_A
    ensures WellFormedAlts(alts, true) && !PrunableAlts(alts)
    ensures Matches(v, alts, 0, 1) && !Explores(v, alts, 0, 1)
  {
    var g := alts.ops;
    assert WellFormed(g.alts.rest.ops, false);
    assert WellFormedAlts(g.alts.rest, false);
    assert WellFormed(g.alts.ops, false);
    assert WellFormedAlts(g.alts, false);
    assert WellFormed(g, true);
    InLanguage(v, alts.ops);
    if PrunedAlts(v, alts, 0, 1) {
      OnlyAlternative(v, alts.ops, 0, 1);
      var m := GroupThenRest(v, alts.ops, 0, 1);
      NotPruned(v, alts.ops, m);
    }
  }

  lemma {:induction false} OnlyAlternative(v: Env, op: Op, i: nat, j: nat)
    requires PrunedAlts(v, Alt(op, NoAlt), i, j)
    ensures Pruned(v, op, i, j)
  {}

  lemma {:induction false} InLanguage(v: Env, g: Op)
    requires v == TEXT_A && g == TWICE_BOL_OR_A.ops
    ensures Lang(v, g, 0, 1)
  {
    var bol, a := g.alts.ops, g.alts.rest.ops;
    assert Lang(v, bol, 0, 0) && LangAlts(v, g.alts, 0, 0);
    assert AcceptsRun(v, a.atom, 0, 1) && Lang(v, Gend, 0 + 1, 1);
    assert Lang(v, a, 0, 1) && LangAlts(v, g.alts.rest, 0, 1) && LangAlts(v, g.alts, 0, 1);
    assert Times(v, g.alts, 0, 1, 1);
    assert Times(v, g.alts, 1, 0, 1);
    assert Times(v, g.alts, 2, 0, 1);
    assert Repeated(v, g.alts, 2, 2, 0, 1) && Lang(v, Full, 1, 1);
  }

  lemma {:induction false} NotPruned(v: Env, g: Op, m: nat)
    requires v == TEXT_A && g == TWICE_BOL_OR_A.ops && m != 0
    ensures !PrunedGroup(v, g.alts, 2, 2, 0, 0, m)
  {
    var bol, a := g.alts.ops, g.alts.rest.ops;
    forall p: nat ensures !PrunedAlts(v, g.alts, 1, p) {
      assert !Pruned(v, bol, 1, p) && !Pruned(v, a, 1, p);
      assert !PrunedAlts(v, g.alts.rest, 1, p);
    }
    assert !PrunedGroup(v, g.alts, 2, 2, 1, 1, m);
    forall p: nat ensures !PrunedEnd(v, g.alts, 2, 2, 0, 0, p, m) {
    }
  }
}
