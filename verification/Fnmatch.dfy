/** Glob matching of usual/fnmatch.c.

 `Wfnmatch` remembers only the most recent `*`.  It is proved to agree with the exhaustive
 definition `Match`, in which every `*` may take any run of permitted characters, for every
 pattern, string and combination of flags.
 */
module Fnmatch {

  type WChar = nat

  const NUL: WChar := 0
  const BANG: WChar := 33
  const STAR: WChar := 42
  const DASH: WChar := 45
  const DOT: WChar := 46
  const SLASH: WChar := 47
  const COLON: WChar := 58
  const EQUALS: WChar := 61
  const QUESTION: WChar := 63
  const OPEN: WChar := 91
  const BACKSLASH: WChar := 92
  const CLOSE: WChar := 93
  const CARET: WChar := 94

  datatype Flags = Flags(noEscape: bool, pathname: bool, period: bool, leadingDir: bool, caseFold: bool)

  /** The locale-dependent character functions of libc. */
  datatype Locale = Locale(
    isUpper: WChar -> bool, isLower: WChar -> bool, toUpper: WChar -> WChar, toLower: WChar -> WChar,
    isClassName: seq<WChar> -> bool, inClass: (seq<WChar>, WChar) -> bool)

  /** A pattern, a subject and the flags of one call; neither string contains NUL. */
  datatype Call = Call(pat: seq<WChar>, str: seq<WChar>, flags: Flags, loc: Locale)

  ghost predicate ValidCall(k: Call) {
    && NUL !in k.pat && NUL !in k.str
    // slash and NUL are neither upper case nor lower case
    && !k.loc.isUpper(SLASH) && !k.loc.isLower(SLASH) && !k.loc.isUpper(NUL) && !k.loc.isLower(NUL)
  }

  /** Character of a C string at i: NUL at its end. */
  function At(s: seq<WChar>, i: nat): WChar { if i < |s| then s[i] else NUL }

  /** cmp_fold: compare characters with case folding. */
  predicate CmpFold(k: Call, c1: WChar, c2: WChar) {
    || c1 == c2
    || (k.flags.caseFold &&
        if k.loc.isUpper(c1) && k.loc.isLower(c2) then c1 == k.loc.toUpper(c2)
        else k.loc.isLower(c1) && k.loc.isUpper(c2) && c1 == k.loc.toLower(c2))
  }

  /** range_fold: compare a character to a range with case folding. */
  predicate RangeFold(k: Call, c: WChar, r1: WChar, r2: WChar) {
    || r1 <= c <= r2
    || (k.flags.caseFold &&
        if k.loc.isUpper(c) && k.loc.isLower(r1) && k.loc.isLower(r2) then r1 <= k.loc.toLower(c) <= r2
        else k.loc.isLower(c) && k.loc.isUpper(r1) && k.loc.isUpper(r2) && r1 <= k.loc.toUpper(c) <= r2)
  }

  // ----- bracket expressions

  datatype Item = Named(name: seq<WChar>) | Range(lo: WChar, hi: WChar) | One(c: WChar)

  /** What a bracket expression says, whatever character it is applied to.  `Closed` ends at
      the index of its closing bracket; an unterminated one may stand for a literal `[`. */
  datatype Bracket = Closed(neg: bool, items: seq<Item>, close: nat) | Unclosed(literal: bool) | Invalid

  predicate InItem(k: Call, item: Item, c: WChar) {
    match item
    case Named(name) => k.loc.inClass(name, c)
    case Range(lo, hi) => RangeFold(k, c, lo, hi)
    case One(x) => CmpFold(k, c, x)
  }

  predicate InItems(k: Call, items: seq<Item>, c: WChar) {
    exists x :: 0 <= x < |items| && InItem(k, items[x], c)
  }

  /** First index from i on that holds c, or the length (wcschr). */
  function Find(s: seq<WChar>, i: nat, c: WChar): (n: nat)
    requires i <= |s|
    ensures i <= n <= |s|
    ensures n < |s| ==> s[n] == c
    ensures forall x :: i <= x < n ==> s[x] != c
    decreases |s| - i
  {
    if i == |s| || s[i] == c then i else Find(s, i + 1, c)
  }

  /** Is there a complete `[:name:]`, `[.name.]` or `[=name=]` at i? */
  predicate HasNamed(p: seq<WChar>, i: nat) {
    && i + 1 < |p| && p[i] == OPEN && (p[i + 1] == COLON || p[i + 1] == DOT || p[i + 1] == EQUALS)
    && At(p, Find(p, i + 2, p[i + 1]) + 1) == CLOSE
  }

  /** What stands at index i of a bracket expression. */
  datatype Piece = Piece(item: Item, next: nat) | PieceClose | PieceNone | PieceBad

  function NextPiece(k: Call, start: nat, i: nat): (r: Piece)
    requires NUL !in k.pat && i <= |k.pat|
    ensures r.Piece? ==> i < r.next <= |k.pat|
    ensures r.PieceClose? ==> i < |k.pat| && k.pat[i] == CLOSE
  {
    var p := k.pat;
    if HasNamed(p, i) then
      var n := Find(p, i + 2, p[i + 1]);
      if p[i + 1] != COLON || !k.loc.isClassName(p[i + 2..n]) then PieceBad else Piece(Named(p[i + 2..n]), n + 2)
    else if i == |p| then PieceNone
    else if p[i] == CLOSE && i != start then PieceClose
    else if p[i] != BACKSLASH || k.flags.noEscape then CharOrRange(k, i)
    else if i + 1 == |p| then PieceBad
    else CharOrRange(k, i + 1)
  }

  function CharOrRange(k: Call, j: nat): (r: Piece)
    requires NUL !in k.pat && j < |k.pat|
    ensures !r.PieceClose? && !r.PieceNone?
    ensures r.Piece? ==> j < r.next <= |k.pat|
  {
    var p := k.pat;
    if At(p, j + 1) == DASH && At(p, j + 2) != CLOSE && At(p, j + 2) != NUL then
      if p[j + 2] == BACKSLASH && !k.flags.noEscape then
        if j + 3 == |p| then PieceBad else Piece(Range(p[j], p[j + 3]), j + 4)
      else Piece(Range(p[j], p[j + 2]), j + 3)
    else Piece(One(p[j]), j + 1)
  }

  function ParseItems(k: Call, neg: bool, start: nat, i: nat, literal: bool, items: seq<Item>): (b: Bracket)
    requires NUL !in k.pat && i <= |k.pat|
    ensures b.Closed? ==> i <= b.close < |k.pat|
    decreases |k.pat| - i
  {
    match NextPiece(k, start, i)
    case Piece(item, next) => ParseItems(k, neg, start, next, literal && !item.Named?, items + [item])
    case PieceClose => Closed(neg, items, i)
    case PieceNone => Unclosed(literal)
    case PieceBad => Invalid
  }

  /** The bracket expression whose first character after `[` is at i. */
  function ParseBracket(k: Call, i: nat): (b: Bracket)
    requires NUL !in k.pat && i <= |k.pat|
    ensures b.Closed? ==> i <= b.close < |k.pat|
  {
    var neg := At(k.pat, i) == BANG || At(k.pat, i) == CARET;
    var start := if neg then i + 1 else i;
    ParseItems(k, neg, start, start, true, [])
  }

  /** match_class: index in the pattern to go on after, or -1.  The bracket decides alone
      where matching goes on; the character decides only whether. */
  method MatchClass(k: Call, pat: nat, c: WChar) returns (r: int)
    requires NUL !in k.pat && 1 <= pat <= |k.pat|
    ensures r == match ParseBracket(k, pat)
                 case Closed(neg, items, close) => (if InItems(k, items, c) != neg then close as int else -1)
                 case Unclosed(literal) => (if literal && c == OPEN then pat - 1 else -1)
                 case Invalid => -1
  {
    var q := k.pat;
    var p := pat;
    var neg, matched, fallbackOk := false, false, true;
    if At(q, p) == BANG || At(q, p) == CARET {
      neg := true;
      p := p + 1;
    }
    var start := p;
    ghost var items: seq<Item> := [];
    ghost var whole := ParseBracket(k, pat);
    while true
      invariant start <= p <= |q|
      invariant matched <==> InItems(k, items, c)
      invariant whole == ParseItems(k, neg, start, p, fallbackOk, items)
      decreases |q| - p
    {
      ParsePiece(k, neg, start, p, fallbackOk, items);
      if HasNamed(q, p) {
        var hit, next := MatchNamed(k, start, p, c);
        if next < 0 {
          return -1;
        }
        ghost var piece := NextPiece(k, start, p);
        ExtendItems(k, items, piece.item, c);
        items := items + [piece.item];
        matched := matched || hit;
        fallbackOk := false;
        p := next;
      } else if p == |q| {
        return if fallbackOk && c == OPEN then pat - 1 else -1;
      } else if q[p] == CLOSE && p != start {
        return if matched != neg then p else -1;
      } else {
        var hit, next := MatchChar(k, start, p, c);
        if next < 0 {
          return -1;
        }
        ghost var piece := NextPiece(k, start, p);
        ExtendItems(k, items, piece.item, c);
        items := items + [piece.item];
        matched := matched || hit;
        p := next;
      }
    }
  }

  /** Named class, equivalence class or collating symbol; only the first is supported. */
  method MatchNamed(k: Call, start: nat, p: nat, c: WChar) returns (hit: bool, next: int)
    requires NUL !in k.pat && p <= |k.pat| && HasNamed(k.pat, p)
    ensures match NextPiece(k, start, p)
            case Piece(item, n) => next == n && item.Named? && hit == InItem(k, item, c)
            case _ => next == -1 && NextPiece(k, start, p).PieceBad?
  {
    var q := k.pat;
    var n := Find(q, p + 2, q[p + 1]);
    if q[p + 1] != COLON || !k.loc.isClassName(q[p + 2..n]) {
      return false, -1;
    }
    return k.loc.inClass(q[p + 2..n], c), n + 2;
  }

  /** Possibly escaped character, or a range. */
  method MatchChar(k: Call, start: nat, p: nat, c: WChar) returns (hit: bool, next: int)
    requires NUL !in k.pat && p < |k.pat| && !HasNamed(k.pat, p) && (k.pat[p] != CLOSE || p == start)
    ensures match NextPiece(k, start, p)
            case Piece(item, n) => next == n && !item.Named? && hit == InItem(k, item, c)
            case _ => next == -1 && NextPiece(k, start, p).PieceBad?
  {
    var q, i := k.pat, p;
    if q[i] == BACKSLASH && !k.flags.noEscape {
      if i + 1 == |q| {
        return false, -1;
      }
      i := i + 1;
    }
    hit, next := MatchCharOrRange(k, i, c);
  }

  method MatchCharOrRange(k: Call, pat: nat, c: WChar) returns (hit: bool, next: int)
    requires NUL !in k.pat && pat < |k.pat|
    ensures match CharOrRange(k, pat)
            case Piece(item, n) => next == n && !item.Named? && hit == InItem(k, item, c)
            case _ => next == -1
  {
    var q, p := k.pat, pat;
    if At(q, p + 1) == DASH && At(q, p + 2) != CLOSE && At(q, p + 2) != NUL {
      var r1, r2 := q[p], q[p + 2];
      if r2 == BACKSLASH && !k.flags.noEscape {
        p := p + 1;
        r2 := At(q, p + 2);
        if r2 == NUL {
          return false, -1;
        }
      }
      return RangeFold(k, c, r1, r2), p + 3;
    }
    return CmpFold(k, c, q[p]), p + 1;
  }

  lemma ParsePiece(k: Call, neg: bool, start: nat, i: nat, literal: bool, items: seq<Item>)
    requires NUL !in k.pat && i <= |k.pat|
    ensures ParseItems(k, neg, start, i, literal, items) ==
      match NextPiece(k, start, i)
      case Piece(item, next) => ParseItems(k, neg, start, next, literal && !item.Named?, items + [item])
      case PieceClose => Closed(neg, items, i)
      case PieceNone => Unclosed(literal)
      case PieceBad => Invalid
  {}

  lemma ExtendItems(k: Call, items: seq<Item>, item: Item, c: WChar)
    ensures InItems(k, items + [item], c) <==> InItems(k, items, c) || InItem(k, item, c)
  {
    var more := items + [item];
    assert more[|items|] == item;
    if x :| 0 <= x < |items| && InItem(k, items[x], c) {
      assert more[x] == items[x];
    }
  }

  // ----- the exhaustive definition

  /** disallow_wildcard: no wildcard may take the character at i. */
  predicate Disallowed(k: Call, i: nat)
    requires i <= |k.str|
  {
    if i == |k.str| then true
    else if k.str[i] == SLASH then k.flags.pathname
    else k.str[i] == DOT && k.flags.period && (i == 0 || (k.str[i - 1] == SLASH && k.flags.pathname))
  }

  /** A `*` may take all of str[i..j]. */
  ghost predicate Permitted(k: Call, i: nat, j: nat) {
    i <= j <= |k.str| && forall x :: i <= x < j ==> !Disallowed(k, x)
  }

  predicate IsStar(k: Call, p: nat) { p < |k.pat| && k.pat[p] == STAR }

  predicate IsEscape(k: Call, p: nat) { p < |k.pat| && k.pat[p] == BACKSLASH && !k.flags.noEscape }

  /** A pattern element that takes exactly one character: not `*`, not a trailing escape. */
  predicate IsElement(k: Call, p: nat) {
    p < |k.pat| && k.pat[p] != STAR && (IsEscape(k, p) ==> p + 1 < |k.pat|)
  }

  /** Where the pattern goes on after the element at p, whatever character it took. */
  function After(k: Call, p: nat): (n: nat)
    requires NUL !in k.pat && IsElement(k, p)
    ensures p < n <= |k.pat|
  {
    if k.pat[p] == OPEN then
      match ParseBracket(k, p + 1)
      case Closed(_, _, close) => close + 1
      case _ => p + 1
    else if IsEscape(k, p) then p + 2
    else p + 1
  }

  /** The element at p takes the character at i. */
  predicate Takes(k: Call, p: nat, i: nat)
    requires NUL !in k.pat && IsElement(k, p) && i < |k.str|
  {
    var c := k.str[i];
    if k.pat[p] == QUESTION then !Disallowed(k, i)
    else if k.pat[p] == OPEN then
      !Disallowed(k, i) &&
      match ParseBracket(k, p + 1)
      case Closed(neg, items, _) => InItems(k, items, c) != neg
      case Unclosed(literal) => literal && c == OPEN
      case Invalid => false
    else CmpFold(k, if IsEscape(k, p) then k.pat[p + 1] else k.pat[p], c)
  }

  /** The rest of the pattern from p matches the rest of the string from i.  A dot right after
      a `*` keeps the `*` from standing before a character no wildcard may take. */
  ghost predicate Match(k: Call, p: nat, i: nat)
    requires NUL !in k.pat && p <= |k.pat| && i <= |k.str|
    decreases |k.pat| - p
  {
    if p == |k.pat| then
      i == |k.str| || (k.flags.leadingDir && k.str[i] == SLASH)
    else if IsStar(k, p) then
      && !(At(k.pat, p + 1) == DOT && Disallowed(k, i))
      && exists j: nat :: Permitted(k, i, j) && Match(k, p + 1, j)
    else
      IsElement(k, p) && i < |k.str| && Takes(k, p, i) && Match(k, After(k, p), i + 1)
  }

  // ----- star-free paths through the pattern

  /** The elements from p up to q take exactly str[i..j]. */
  ghost predicate Path(k: Call, p: nat, i: nat, q: nat, j: nat)
    requires NUL !in k.pat
    decreases if p <= q then q - p else 0
  {
    && p <= q <= |k.pat| && i <= j <= |k.str|
    && if p == q then i == j
       else i < j && IsElement(k, p) && After(k, p) <= q && Takes(k, p, i) && Path(k, After(k, p), i + 1, q, j)
  }

  lemma {:induction false} PathStep(k: Call, p: nat, i: nat, q: nat, j: nat)
    requires NUL !in k.pat && Path(k, p, i, q, j)
    requires IsElement(k, q) && j < |k.str| && Takes(k, q, j)
    ensures Path(k, p, i, After(k, q), j + 1)
    decreases q - p
  {
    if p == q {
      assert Path(k, After(k, q), j + 1, After(k, q), j + 1);
    } else {
      PathStep(k, After(k, p), i + 1, q, j);
    }
  }

  /** A match of the pattern from p that starts d characters later runs along the same elements. */
  lemma {:induction false} PathShift(k: Call, p: nat, i: nat, q: nat, j: nat, d: nat)
    requires NUL !in k.pat && Path(k, p, i, q, j)
    requires i + d <= |k.str| && Match(k, p, i + d)
    ensures j + d <= |k.str| && Path(k, p, i + d, q, j + d) && Match(k, q, j + d)
    decreases q - p
  {
    if p != q {
      PathShift(k, After(k, p), i + 1, q, j, d);
    }
  }

  /** With FNM_PATHNAME an element either takes only slashes or takes none. */
  lemma SlashElement(k: Call, p: nat, x: nat, y: nat)
    requires ValidCall(k) && k.flags.pathname && IsElement(k, p) && x < |k.str| && y < |k.str|
    requires Takes(k, p, x) && Takes(k, p, y)
    ensures k.str[x] == SLASH <==> k.str[y] == SLASH
  {}

  lemma {:induction false} SlashesAlongPath(k: Call, p: nat, i: nat, q: nat, j: nat, d: nat, x: nat)
    requires ValidCall(k) && k.flags.pathname && j + d <= |k.str|
    requires Path(k, p, i, q, j) && Path(k, p, i + d, q, j + d) && i <= x < j
    ensures k.str[x] == SLASH <==> k.str[x + d] == SLASH
    decreases q - p
  {
    if x == i {
      SlashElement(k, p, i, i + d);
    } else {
      SlashesAlongPath(k, After(k, p), i + 1, q, j, d, x);
    }
  }

  /** If the same elements match d characters later and a `*` may take those d characters,
      then with FNM_PATHNAME there is no slash in the whole stretch. */
  lemma {:induction false} NoSlash(k: Call, p: nat, i: nat, q: nat, j: nat, d: nat, x: nat)
    requires ValidCall(k) && k.flags.pathname && j + d <= |k.str|
    requires Path(k, p, i, q, j) && Path(k, p, i + d, q, j + d) && Permitted(k, i, i + d) && d > 0 && i <= x < j + d
    ensures k.str[x] != SLASH
    decreases x
  {
    if x < i + d {
      assert !Disallowed(k, x);
    } else {
      NoSlash(k, p, i, q, j, d, x - d);
      SlashesAlongPath(k, p, i, q, j, d, x - d);
    }
  }

  /** Why only the last `*` matters: if the elements from rp to the `*` at q match from i on, any
      match that lets the previous `*` take more can be had by letting the `*` at q take more. */
  lemma {:induction false} LastStarDominates(k: Call, rp: nat, i: nat, q: nat, j: nat, t: nat)
    requires ValidCall(k) && Path(k, rp, i, q, j) && IsStar(k, q)
    requires i < t && Permitted(k, i, t) && Match(k, rp, t)
    ensures Match(k, q, j)
  {
    var d := t - i;
    PathShift(k, rp, i, q, j, d);
    var u: nat :| Permitted(k, j + d, u) && Match(k, q + 1, u);
    forall x | j <= x < j + d ensures !Disallowed(k, x) {
      if k.flags.pathname {
        NoSlash(k, rp, i, q, j, d, x);
        if x > i {
          NoSlash(k, rp, i, q, j, d, x - 1);
        }
      }
      assert !Disallowed(k, i);
    }
    assert Permitted(k, j, u);
  }

  // ----- the matcher

  /** Letting the `*` before rp take at least one more character than str[..i] leads to a match. */
  ghost predicate Retry(k: Call, rp: nat, i: nat)
    requires NUL !in k.pat && rp <= |k.pat|
  {
    exists t: nat :: i < t && Permitted(k, i, t) && Match(k, rp, t)
  }

  lemma StarUnfolds(k: Call, p: nat, i: nat)
    requires NUL !in k.pat && IsStar(k, p) && i <= |k.str|
    ensures Match(k, p, i) <==>
      !(At(k.pat, p + 1) == DOT && Disallowed(k, i)) && (Match(k, p + 1, i) || Retry(k, p + 1, i))
  {
    if Match(k, p + 1, i) {
      assert Permitted(k, i, i);
    }
  }

  lemma RetryUnfolds(k: Call, rp: nat, i: nat)
    requires NUL !in k.pat && rp <= |k.pat| && i < |k.str|
    ensures Retry(k, rp, i) <==> !Disallowed(k, i) && (Match(k, rp, i + 1) || Retry(k, rp, i + 1))
  {}

  /** When a new `*` is reached, the old one need not be retried. */
  lemma StarTakesOver(k: Call, rp: nat, i: nat, q: nat, j: nat)
    requires ValidCall(k) && Path(k, rp, i, q, j) && IsStar(k, q)
    ensures Retry(k, rp, i) ==> Match(k, q, j)
  {
    if Retry(k, rp, i) {
      var t: nat :| i < t && Permitted(k, i, t) && Match(k, rp, t);
      LastStarDominates(k, rp, i, q, j, t);
    }
  }

  /** Where the string is used up, or the pattern is broken, retrying is in vain. */
  lemma RetryInVain(k: Call, rp: nat, i: nat, q: nat, j: nat)
    requires NUL !in k.pat && Path(k, rp, i, q, j)
    requires j == |k.str| || (IsEscape(k, q) && q + 1 == |k.pat|)
    ensures !Retry(k, rp, i)
  {
    if Retry(k, rp, i) {
      var t: nat :| i < t && Permitted(k, i, t) && Match(k, rp, t);
      PathShift(k, rp, i, q, j, t - i);
    }
  }

  /** The cases `?`, `[` and the default of the switch: Done(b) returns, Go(n) goes on at n. */
  datatype Verdict = Done(result: bool) | Go(next: nat) | Mismatch

  method MatchOne(k: Call, p0: nat, s: nat) returns (r: Verdict)
    requires ValidCall(k) && p0 <= |k.pat| && s <= |k.str| && !IsStar(k, p0)
    ensures r.Done? ==> r.result == Match(k, p0, s)
    ensures r == Done(false) ==> IsEscape(k, p0) && p0 + 1 == |k.pat|
    ensures r.Mismatch? ==> !Match(k, p0, s)
    ensures r.Go? ==> IsElement(k, p0) && s < |k.str| && Takes(k, p0, s) && r.next == After(k, p0)
  {
    var pat, str, p := k.pat, k.str, p0;
    if At(pat, p) == QUESTION {
      return if Disallowed(k, s) then Mismatch else Go(p + 1);
    }
    if At(pat, p) == OPEN {
      if Disallowed(k, s) {
        return Mismatch;
      }
      var c := MatchClass(k, p + 1, str[s]);
      return if c < 0 then Mismatch else Go(c + 1);
    }
    if IsEscape(k, p) {
      p := p + 1;
      if p == |pat| {
        return Done(false);
      }
    }
    if At(str, s) == SLASH && At(pat, p) == NUL && k.flags.leadingDir {
      return Done(true);
    }
    if !CmpFold(k, At(pat, p), At(str, s)) {
      return Mismatch;
    }
    if s == |str| {
      return Done(true);
    }
    return Go(p + 1);
  }

  /** wfnmatch: true stands for the return value 0. */
  method Wfnmatch(k: Call) returns (matched: bool)
    requires ValidCall(k)
    ensures matched <==> Match(k, 0, 0)
  {
    var pat, str := k.pat, k.str;
    var p, s := 0, 0;
    var retryP: int, skipS := -1, 0;
    while true
      invariant 0 <= p <= |pat| && 0 <= s <= |str| && -1 <= retryP <= p && 0 <= skipS <= s
      invariant retryP == -1 ==> (Match(k, 0, 0) <==> Match(k, p, s))
      invariant retryP >= 0 ==> Path(k, retryP, skipS, p, s)
      invariant retryP >= 0 ==> (Match(k, 0, 0) <==> Match(k, p, s) || Retry(k, retryP, skipS))
      decreases |pat| - retryP, |str| - skipS, |pat| - p
    {
      if At(pat, p) == STAR {
        if retryP >= 0 {
          StarTakesOver(k, retryP, skipS, p, s);
        }
        StarUnfolds(k, p, s);
        retryP, skipS := p + 1, s;
        if At(pat, p + 1) == DOT && Disallowed(k, s) {
          return false;
        }
        p := p + 1;
      } else {
        var r := MatchOne(k, p, s);
        if retryP >= 0 && (r == Done(false) || s == |str|) {
          RetryInVain(k, retryP, skipS, p, s);
        }
        match r
        case Done(result) =>
          return result;
        case Go(next) =>
          if retryP >= 0 {
            PathStep(k, retryP, skipS, p, s);
          }
          p, s := next, s + 1;
        case Mismatch =>
          if retryP == -1 || s == |str| {
            return false;
          }
          RetryUnfolds(k, retryP, skipS);
          s, skipS, p := skipS, skipS + 1, retryP;
          if s == |str| {
            return p == |pat|;
          }
          if Disallowed(k, s) {
            return false;
          }
          s := s + 1;
      }
    }
  }
}
