/** What the patterns of usual/fnmatch.c mean.

 A pattern is described by its parts: characters, escaped characters, `?`, bracket expressions and
 `*`.  `Means` says which strings such a description stands for, without the functions of the
 matcher; the main result is that the text of the description matches exactly these strings,
 for every combination of flags.
 */
module GlobMeaning {
  import opened Prelude
  import opened Fnmatch

  // ----- descriptions and their texts

  function Ch(c: char): WChar { c as int }

  datatype Member = Single(c: WChar) | Interval(lo: WChar, hi: WChar) | Class(name: seq<WChar>)

  /** A bracket expression may list a closing bracket first, unescaped. */
  datatype Part =
    | Char(c: WChar)
    | Escaped(c: WChar)
    | Question
    | Set(neg: bool, mark: WChar, closeFirst: bool, members: seq<Member>)
    | Star

  /** Characters that need no escape inside brackets. */
  predicate Plain(f: Flags, c: WChar) {
    c !in {NUL, Ch(']'), Ch('['), Ch('-'), Ch('!'), Ch('^')} && (c == Ch('\\') ==> f.noEscape)
  }

  function CharText(f: Flags, c: WChar): (t: seq<WChar>)
    ensures t != []
  {
    if Plain(f, c) then [c] else [Ch('\\'), c]
  }

  function MemberText(f: Flags, m: Member): (t: seq<WChar>)
    ensures t != []
  {
    match m
    case Single(c) => CharText(f, c)
    case Interval(lo, hi) => CharText(f, lo) + ([Ch('-')] + CharText(f, hi))
    case Class(name) => [Ch('['), Ch(':')] + (name + [Ch(':'), Ch(']')])
  }

  function MembersText(f: Flags, ms: seq<Member>): seq<WChar> {
    if ms == [] then [] else MemberText(f, ms[0]) + MembersText(f, ms[1..])
  }

  function SetText(f: Flags, s: Part): seq<WChar>
    requires s.Set?
  {
    if s.neg then [s.mark] + BodyText(f, s) else BodyText(f, s)
  }

  function BodyText(f: Flags, s: Part): seq<WChar>
    requires s.Set?
  {
    (if s.closeFirst then [Ch(']')] else []) + (MembersText(f, s.members) + [Ch(']')])
  }

  function PartText(f: Flags, x: Part): (t: seq<WChar>)
    ensures t != []
  {
    match x
    case Char(c) => [c]
    case Escaped(c) => [Ch('\\'), c]
    case Question => [Ch('?')]
    case Set(_, _, _, _) => [Ch('[')] + SetText(f, x)
    case Star => [Ch('*')]
  }

  function Text(f: Flags, g: seq<Part>): seq<WChar> {
    if g == [] then [] else PartText(f, g[0]) + Text(f, g[1..])
  }

  /** Escapes are there to use, classes are known. */
  predicate GoodChar(f: Flags, c: WChar) { c != NUL && (Plain(f, c) || !f.noEscape) }

  ghost predicate GoodMember(k: Call, m: Member) {
    match m
    case Single(c) => GoodChar(k.flags, c)
    case Interval(lo, hi) => GoodChar(k.flags, lo) && GoodChar(k.flags, hi)
    case Class(name) => Ch(':') !in name && NUL !in name && k.loc.isClassName(name)
  }

  ghost predicate GoodMembers(k: Call, ms: seq<Member>) { forall i :: 0 <= i < |ms| ==> GoodMember(k, ms[i]) }

  ghost predicate GoodPart(k: Call, x: Part) {
    match x
    case Char(c) => c !in {NUL, Ch('*'), Ch('?'), Ch('[')} && (c == Ch('\\') ==> k.flags.noEscape)
    case Escaped(c) => c != NUL && !k.flags.noEscape
    case Question => true
    case Set(neg, mark, closeFirst, members) =>
      (mark == Ch('!') || mark == Ch('^')) && (closeFirst || members != []) && GoodMembers(k, members)
    case Star => true
  }

  ghost predicate Good(k: Call, g: seq<Part>) { forall i :: 0 <= i < |g| ==> GoodPart(k, g[i]) }

  // ----- what they stand for

  /** Equal, or with FNM_CASEFOLD the two cases of one letter. */
  predicate Same(k: Call, a: WChar, b: WChar) {
    || a == b
    || (k.flags.caseFold && k.loc.isUpper(a) && k.loc.isLower(b) && k.loc.toUpper(b) == a)
    || (k.flags.caseFold && !(k.loc.isUpper(a) && k.loc.isLower(b))
        && k.loc.isLower(a) && k.loc.isUpper(b) && k.loc.toLower(b) == a)
  }

  /** From lo to hi; with FNM_CASEFOLD a letter also counts in the case of both ends. */
  predicate Between(k: Call, lo: WChar, x: WChar, hi: WChar) {
    || (lo <= x && x <= hi)
    || (k.flags.caseFold && k.loc.isLower(lo) && k.loc.isLower(hi) && k.loc.isUpper(x)
        && lo <= k.loc.toLower(x) && k.loc.toLower(x) <= hi)
    || (k.flags.caseFold && !(k.loc.isLower(lo) && k.loc.isLower(hi) && k.loc.isUpper(x))
        && k.loc.isUpper(lo) && k.loc.isUpper(hi) && k.loc.isLower(x)
        && lo <= k.loc.toUpper(x) && k.loc.toUpper(x) <= hi)
  }

  predicate Within(k: Call, m: Member, x: WChar) {
    match m
    case Single(c) => Same(k, x, c)
    case Interval(lo, hi) => Between(k, lo, x, hi)
    case Class(name) => k.loc.inClass(name, x)
  }

  ghost predicate Listed(k: Call, s: Part, x: WChar)
    requires s.Set?
  {
    (s.closeFirst && Same(k, x, Ch(']'))) || exists i :: 0 <= i < |s.members| && Within(k, s.members[i], x)
  }

  /** A wildcard may take the character at i: no slash with FNM_PATHNAME, and with FNM_PERIOD no
      dot at the start, nor behind a slash with FNM_PATHNAME. */
  ghost predicate Wild(k: Call, i: nat) {
    && i < |k.str|
    && (k.flags.pathname ==> k.str[i] != Ch('/'))
    && (k.flags.period && k.str[i] == Ch('.') ==> i > 0 && !(k.flags.pathname && k.str[i - 1] == Ch('/')))
  }

  /** A `*` may take str[i..j]. */
  ghost predicate AllWild(k: Call, i: nat, j: nat) { i <= j && forall x :: i <= x < j ==> Wild(k, x) }

  /** The string from i on is one that the parts stand for.  A `*` before a dot does not stand
      where no wildcard may. */
  ghost predicate Means(k: Call, g: seq<Part>, i: nat)
    decreases |g|
  {
    i <= |k.str| &&
    if g == [] then i == |k.str| || (k.flags.leadingDir && k.str[i] == Ch('/'))
    else
      match g[0]
      case Char(c) => i < |k.str| && Same(k, c, k.str[i]) && Means(k, g[1..], i + 1)
      case Escaped(c) => i < |k.str| && Same(k, c, k.str[i]) && Means(k, g[1..], i + 1)
      case Question => Wild(k, i) && Means(k, g[1..], i + 1)
      case Set(neg, _, _, _) => Wild(k, i) && Listed(k, g[0], k.str[i]) != neg && Means(k, g[1..], i + 1)
      case Star =>
        && (|g| > 1 && g[1] == Char(Ch('.')) ==> Wild(k, i))
        && exists j: nat :: AllWild(k, i, j) && Means(k, g[1..], j)
  }

  // ----- pieces of the pattern

  /** The pattern has t at i, and then tail. */
  ghost predicate Has(p: seq<WChar>, i: nat, t: seq<WChar>, tail: seq<WChar>) {
    i <= |p| && p[i..] == t + tail
  }

  lemma HasChar(p: seq<WChar>, i: nat, t: seq<WChar>, tail: seq<WChar>, x: nat)
    requires Has(p, i, t, tail) && x < |t|
    ensures i + x < |p| && p[i + x] == t[x]
  {
    assert p[i..][x] == t[x];
  }

  lemma HasRest(p: seq<WChar>, i: nat, t: seq<WChar>, u: seq<WChar>, tail: seq<WChar>)
    requires Has(p, i, t + u, tail)
    ensures Has(p, i, t, u + tail) && Has(p, i + |t|, u, tail)
  {
    Assoc(t, u, tail);
    assert p[i + |t|..] == p[i..][|t|..] == u + tail;
  }

  lemma HasTail(p: seq<WChar>, i: nat, t: seq<WChar>, tail: seq<WChar>)
    requires Has(p, i, t, tail)
    ensures i + |t| <= |p| && p[i + |t|..] == tail
  {
    assert p[i + |t|..] == p[i..][|t|..];
  }

  // ----- bracket expressions

  function ItemOf(m: Member): Item {
    match m
    case Single(c) => One(c)
    case Interval(lo, hi) => Range(lo, hi)
    case Class(name) => Named(name)
  }

  function ItemsOf(ms: seq<Member>): (r: seq<Item>)
    ensures |r| == |ms|
  {
    seq(|ms|, i requires 0 <= i < |ms| => ItemOf(ms[i]))
  }

  /** Something that does not go on as a range. */
  predicate EndsMember(tail: seq<WChar>) { tail != [] && tail[0] != Ch('-') }

  /** Where the character itself stands in its text. */
  function CharAt(f: Flags, c: WChar, i: nat): nat { if Plain(f, c) then i else i + 1 }

  lemma CharHere(k: Call, i: nat, c: WChar, tail: seq<WChar>)
    requires Has(k.pat, i, CharText(k.flags, c), tail) && GoodChar(k.flags, c)
    ensures var j := CharAt(k.flags, c, i);
            j < |k.pat| && k.pat[j] == c && k.pat[j + 1..] == tail && i + |CharText(k.flags, c)| == j + 1
    ensures Here(k, i, c)
  {
    HasChar(k.pat, i, CharText(k.flags, c), tail, 0);
    HasTail(k.pat, i, CharText(k.flags, c), tail);
    if !Plain(k.flags, c) {
      HasChar(k.pat, i, CharText(k.flags, c), tail, 1);
    }
  }

  lemma SingleParsed(k: Call, start: nat, i: nat, c: WChar, tail: seq<WChar>)
    requires NUL !in k.pat && Has(k.pat, i, CharText(k.flags, c), tail) && GoodChar(k.flags, c) && EndsMember(tail)
    ensures NextPiece(k, start, i) == Piece(One(c), i + |CharText(k.flags, c)|)
  {
    CharHere(k, i, c, tail);
    var j := CharAt(k.flags, c, i);
    assert k.pat[j + 1] == k.pat[j + 1..][0] == tail[0];
    FirstRead(k, start, i, c, Piece(One(c), j + 1));
  }

  lemma IntervalParsed(k: Call, start: nat, i: nat, lo: WChar, hi: WChar, tail: seq<WChar>)
    requires NUL !in k.pat && Has(k.pat, i, MemberText(k.flags, Interval(lo, hi)), tail)
    requires GoodChar(k.flags, lo) && GoodChar(k.flags, hi)
    ensures NextPiece(k, start, i) == Piece(Range(lo, hi), i + |MemberText(k.flags, Interval(lo, hi))|)
  {
    IntervalHere(k, i, lo, hi, tail);
    var j := CharAt(k.flags, lo, i);
    RangeRead(k, j, lo, hi);
    FirstRead(k, start, i, lo, CharOrRange(k, j));
  }

  /** Where the two ends and the dash stand. */
  lemma IntervalHere(k: Call, i: nat, lo: WChar, hi: WChar, tail: seq<WChar>)
    requires Has(k.pat, i, MemberText(k.flags, Interval(lo, hi)), tail)
    requires GoodChar(k.flags, lo) && GoodChar(k.flags, hi)
    ensures var j, h := CharAt(k.flags, lo, i), CharAt(k.flags, hi, CharAt(k.flags, lo, i) + 2);
            && h < |k.pat| && Here(k, i, lo) && k.pat[j + 1] == DASH && Here(k, j + 2, hi)
            && i + |MemberText(k.flags, Interval(lo, hi))| == h + 1
  {
    var f, p := k.flags, k.pat;
    var tl, th := CharText(f, lo), CharText(f, hi);
    HasRest(p, i, tl, [DASH] + th, tail);
    CharHere(k, i, lo, [DASH] + th + tail);
    HasRest(p, i + |tl|, [DASH], th, tail);
    HasChar(p, i + |tl|, [DASH], th + tail, 0);
    CharHere(k, i + |tl| + 1, hi, tail);
  }

  /** The character c stands at i, escaped if need be. */
  predicate Here(k: Call, i: nat, c: WChar) {
    && i < |k.pat| && GoodChar(k.flags, c)
    && k.pat[i] != OPEN && k.pat[i] != CLOSE && k.pat[i] != DASH && k.pat[i] != NUL
    && (if Plain(k.flags, c) then k.pat[i] == c else k.pat[i] == BACKSLASH && i + 1 < |k.pat| && k.pat[i + 1] == c)
  }

  lemma RangeRead(k: Call, j: nat, lo: WChar, hi: WChar)
    requires NUL !in k.pat && j + 2 < |k.pat| && k.pat[j] == lo && k.pat[j + 1] == DASH && Here(k, j + 2, hi)
    ensures CharOrRange(k, j) == Piece(Range(lo, hi), CharAt(k.flags, hi, j + 2) + 1)
  {}

  lemma FirstRead(k: Call, start: nat, i: nat, c: WChar, r: Piece)
    requires NUL !in k.pat && Here(k, i, c) && CharOrRange(k, CharAt(k.flags, c, i)) == r
    ensures NextPiece(k, start, i) == r
  {}

  lemma FindIs(p: seq<WChar>, i: nat, n: nat, c: WChar)
    requires i <= n < |p| && p[n] == c && forall x :: i <= x < n ==> p[x] != c
    ensures Find(p, i, c) == n
  {}

  lemma ClassFound(k: Call, i: nat, name: seq<WChar>, tail: seq<WChar>)
    requires Has(k.pat, i, MemberText(k.flags, Class(name)), tail) && COLON !in name
    ensures var n := i + 2 + |name|;
            && i + 1 < n && n + 1 < |k.pat| && HasNamed(k.pat, i) && k.pat[i + 1] == COLON
            && Find(k.pat, i + 2, COLON) == n && k.pat[i + 2..n] == name && k.pat[i] == OPEN
  {
    var p, t, n := k.pat, MemberText(k.flags, Class(name)), i + 2 + |name|;
    HasChar(p, i, t, tail, 0);
    HasChar(p, i, t, tail, 1);
    HasChar(p, i, t, tail, 2 + |name|);
    HasChar(p, i, t, tail, 3 + |name|);
    forall x: nat | x < |name| ensures p[i + 2 + x] == name[x] {
      HasChar(p, i, t, tail, 2 + x);
      assert t[2 + x] == name[x];
    }
    forall x: nat | i + 2 <= x < n ensures p[x] != COLON {
      assert p[i + 2 + (x - i - 2)] == name[x - i - 2];
    }
    FindIs(p, i + 2, n, COLON);
    assert p[i + 2..n] == name;
  }

  lemma ClassParsed(k: Call, start: nat, i: nat, name: seq<WChar>, tail: seq<WChar>)
    requires NUL !in k.pat && Has(k.pat, i, MemberText(k.flags, Class(name)), tail) && GoodMember(k, Class(name))
    ensures NextPiece(k, start, i) == Piece(Named(name), i + |MemberText(k.flags, Class(name))|)
  {
    ClassFound(k, i, name, tail);
    NamedRead(k, start, i, i + 2 + |name|, name);
  }

  lemma NamedRead(k: Call, start: nat, i: nat, n: nat, name: seq<WChar>)
    requires NUL !in k.pat && i + 2 <= n && n + 1 < |k.pat| && HasNamed(k.pat, i) && k.pat[i + 1] == COLON
    requires Find(k.pat, i + 2, COLON) == n && k.pat[i + 2..n] == name && k.loc.isClassName(name)
    ensures NextPiece(k, start, i) == Piece(Named(name), n + 2)
  {}

  /** One member is read as the item it describes. */
  lemma MemberParsed(k: Call, start: nat, i: nat, m: Member, tail: seq<WChar>)
    requires NUL !in k.pat && Has(k.pat, i, MemberText(k.flags, m), tail) && GoodMember(k, m) && EndsMember(tail)
    ensures NextPiece(k, start, i) == Piece(ItemOf(m), i + |MemberText(k.flags, m)|)
  {
    match m
    case Single(c) => SingleParsed(k, start, i, c, tail);
    case Interval(lo, hi) => IntervalParsed(k, start, i, lo, hi, tail);
    case Class(name) => ClassParsed(k, start, i, name, tail);
  }

  lemma MembersEnd(k: Call, ms: seq<Member>, tail: seq<WChar>)
    requires GoodMembers(k, ms) && EndsMember(tail)
    ensures EndsMember(MembersText(k.flags, ms) + tail)
  {
    if ms != [] {
      assert MemberText(k.flags, ms[0])[0] != Ch('-');
      assert (MembersText(k.flags, ms) + tail)[0] == MemberText(k.flags, ms[0])[0];
    } else {
      assert MembersText(k.flags, ms) + tail == tail;
    }
  }

  lemma {:induction false} MembersParsed(
    k: Call, neg: bool, start: nat, i: nat, literal: bool, items: seq<Item>, ms: seq<Member>, tail: seq<WChar>)
    requires NUL !in k.pat && Has(k.pat, i, MembersText(k.flags, ms), [CLOSE] + tail) && GoodMembers(k, ms)
    requires start <= i && (i == start ==> ms != [])
    ensures ParseItems(k, neg, start, i, literal, items)
         == Closed(neg, items + ItemsOf(ms), i + |MembersText(k.flags, ms)|)
    decreases |ms|
  {
    if ms == [] {
      CloseParsed(k, start, i, tail);
      ParsePiece(k, neg, start, i, literal, items);
      assert items + ItemsOf(ms) == items;
    } else {
      var item, n := ItemOf(ms[0]), i + |MemberText(k.flags, ms[0])|;
      FirstParsed(k, start, i, ms, tail);
      PieceThen(k, neg, start, i, literal, items, item, n);
      MembersParsed(k, neg, start, n, literal && !item.Named?, items + [item], ms[1..], tail);
      FirstItem(items, ms);
    }
  }

  lemma FirstItem(items: seq<Item>, ms: seq<Member>)
    requires ms != []
    ensures items + [ItemOf(ms[0])] + ItemsOf(ms[1..]) == items + ItemsOf(ms)
  {}

  lemma PieceThen(k: Call, neg: bool, start: nat, i: nat, literal: bool, items: seq<Item>, item: Item, n: nat)
    requires NUL !in k.pat && i <= |k.pat| && NextPiece(k, start, i) == Piece(item, n)
    ensures n <= |k.pat|
    ensures ParseItems(k, neg, start, i, literal, items)
         == ParseItems(k, neg, start, n, literal && !item.Named?, items + [item])
  {
    ParsePiece(k, neg, start, i, literal, items);
  }

  lemma CloseParsed(k: Call, start: nat, i: nat, tail: seq<WChar>)
    requires NUL !in k.pat && Has(k.pat, i, [], [CLOSE] + tail) && start < i
    ensures NextPiece(k, start, i) == PieceClose
  {
    assert k.pat[i] == k.pat[i..][0] == CLOSE;
  }

  lemma FirstParsed(k: Call, start: nat, i: nat, ms: seq<Member>, tail: seq<WChar>)
    requires NUL !in k.pat && Has(k.pat, i, MembersText(k.flags, ms), [CLOSE] + tail) && GoodMembers(k, ms) && ms != []
    ensures var n := i + |MemberText(k.flags, ms[0])|;
            NextPiece(k, start, i) == Piece(ItemOf(ms[0]), n)
              && Has(k.pat, n, MembersText(k.flags, ms[1..]), [CLOSE] + tail)
  {
    var t, u := MemberText(k.flags, ms[0]), MembersText(k.flags, ms[1..]);
    HasRest(k.pat, i, t, u, [CLOSE] + tail);
    MembersEnd(k, ms[1..], [CLOSE] + tail);
    MemberParsed(k, start, i, ms[0], u + ([CLOSE] + tail));
  }

  function AllItems(s: Part): seq<Item>
    requires s.Set?
  {
    (if s.closeFirst then [One(CLOSE)] else []) + ItemsOf(s.members)
  }

  /** A bracket expression is read as its items, up to its last bracket. */
  lemma SetParsed(k: Call, i: nat, s: Part, tail: seq<WChar>)
    requires NUL !in k.pat && s.Set? && GoodPart(k, s) && Has(k.pat, i, SetText(k.flags, s), tail)
    ensures ParseBracket(k, i) == Closed(s.neg, AllItems(s), i + |SetText(k.flags, s)| - 1)
  {
    if s.neg {
      NegParsed(k, i, s, tail);
    } else {
      BodyFirst(k, i, s, tail);
      BodyParsed(k, i, s, tail);
      SetStarts(k, i, false);
    }
  }

  lemma NegParsed(k: Call, i: nat, s: Part, tail: seq<WChar>)
    requires NUL !in k.pat && s.Set? && s.neg && GoodPart(k, s) && Has(k.pat, i, SetText(k.flags, s), tail)
    ensures ParseBracket(k, i) == Closed(true, AllItems(s), i + |SetText(k.flags, s)| - 1)
  {
    var body := BodyText(k.flags, s);
    HasRest(k.pat, i, [s.mark], body, tail);
    HasChar(k.pat, i, [s.mark], body + tail, 0);
    BodyParsed(k, i + 1, s, tail);
    SetStarts(k, i, true);
  }

  lemma SetStarts(k: Call, i: nat, neg: bool)
    requires NUL !in k.pat && i < |k.pat| && (neg <==> k.pat[i] == BANG || k.pat[i] == CARET)
    ensures var start := if neg then i + 1 else i; ParseBracket(k, i) == ParseItems(k, neg, start, start, true, [])
  {}

  lemma BodyFirst(k: Call, i: nat, s: Part, tail: seq<WChar>)
    requires s.Set? && GoodPart(k, s) && Has(k.pat, i, BodyText(k.flags, s), tail)
    ensures i < |k.pat| && k.pat[i] != BANG && k.pat[i] != CARET
  {
    HasChar(k.pat, i, BodyText(k.flags, s), tail, 0);
    if !s.closeFirst {
      assert BodyText(k.flags, s)[0] == MemberText(k.flags, s.members[0])[0];
    }
  }

  lemma BodyParsed(k: Call, start: nat, s: Part, tail: seq<WChar>)
    requires NUL !in k.pat && s.Set? && GoodPart(k, s) && Has(k.pat, start, BodyText(k.flags, s), tail)
    ensures ParseItems(k, s.neg, start, start, true, [])
      == Closed(s.neg, AllItems(s), start + |BodyText(k.flags, s)| - 1)
  {
    var f, t := k.flags, MembersText(k.flags, s.members);
    if s.closeFirst {
      CloseBodyParsed(k, start, s, tail);
    } else {
      assert BodyText(f, s) == t + [CLOSE];
      HasRest(k.pat, start, t, [CLOSE], tail);
      MembersParsed(k, s.neg, start, start, true, [], s.members, tail);
    }
  }

  lemma CloseBodyParsed(k: Call, start: nat, s: Part, tail: seq<WChar>)
    requires NUL !in k.pat && s.Set? && s.closeFirst && GoodPart(k, s) && Has(k.pat, start, BodyText(k.flags, s), tail)
    ensures ParseItems(k, s.neg, start, start, true, [])
      == Closed(s.neg, AllItems(s), start + |BodyText(k.flags, s)| - 1)
  {
    var t := MembersText(k.flags, s.members);
    HasRest(k.pat, start, [CLOSE], t + [CLOSE], tail);
    HasRest(k.pat, start + 1, t, [CLOSE], tail);
    CloseFirstParsed(k, start, s, tail);
    PieceThen(k, s.neg, start, start, true, [], One(CLOSE), start + 1);
    assert [] + [One(CLOSE)] == [One(CLOSE)];
    MembersParsed(k, s.neg, start, start + 1, true, [One(CLOSE)], s.members, tail);
  }

  lemma CloseFirstParsed(k: Call, start: nat, s: Part, tail: seq<WChar>)
    requires NUL !in k.pat && s.Set? && GoodPart(k, s)
    requires Has(k.pat, start, [CLOSE], MembersText(k.flags, s.members) + [CLOSE] + tail)
    ensures NextPiece(k, start, start) == Piece(One(CLOSE), start + 1)
  {
    var rest := MembersText(k.flags, s.members) + ([CLOSE] + tail);
    Assoc(MembersText(k.flags, s.members), [CLOSE], tail);
    HasChar(k.pat, start, [CLOSE], rest, 0);
    HasTail(k.pat, start, [CLOSE], rest);
    MembersEnd(k, s.members, [CLOSE] + tail);
    assert k.pat[start + 1] == k.pat[start + 1..][0] == rest[0];
  }

  // ----- what is listed

  lemma SameIsCmpFold(k: Call, a: WChar, b: WChar)
    ensures CmpFold(k, a, b) <==> Same(k, a, b)
  {}

  lemma BetweenIsRangeFold(k: Call, lo: WChar, x: WChar, hi: WChar)
    ensures RangeFold(k, x, lo, hi) <==> Between(k, lo, x, hi)
  {}

  lemma WildIsAllowed(k: Call, i: nat)
    requires i <= |k.str|
    ensures Disallowed(k, i) <==> !Wild(k, i)
  {}

  lemma WithinIsInItem(k: Call, m: Member, x: WChar)
    ensures InItem(k, ItemOf(m), x) <==> Within(k, m, x)
  {
    match m
    case Single(c) => SameIsCmpFold(k, x, c);
    case Interval(lo, hi) => BetweenIsRangeFold(k, lo, x, hi);
    case Class(_) =>
  }

  lemma ListedIsInItems(k: Call, s: Part, x: WChar)
    requires s.Set?
    ensures InItems(k, AllItems(s), x) <==> Listed(k, s, x)
  {
    var items, d := AllItems(s), if s.closeFirst then 1 else 0;
    SameIsCmpFold(k, x, CLOSE);
    forall i | 0 <= i < |s.members| ensures InItem(k, items[i + d], x) <==> Within(k, s.members[i], x) {
      WithinIsInItem(k, s.members[i], x);
    }
    if y :| 0 <= y < |items| && InItem(k, items[y], x) {
      assert y >= d ==> items[y - d + d] == items[y] && Within(k, s.members[y - d], x);
    }
    if s.closeFirst && Same(k, x, CLOSE) {
      assert InItem(k, items[0], x);
    }
    if i :| 0 <= i < |s.members| && Within(k, s.members[i], x) {
      assert InItem(k, items[i + d], x);
    }
  }

  // ----- the main result

  /** The element at p takes the character at i exactly if the part stands for it, and the pattern
      goes on behind the text of the part. */
  ghost predicate Agrees(k: Call, p: nat, x: Part) {
    && NUL !in k.pat && IsElement(k, p) && After(k, p) == p + |PartText(k.flags, x)|
    && forall i :: 0 <= i < |k.str| ==> (Takes(k, p, i) <==> Stands(k, x, i))
  }

  /** A part other than `*` stands for the character at i. */
  ghost predicate Stands(k: Call, x: Part, i: nat)
    requires i < |k.str|
  {
    match x
    case Char(c) => Same(k, c, k.str[i])
    case Escaped(c) => Same(k, c, k.str[i])
    case Question => Wild(k, i)
    case Set(neg, _, _, _) => Wild(k, i) && Listed(k, x, k.str[i]) != neg
    case Star => false
  }

  lemma CharAgrees(k: Call, p: nat, x: Part, tail: seq<WChar>)
    requires NUL !in k.pat && (x.Char? || x.Escaped? || x.Question?) && GoodPart(k, x)
    requires Has(k.pat, p, PartText(k.flags, x), tail)
    ensures Agrees(k, p, x)
  {
    HasChar(k.pat, p, PartText(k.flags, x), tail, 0);
    if x.Escaped? {
      HasChar(k.pat, p, PartText(k.flags, x), tail, 1);
    }
    forall i | 0 <= i < |k.str| ensures Takes(k, p, i) <==> Stands(k, x, i) {
      WildIsAllowed(k, i);
      if !x.Question? {
        SameIsCmpFold(k, x.c, k.str[i]);
      }
    }
  }

  lemma SetAgrees(k: Call, p: nat, x: Part, tail: seq<WChar>)
    requires NUL !in k.pat && x.Set? && GoodPart(k, x) && Has(k.pat, p, PartText(k.flags, x), tail)
    ensures Agrees(k, p, x)
  {
    SetHere(k, p, x, tail);
    forall i | 0 <= i < |k.str| ensures Takes(k, p, i) <==> Stands(k, x, i) {
      SetTakes(k, p, x, i, p + |SetText(k.flags, x)|);
    }
  }

  lemma SetHere(k: Call, p: nat, x: Part, tail: seq<WChar>)
    requires NUL !in k.pat && x.Set? && GoodPart(k, x) && Has(k.pat, p, PartText(k.flags, x), tail)
    ensures p + |SetText(k.flags, x)| < |k.pat| && k.pat[p] == OPEN
    ensures ParseBracket(k, p + 1) == Closed(x.neg, AllItems(x), p + |SetText(k.flags, x)|)
  {
    HasRest(k.pat, p, [OPEN], SetText(k.flags, x), tail);
    HasChar(k.pat, p, [OPEN], SetText(k.flags, x) + tail, 0);
    SetParsed(k, p + 1, x, tail);
  }

  lemma SetTakes(k: Call, p: nat, x: Part, i: nat, close: nat)
    requires NUL !in k.pat && p < |k.pat| && k.pat[p] == OPEN && x.Set? && i < |k.str|
    requires ParseBracket(k, p + 1) == Closed(x.neg, AllItems(x), close)
    ensures Takes(k, p, i) <==> Stands(k, x, i)
  {
    WildIsAllowed(k, i);
    ListedIsInItems(k, x, k.str[i]);
  }

  lemma PartAgrees(k: Call, p: nat, x: Part, tail: seq<WChar>)
    requires NUL !in k.pat && !x.Star? && GoodPart(k, x) && Has(k.pat, p, PartText(k.flags, x), tail)
    ensures Agrees(k, p, x)
  {
    if x.Set? { SetAgrees(k, p, x, tail); } else { CharAgrees(k, p, x, tail); }
  }

  /** A dot behind a `*` is one that the description has as a character. */
  lemma DotBehind(k: Call, p: nat, g: seq<Part>)
    requires Describes(k, p, g)
    ensures At(k.pat, p) == DOT <==> g != [] && g[0] == Char(Ch('.'))
  {
    DescribesIsWritten(|g| + 3, k, p, g);
    if g != [] {
      HasChar(k.pat, p, PartText(k.flags, g[0]), Text(k.flags, g[1..]), 0);
    }
  }

  /** The pattern from p on is the text of the description g. */
  ghost predicate Written(k: Call, p: nat, g: seq<Part>) {
    NUL !in k.pat && Good(k, g) && p <= |k.pat| && k.pat[p..] == Text(k.flags, g)
  }

  /** Written, under layers that keep the verifier from unfolding it where it is only passed on. */
  ghost predicate Describes(k: Call, p: nat, g: seq<Part>) { DescribesIn(|g| + 3, k, p, g) }

  ghost predicate DescribesIn(layers: nat, k: Call, p: nat, g: seq<Part>) {
    if layers > 0 then DescribesIn(layers - 1, k, p, g) else Written(k, p, g)
  }

  lemma {:induction false} DescribesIsWritten(layers: nat, k: Call, p: nat, g: seq<Part>)
    ensures DescribesIn(layers, k, p, g) <==> Written(k, p, g)
  {
    if layers > 0 {
      DescribesIsWritten(layers - 1, k, p, g);
    }
  }

  lemma DescribesRest(k: Call, p: nat, g: seq<Part>) returns (n: nat, rest: seq<WChar>)
    requires Describes(k, p, g) && g != []
    ensures n <= |k.pat| && Describes(k, n, g[1..]) && Begins(k, p, g[0], n, rest)
  {
    DescribesIsWritten(|g| + 3, k, p, g);
    n, rest := p + |PartText(k.flags, g[0])|, Text(k.flags, g[1..]);
    HasTail(k.pat, p, PartText(k.flags, g[0]), rest);
    DescribesIsWritten(|g[1..]| + 3, k, n, g[1..]);
  }

  /** The pattern has the text of the part x from p to n. */
  ghost predicate Begins(k: Call, p: nat, x: Part, n: nat, rest: seq<WChar>) {
    && GoodPart(k, x) && n == p + |PartText(k.flags, x)| && Has(k.pat, p, PartText(k.flags, x), rest)
  }

  /** The text of a description matches exactly the strings that it stands for. */
  lemma {:induction false} GlobExactly(k: Call, p: nat, g: seq<Part>, i: nat)
    requires NUL !in k.pat && p <= |k.pat| && Describes(k, p, g) && i <= |k.str|
    ensures Match(k, p, i) <==> Means(k, g, i)
    decreases |g|, 1
  {
    if g == [] {
      DescribesIsWritten(|g| + 3, k, p, g);
      assert p == |k.pat|;
    } else if g[0].Star? {
      StarCase(k, p, g, i);
    } else {
      ElementCase(k, p, g, i);
    }
  }

  lemma {:induction false} ElementCase(k: Call, p: nat, g: seq<Part>, i: nat)
    requires NUL !in k.pat && p <= |k.pat| && Describes(k, p, g) && i <= |k.str| && g != [] && !g[0].Star?
    ensures Match(k, p, i) <==> Means(k, g, i)
    decreases |g|, 0
  {
    var n := HeadMatches(k, p, g, i);
    if i < |k.str| {
      GlobExactly(k, n, g[1..], i + 1);
    }
    MeansElement(k, g[0], g[1..], i);
    FirstAndRest(g);
  }

  lemma HeadMatches(k: Call, p: nat, g: seq<Part>, i: nat) returns (n: nat)
    requires NUL !in k.pat && p <= |k.pat| && Describes(k, p, g) && i <= |k.str| && g != [] && !g[0].Star?
    ensures n <= |k.pat| && Describes(k, n, g[1..])
    ensures Match(k, p, i) <==> i < |k.str| && Stands(k, g[0], i) && Match(k, n, i + 1)
  {
    var rest;
    n, rest := DescribesRest(k, p, g);
    PartAgrees(k, p, g[0], rest);
    MatchElement(k, p, g[0], n, i);
  }

  lemma FirstAndRest(g: seq<Part>)
    requires g != []
    ensures [g[0]] + g[1..] == g
  {}

  lemma {:induction false} StarCase(k: Call, p: nat, g: seq<Part>, i: nat)
    requires NUL !in k.pat && p <= |k.pat| && Describes(k, p, g) && i <= |k.str| && g != [] && g[0].Star?
    ensures Match(k, p, i) <==> Means(k, g, i)
    decreases |g|, 0
  {
    var n, rest := DescribesRest(k, p, g);
    HasChar(k.pat, p, PartText(k.flags, g[0]), rest, 0);
    forall j: nat | j <= |k.str| ensures Match(k, p + 1, j) <==> Means(k, g[1..], j) {
      GlobExactly(k, p + 1, g[1..], j);
    }
    DotBehind(k, p + 1, g[1..]);
    StarExactly(k, p, g, i);
  }

  lemma MeansElement(k: Call, x: Part, h: seq<Part>, i: nat)
    requires !x.Star?
    ensures Means(k, [x] + h, i) <==> i < |k.str| && Stands(k, x, i) && Means(k, h, i + 1)
  {
    assert ([x] + h)[1..] == h;
  }

  lemma MatchElement(k: Call, p: nat, x: Part, n: nat, i: nat)
    requires Agrees(k, p, x) && n == p + |PartText(k.flags, x)| && i <= |k.str|
    ensures n <= |k.pat| && (Match(k, p, i) <==> i < |k.str| && Stands(k, x, i) && Match(k, n, i + 1))
  {
    ElementUnfolds(k, p, n, i, i < |k.str| && Stands(k, x, i));
  }

  lemma ElementUnfolds(k: Call, p: nat, n: nat, i: nat, taken: bool)
    requires NUL !in k.pat && IsElement(k, p) && After(k, p) == n && i <= |k.str|
    requires taken <==> i < |k.str| && Takes(k, p, i)
    ensures n <= |k.pat| && (Match(k, p, i) <==> i < |k.str| && taken && Match(k, n, i + 1))
  {}

  lemma StarExactly(k: Call, p: nat, g: seq<Part>, i: nat)
    requires NUL !in k.pat && IsStar(k, p) && g != [] && g[0].Star? && i <= |k.str|
    requires At(k.pat, p + 1) == DOT <==> |g| > 1 && g[1] == Char(Ch('.'))
    requires forall j: nat :: j <= |k.str| ==> (Match(k, p + 1, j) <==> Means(k, g[1..], j))
    ensures Match(k, p, i) <==> Means(k, g, i)
  {
    WildIsAllowed(k, i);
    forall x | 0 <= x <= |k.str| ensures Disallowed(k, x) <==> !Wild(k, x) {
      WildIsAllowed(k, x);
    }
    if Match(k, p, i) {
      var j: nat :| Permitted(k, i, j) && Match(k, p + 1, j);
      assert AllWild(k, i, j) && Means(k, g[1..], j);
    }
    if Means(k, g, i) {
      var j: nat :| AllWild(k, i, j) && Means(k, g[1..], j);
      assert Permitted(k, i, j);
    }
  }

  /** For a whole pattern: wfnmatch succeeds exactly on the strings that its description stands for. */
  lemma PatternExactly(k: Call, g: seq<Part>)
    requires NUL !in k.pat && Good(k, g) && k.pat == Text(k.flags, g)
    ensures Match(k, 0, 0) <==> Means(k, g, 0)
  {
    assert k.pat[0..] == k.pat;
    DescribesIsWritten(|g| + 3, k, 0, g);
    GlobExactly(k, 0, g, 0);
  }

  // ----- some patterns

  function Chars(w: seq<WChar>): (g: seq<Part>)
    ensures |g| == |w|
  {
    seq(|w|, i requires 0 <= i < |w| => Char(w[i]))
  }

  lemma {:induction false} CharsText(f: Flags, w: seq<WChar>)
    ensures Text(f, Chars(w)) == w
  {
    if w != [] {
      CharsText(f, w[1..]);
      assert Chars(w)[1..] == Chars(w[1..]);
    }
  }

  lemma {:induction false} CharsMean(k: Call, w: seq<WChar>, i: nat)
    requires !k.flags.caseFold && i <= |k.str|
    ensures Means(k, Chars(w), i) <==>
      w <= k.str[i..] && (i + |w| == |k.str| || (k.flags.leadingDir && k.str[i + |w|] == Ch('/')))
    decreases |w|
  {
    if w != [] {
      assert Chars(w)[1..] == Chars(w[1..]);
      if i < |k.str| {
        CharsMean(k, w[1..], i + 1);
        assert k.str[i..][1..] == k.str[i + 1..] && k.str[i..][0] == k.str[i];
        assert w == [w[0]] + w[1..];
      }
    }
  }

  /** A pattern of ordinary characters matches exactly itself, and with FNM_LEADING_DIR also what
      goes on with a slash. */
  lemma LiteralPattern(k: Call)
    requires NUL !in k.pat && !k.flags.caseFold && Good(k, Chars(k.pat))
    ensures Match(k, 0, 0) <==>
      k.str == k.pat || (k.flags.leadingDir && k.pat < k.str && k.str[|k.pat|] == Ch('/'))
  {
    CharsText(k.flags, k.pat);
    PatternExactly(k, Chars(k.pat));
    CharsMean(k, k.pat, 0);
    assert k.str[0..] == k.str;
  }

  /** `[lo-hi]` matches exactly the characters from lo to hi that a wildcard may take. */
  lemma RangePattern(k: Call, lo: WChar, hi: WChar, x: WChar)
    requires NUL !in k.pat && !k.flags.caseFold && GoodChar(k.flags, lo) && GoodChar(k.flags, hi) && k.str == [x]
    requires k.pat == Text(k.flags, [Set(false, Ch('!'), false, [Interval(lo, hi)])])
    ensures Match(k, 0, 0) <==> lo <= x <= hi && Wild(k, 0)
  {
    var s := Set(false, Ch('!'), false, [Interval(lo, hi)]);
    PatternExactly(k, [s]);
    SetAlone(k, s, x);
    if lo <= x <= hi {
      assert Within(k, s.members[0], x);
    }
  }

  lemma SetAlone(k: Call, s: Part, x: WChar)
    requires s.Set? && k.str == [x]
    ensures Means(k, [s], 0) <==> Wild(k, 0) && Listed(k, s, x) != s.neg
  {
    MeansElement(k, s, [], 0);
    assert [s] + [] == [s];
  }

  /** With `!` or `^` a bracket expression matches exactly the characters that it does not match
      without, among those that a wildcard may take. */
  lemma NegatedPattern(k: Call, s: Part, x: WChar)
    requires s.Set? && s.neg && GoodPart(k, s) && x != NUL && k.str == [x] && Wild(k, 0)
    requires NUL !in Text(k.flags, [s]) && NUL !in Text(k.flags, [s.(neg := false)])
    ensures Match(k.(pat := Text(k.flags, [s])), 0, 0) <==> !Match(k.(pat := Text(k.flags, [s.(neg := false)])), 0, 0)
  {
    var a, b := k.(pat := Text(k.flags, [s])), k.(pat := Text(k.flags, [s.(neg := false)]));
    PatternExactly(a, [s]);
    PatternExactly(b, [s.(neg := false)]);
    SetAlone(a, s, x);
    SetAlone(b, s.(neg := false), x);
    ListedAlike(a, b, s, x);
  }

  lemma ListedAlike(a: Call, b: Call, s: Part, x: WChar)
    requires s.Set? && a.(pat := []) == b.(pat := [])
    ensures Listed(a, s, x) <==> Listed(b, s.(neg := false), x)
  {
    assert forall m :: Within(a, m, x) <==> Within(b, m, x);
  }

  // ----- case folding in ASCII

  /** The functions of the C locale on letters. */
  ghost predicate Ascii(loc: Locale) {
    forall c: WChar ::
      && (loc.isUpper(c) <==> 'A' as int <= c <= 'Z' as int) && (loc.isLower(c) <==> 'a' as int <= c <= 'z' as int)
      && loc.toLower(c) == (if loc.isUpper(c) then c + 32 else c)
      && loc.toUpper(c) == (if loc.isLower(c) then c - 32 else c)
  }

  predicate Letter(c: WChar) { 'A' as int <= c <= 'Z' as int || 'a' as int <= c <= 'z' as int }

  /** Position in the alphabet. */
  function Position(c: WChar): int { if c <= 'Z' as int then c - 'A' as int else c - 'a' as int }

  /** With FNM_CASEFOLD letters match if they have the same place in the alphabet; other characters
      match themselves. */
  lemma FoldedCharacters(k: Call, a: WChar, b: WChar)
    requires k.flags.caseFold && Ascii(k.loc)
    ensures CmpFold(k, a, b) <==> a == b || (Letter(a) && Letter(b) && Position(a) == Position(b))
  {
    assert k.loc.isUpper(a) || k.loc.isLower(a) <==> Letter(a);
    assert k.loc.toLower(b) == (if k.loc.isUpper(b) then b + 32 else b);
    assert k.loc.toUpper(b) == (if k.loc.isLower(b) then b - 32 else b);
  }

  /** A range between letters of one case takes the letters of either case between its ends. */
  lemma FoldedRange(k: Call, lo: WChar, hi: WChar, x: WChar)
    requires k.flags.caseFold && Ascii(k.loc) && Letter(lo) && Letter(hi) && Letter(x)
    requires k.loc.isUpper(lo) == k.loc.isUpper(hi)
    ensures RangeFold(k, x, lo, hi) <==> Position(lo) <= Position(x) <= Position(hi)
  {
    assert k.loc.isUpper(x) || k.loc.isLower(x);
    assert k.loc.isUpper(lo) || k.loc.isLower(lo);
    assert k.loc.isUpper(hi) || k.loc.isLower(hi);
    assert k.loc.toLower(x) == (if k.loc.isUpper(x) then x + 32 else x);
    assert k.loc.toUpper(x) == (if k.loc.isLower(x) then x - 32 else x);
  }

  // ----- patterns that are not descriptions

  /** An escape at the very end matches nothing. */
  lemma LoneEscape(k: Call, p: nat, i: nat)
    requires NUL !in k.pat && p + 1 == |k.pat| && k.pat[p] == BACKSLASH && !k.flags.noEscape && i <= |k.str|
    ensures !Match(k, p, i)
  {}

  lemma {:induction false} UnclosedParsed(k: Call, start: nat, i: nat, items: seq<Item>)
    requires NUL !in k.pat && start <= i <= |k.pat| && forall x :: i <= x < |k.pat| ==> Plain(k.flags, k.pat[x])
    ensures ParseItems(k, false, start, i, true, items) == Unclosed(true)
    decreases |k.pat| - i
  {
    ParsePiece(k, false, start, i, true, items);
    if i < |k.pat| {
      UnclosedParsed(k, start, i + 1, items + [One(k.pat[i])]);
    }
  }

  /** An opening bracket that is never closed stands for itself. */
  lemma UnclosedPattern(k: Call, i: nat)
    requires k.pat != [] && NUL !in k.pat && k.pat[0] == OPEN && i < |k.str|
    requires forall x :: 1 <= x < |k.pat| ==> Plain(k.flags, k.pat[x])
    ensures Match(k, 0, i) <==> k.str[i] == Ch('[') && Match(k, 1, i + 1)
  {
    UnclosedParsed(k, 1, 1, []);
    WildIsAllowed(k, i);
  }

  /** A class name that the C library does not know makes the bracket expression match nothing. */
  lemma UnknownClass(k: Call, name: seq<WChar>, tail: seq<WChar>, i: nat)
    requires NUL !in k.pat && i <= |k.str| && COLON !in name && !k.loc.isClassName(name)
    requires Has(k.pat, 0, [OPEN] + MemberText(k.flags, Class(name)), tail)
    ensures !Match(k, 0, i)
  {
    var t := MemberText(k.flags, Class(name));
    HasRest(k.pat, 0, [OPEN], t, tail);
    HasChar(k.pat, 0, [OPEN], t + tail, 0);
    ClassFound(k, 1, name, tail);
    ParsePiece(k, false, 1, 1, true, []);
  }
}
