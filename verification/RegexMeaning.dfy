/** What the leaves of a pattern mean: characters, anchors and word boundaries of usual/regex.c,
 said without the functions that the matcher uses, and what this makes of literal patterns and
 of a repeated character.
 */
module RegexMeaning {
  import opened Prelude
  import opened RegexLanguage

  function Chr(c: Byte): char { c as char }

  predicate Upper(c: char) { 'A' <= c <= 'Z' }

  predicate Lower(c: char) { 'a' <= c <= 'z' }

  // ----- words

  /** Letters, digits and the underscore. */
  predicate WordChar(c: char) { Upper(c) || Lower(c) || '0' <= c <= '9' || c == '_' }

  /** str[i..j] is a word: a longest stretch of word characters. */
  ghost predicate Word(s: seq<Byte>, i: nat, j: nat) {
    && i < j <= |s| && (forall x :: i <= x < j ==> WordChar(Chr(s[x])))
    && (i > 0 ==> !WordChar(Chr(s[i - 1]))) && (j < |s| ==> !WordChar(Chr(s[j])))
  }

  ghost predicate WordStarts(s: seq<Byte>, i: nat) { exists j: nat :: Word(s, i, j) }

  ghost predicate WordEnds(s: seq<Byte>, j: nat) { exists i: nat :: Word(s, i, j) }

  lemma {:induction false} WordForward(s: seq<Byte>, i: nat, j: nat)
    requires i < j <= |s| && (forall x :: i <= x < j ==> WordChar(Chr(s[x]))) && (i > 0 ==> !WordChar(Chr(s[i - 1])))
    ensures WordStarts(s, i)
    decreases |s| - j
  {
    if j < |s| && WordChar(Chr(s[j])) {
      WordForward(s, i, j + 1);
    } else {
      assert Word(s, i, j);
    }
  }

  lemma {:induction false} WordBackward(s: seq<Byte>, i: nat, j: nat)
    requires i < j <= |s| && (forall x :: i <= x < j ==> WordChar(Chr(s[x]))) && (j < |s| ==> !WordChar(Chr(s[j])))
    ensures WordEnds(s, j)
    decreases i
  {
    if i > 0 && WordChar(Chr(s[i - 1])) {
      WordBackward(s, i - 1, j);
    } else {
      assert Word(s, i, j);
    }
  }

  /** `\b` holds exactly where a word starts or ends, `\B` exactly where none does. */
  lemma WordChangeMeaning(v: Env, i: nat)
    requires i <= |v.str|
    ensures Holds(v, WordChange, i) <==> WordStarts(v.str, i) || WordEnds(v.str, i)
    ensures Holds(v, NoWordChange, i) <==> !WordStarts(v.str, i) && !WordEnds(v.str, i)
  {
    var s := v.str;
    var before := i > 0 && WordChar(Chr(s[i - 1]));
    var behind := i < |s| && WordChar(Chr(s[i]));
    if behind && !before { WordForward(s, i, i + 1); }
    if before && !behind { WordBackward(s, i - 1, i); }
  }

  // ----- lines

  /** str[i..j] is a line, without its newline; without REG_NEWLINE the whole text is one line. */
  ghost predicate Line(v: Env, i: nat, j: nat) {
    var s := v.str;
    if v.flags.newline then
      && i <= j <= |s| && (forall x :: i <= x < j ==> Chr(s[x]) != '\n')
      && (i > 0 ==> Chr(s[i - 1]) == '\n') && (j < |s| ==> Chr(s[j]) == '\n')
    else i == 0 && j == |s|
  }

  ghost predicate LineStarts(v: Env, i: nat) { exists j: nat :: Line(v, i, j) }

  ghost predicate LineEnds(v: Env, j: nat) { exists i: nat :: Line(v, i, j) }

  lemma {:induction false} LineForward(v: Env, i: nat, j: nat)
    requires v.flags.newline && i <= j <= |v.str| && (i > 0 ==> Chr(v.str[i - 1]) == '\n')
    requires forall x :: i <= x < j ==> Chr(v.str[x]) != '\n'
    ensures LineStarts(v, i)
    decreases |v.str| - j
  {
    if j < |v.str| && Chr(v.str[j]) != '\n' {
      LineForward(v, i, j + 1);
    } else {
      assert Line(v, i, j);
    }
  }

  lemma {:induction false} LineBackward(v: Env, i: nat, j: nat)
    requires v.flags.newline && i <= j <= |v.str| && (j < |v.str| ==> Chr(v.str[j]) == '\n')
    requires forall x :: i <= x < j ==> Chr(v.str[x]) != '\n'
    ensures LineEnds(v, j)
    decreases i
  {
    if i > 0 && Chr(v.str[i - 1]) != '\n' {
      LineBackward(v, i - 1, j);
    } else {
      assert Line(v, i, j);
    }
  }

  /** `^` holds at the start of every line, but for the start of the text with REG_NOTBOL. */
  lemma BolMeaning(v: Env, i: nat)
    requires i <= |v.str|
    ensures Holds(v, Bol, i) <==> LineStarts(v, i) && !(i == 0 && v.flags.notBol)
  {
    if v.flags.newline && (i == 0 || Chr(v.str[i - 1]) == '\n') {
      LineForward(v, i, i);
    }
    if i == 0 && !v.flags.newline {
      assert Line(v, 0, |v.str|);
    }
  }

  /** `$` holds at the end of every line, but for the end of the text with REG_NOTEOL. */
  lemma EolMeaning(v: Env, j: nat)
    requires j <= |v.str|
    ensures Holds(v, Eol, j) <==> LineEnds(v, j) && !(j == |v.str| && v.flags.notEol)
  {
    if v.flags.newline && (j == |v.str| || Chr(v.str[j]) == '\n') {
      LineBackward(v, j, j);
    }
    if j == |v.str| && !v.flags.newline {
      assert Line(v, 0, j);
    }
  }

  // ----- single characters

  /** The same character, or the two cases of one letter. */
  predicate SameLetter(a: char, b: char) {
    || a == b
    || (Upper(a) && Lower(b) && a as int - 'A' as int == b as int - 'a' as int)
    || (Lower(a) && Upper(b) && a as int - 'a' as int == b as int - 'A' as int)
  }

  /** The text has x where the pattern has c. */
  predicate Agree(v: Env, c: Byte, x: Byte) {
    if v.flags.icase then SameLetter(Chr(c), Chr(x)) && x < 128 else c == x
  }

  /** op_char: what the compiler stores for the pattern character c. */
  function Literal(v: Env, c: Byte): Atom { Lit(if v.flags.icase then ToLower(c) else c) }

  /** A literal takes exactly its character; with REG_ICASE in either case, if it is an ASCII one. */
  lemma LiteralMeaning(v: Env, c: Byte, x: Byte)
    ensures Accepts(v, Literal(v, c), x) <==> Agree(v, c, x)
  {}

  /** A dot takes every character, but for the newline with REG_NEWLINE. */
  lemma DotMeaning(v: Env, x: Byte)
    ensures Accepts(v, Dot, x) <==> Chr(x) != '\n' || !v.flags.newline
  {}

  // ----- patterns without repetition, and repeated characters

  /** The op list compiled from the characters of w, in front of next. */
  function Literals(v: Env, w: seq<Byte>, next: Op): Op {
    if w == [] then next else Simple(Literal(v, w[0]), 1, 1, Literals(v, w[1..], next))
  }

  /** Two texts of equal length whose characters agree, in either case with REG_ICASE. */
  ghost predicate SameText(v: Env, w: seq<Byte>, t: seq<Byte>) {
    |w| == |t| && forall x :: 0 <= x < |w| ==> Agree(v, w[x], t[x])
  }

  /** Ordinary characters match exactly their own text. */
  lemma {:induction false} LiteralsMatch(v: Env, w: seq<Byte>, end: Op, i: nat, j: nat)
    requires end.Full? || end.Gend?
    ensures Lang(v, Literals(v, w, end), i, j) <==> i <= j <= |v.str| && SameText(v, w, v.str[i..j])
    decreases |w|
  {
    var op := Literals(v, w, end);
    if w != [] && i <= j <= |v.str| {
      LiteralsMatch(v, w[1..], end, i + 1, j);
      FirstLiteral(v, w[0], op.next, i, j);
      if i < j {
        LiteralMeaning(v, w[0], v.str[i]);
        SameFirst(v, w, v.str[i..j]);
        assert v.str[i..j][1..] == v.str[i + 1..j];
      }
    }
  }

  lemma SameFirst(v: Env, w: seq<Byte>, t: seq<Byte>)
    requires w != [] && t != []
    ensures SameText(v, w, t) <==> Agree(v, w[0], t[0]) && SameText(v, w[1..], t[1..])
  {
    if Agree(v, w[0], t[0]) && SameText(v, w[1..], t[1..]) {
      forall x | 0 <= x < |w| ensures Agree(v, w[x], t[x]) {
        if x > 0 {
          assert Agree(v, w[1..][x - 1], t[1..][x - 1]);
        }
      }
    }
    if SameText(v, w, t) {
      forall x | 0 <= x < |w| - 1 ensures Agree(v, w[1..][x], t[1..][x]) {
        assert Agree(v, w[x + 1], t[x + 1]);
      }
    }
  }

  lemma FirstLiteral(v: Env, c: Byte, next: Op, i: nat, j: nat)
    requires i <= j <= |v.str|
    ensures Lang(v, Simple(Literal(v, c), 1, 1, next), i, j) <==>
      i < |v.str| && Accepts(v, Literal(v, c), v.str[i]) && Lang(v, next, i + 1, j)
  {
    if i < |v.str| && Accepts(v, Literal(v, c), v.str[i]) {
      assert AcceptsRun(v, Literal(v, c), i, 1);
    }
  }

  /** A repeated character takes any permitted number of characters that it stands for.  The count
      0x7FFF, which the compiler gives to `*` and `+`, stands for no limit but that of an int. */
  lemma RepeatedCharacter(v: Env, atom: Atom, min: nat, max: nat, i: nat, j: nat)
    requires min <= max <= 0x7FFF
    ensures (atom.Class? ==> 0 !in atom.members) ==> WellFormed(Simple(atom, min, max, Full), true)
    ensures Lang(v, Simple(atom, min, max, Full), i, j) <==>
      && i <= j <= |v.str| && min <= j - i <= (if max == 0x7FFF then 0x7FFF_FFFF else max)
      && forall x :: i <= x < j ==> Accepts(v, atom, v.str[x])
  {
    if i <= j <= |v.str| && forall x :: i <= x < j ==> Accepts(v, atom, v.str[x]) {
      assert AcceptsRun(v, atom, i, j - i) && Lang(v, Full, i + (j - i), j);
    }
  }

  // ----- words: alternatives and repetition

  /** The alternatives of a pattern `w1|w2|...`. */
  function Alternatives(v: Env, ws: seq<seq<Byte>>, end: Op): AndList {
    if ws == [] then NoAlt else Alt(Literals(v, ws[0], end), Alternatives(v, ws[1..], end))
  }

  ghost predicate OneOf(v: Env, ws: seq<seq<Byte>>, t: seq<Byte>) {
    exists k :: 0 <= k < |ws| && SameText(v, ws[k], t)
  }

  /** Alternative words match exactly the words. */
  lemma {:induction false} AlternativesMatch(v: Env, ws: seq<seq<Byte>>, end: Op, i: nat, j: nat)
    requires end.Full? || end.Gend?
    ensures LangAlts(v, Alternatives(v, ws, end), i, j) <==> i <= j <= |v.str| && OneOf(v, ws, v.str[i..j])
    decreases |ws|
  {
    if ws != [] {
      LiteralsMatch(v, ws[0], end, i, j);
      AlternativesMatch(v, ws[1..], end, i, j);
      if i <= j <= |v.str| {
        OneOfFirst(v, ws, v.str[i..j]);
      }
    }
  }

  lemma OneOfFirst(v: Env, ws: seq<seq<Byte>>, t: seq<Byte>)
    requires ws != []
    ensures OneOf(v, ws, t) <==> SameText(v, ws[0], t) || OneOf(v, ws[1..], t)
  {
    if k :| 0 <= k < |ws| && SameText(v, ws[k], t) {
      assert k > 0 ==> ws[1..][k - 1] == ws[k];
    }
    if k :| 0 <= k < |ws| - 1 && SameText(v, ws[1..][k], t) {
      assert ws[k + 1] == ws[1..][k];
    }
  }

  /** t is n words of the list, one after the other. */
  ghost predicate WordsOf(v: Env, ws: seq<seq<Byte>>, n: nat, t: seq<Byte>)
    decreases n
  {
    if n == 0 then t == [] else exists p :: 0 <= p <= |t| && OneOf(v, ws, t[..p]) && WordsOf(v, ws, n - 1, t[p..])
  }

  lemma IterationsMatch(v: Env, ws: seq<seq<Byte>>, n: nat, i: nat, j: nat)
    ensures Times(v, Alternatives(v, ws, Gend), n, i, j) <==> i <= j <= |v.str| && WordsOf(v, ws, n, v.str[i..j])
  {
    if Times(v, Alternatives(v, ws, Gend), n, i, j) {
      IterationsAreWords(v, ws, n, i, j);
    }
    if i <= j <= |v.str| && WordsOf(v, ws, n, v.str[i..j]) {
      WordsAreIterations(v, ws, n, i, j);
    }
  }

  lemma {:induction false} IterationsAreWords(v: Env, ws: seq<seq<Byte>>, n: nat, i: nat, j: nat)
    requires Times(v, Alternatives(v, ws, Gend), n, i, j)
    ensures i <= j <= |v.str| && WordsOf(v, ws, n, v.str[i..j])
    decreases n
  {
    if n > 0 {
      var p := FirstTime(v, Alternatives(v, ws, Gend), n, i, j);
      IterationsAreWords(v, ws, n - 1, p, j);
      FirstIteration(v, ws, n, i, p, j);
    }
  }

  lemma {:induction false} WordsAreIterations(v: Env, ws: seq<seq<Byte>>, n: nat, i: nat, j: nat)
    requires i <= j <= |v.str| && WordsOf(v, ws, n, v.str[i..j])
    ensures Times(v, Alternatives(v, ws, Gend), n, i, j)
    decreases n
  {
    if n > 0 {
      var p := FirstWordAt(v, ws, n, i, j);
      WordsAreIterations(v, ws, n - 1, p, j);
      TimesMore(v, Alternatives(v, ws, Gend), n, i, p, j);
    }
  }

  lemma FirstWordAt(v: Env, ws: seq<seq<Byte>>, n: nat, i: nat, j: nat) returns (p: nat)
    requires n > 0 && i <= j <= |v.str| && WordsOf(v, ws, n, v.str[i..j])
    ensures i <= p <= j && LangAlts(v, Alternatives(v, ws, Gend), i, p) && WordsOf(v, ws, n - 1, v.str[p..j])
  {
    var q := FirstWord(v, ws, n, v.str[i..j]);
    p := i + q;
    CutAt(v.str, i, p, j);
    AlternativesMatch(v, ws, Gend, i, p);
  }

  lemma FirstIteration(v: Env, ws: seq<seq<Byte>>, n: nat, i: nat, p: nat, j: nat)
    requires n > 0 && LangAlts(v, Alternatives(v, ws, Gend), i, p)
    requires i <= p <= j <= |v.str| && WordsOf(v, ws, n - 1, v.str[p..j])
    ensures WordsOf(v, ws, n, v.str[i..j])
  {
    AlternativesMatch(v, ws, Gend, i, p);
    CutAt(v.str, i, p, j);
    WordsMore(v, ws, n, v.str[i..j], p - i);
  }

  lemma CutAt(s: seq<Byte>, i: nat, p: nat, j: nat)
    requires i <= p <= j <= |s|
    ensures s[i..j][..p - i] == s[i..p] && s[i..j][p - i..] == s[p..j]
  {}

  lemma FirstWord(v: Env, ws: seq<seq<Byte>>, n: nat, t: seq<Byte>) returns (q: nat)
    requires n > 0 && WordsOf(v, ws, n, t)
    ensures q <= |t| && OneOf(v, ws, t[..q]) && WordsOf(v, ws, n - 1, t[q..])
  {
    q :| 0 <= q <= |t| && OneOf(v, ws, t[..q]) && WordsOf(v, ws, n - 1, t[q..]);
  }

  lemma WordsMore(v: Env, ws: seq<seq<Byte>>, n: nat, t: seq<Byte>, p: nat)
    requires n > 0 && p <= |t| && OneOf(v, ws, t[..p]) && WordsOf(v, ws, n - 1, t[p..])
    ensures WordsOf(v, ws, n, t)
  {}

  lemma TimesMore(v: Env, alts: AndList, n: nat, i: nat, p: nat, j: nat)
    requires n > 0 && LangAlts(v, alts, i, p) && Times(v, alts, n - 1, p, j)
    ensures Times(v, alts, n, i, j)
  {}

  ghost predicate SomeWords(v: Env, ws: seq<seq<Byte>>, min: nat, max: nat, t: seq<Byte>) {
    exists n: nat :: min <= n <= max && WordsOf(v, ws, n, t)
  }

  lemma IterationsAllowed(v: Env, ws: seq<seq<Byte>>, min: nat, max: nat, i: nat, j: nat)
    requires i <= j <= |v.str|
    ensures Repeated(v, Alternatives(v, ws, Gend), min, max, i, j) <==> SomeWords(v, ws, min, max, v.str[i..j])
  {
    if Repeated(v, Alternatives(v, ws, Gend), min, max, i, j) {
      var n := Iterations(v, Alternatives(v, ws, Gend), min, max, i, j);
      IterationsMatch(v, ws, n, i, j);
    }
    if SomeWords(v, ws, min, max, v.str[i..j]) {
      var n: nat :| min <= n <= max && WordsOf(v, ws, n, v.str[i..j]);
      IterationsMatch(v, ws, n, i, j);
    }
  }

  lemma Iterations(v: Env, alts: AndList, min: nat, max: nat, i: nat, j: nat) returns (n: nat)
    requires Repeated(v, alts, min, max, i, j)
    ensures min <= n <= max && Times(v, alts, n, i, j)
  {
    n :| min <= n <= max && Times(v, alts, n, i, j);
  }

  lemma GroupAlone(v: Env, alts: AndList, min: nat, max: nat, i: nat, j: nat)
    requires i <= j <= |v.str|
    ensures Lang(v, Group(alts, min, max, Full), i, j) <==> Repeated(v, alts, min, max, i, j)
  {
    if Repeated(v, alts, min, max, i, j) {
      assert Lang(v, Full, j, j);
    }
  }

  /** A repeated group of words matches exactly any allowed number of the words in a row, and the
      matcher finds all of it. */
  lemma RepeatedWords(v: Env, ws: seq<seq<Byte>>, min: nat, max: nat, i: nat, j: nat)
    requires min <= max <= 0x7FFF
    ensures var top := Alt(Group(Alternatives(v, ws, Gend), min, max, Full), NoAlt);
            && WellFormedAlts(top, true) && PrunableAlts(top)
            && (Matches(v, top, i, j) <==> i <= j <= |v.str| && SomeWords(v, ws, min, max, v.str[i..j]))
  {
    var op := Group(Alternatives(v, ws, Gend), min, max, Full);
    AlternativesPlain(v, ws);
    PlainIsPrunable(op);
    if i <= j <= |v.str| {
      IterationsAllowed(v, ws, min, max, i, j);
      GroupAlone(v, op.alts, min, max, i, j);
    }
    OnlyAlternative(v, op, i, j);
  }

  lemma OnlyAlternative(v: Env, op: Op, i: nat, j: nat)
    ensures Matches(v, Alt(op, NoAlt), i, j) <==> Lang(v, op, i, j)
  {
    assert !LangAlts(v, NoAlt, i, j);
  }

  lemma {:induction false} LiteralsPlain(v: Env, w: seq<Byte>)
    ensures WellFormed(Literals(v, w, Gend), false)
    ensures NoAssertions(Literals(v, w, Gend)) && PlainRepeats(Literals(v, w, Gend))
    decreases |w|
  {
    if w != [] {
      LiteralsPlain(v, w[1..]);
    }
  }

  lemma {:induction false} AlternativesPlain(v: Env, ws: seq<seq<Byte>>)
    ensures var alts := Alternatives(v, ws, Gend);
            WellFormedAlts(alts, false) && NoAssertionsAlts(alts) && PlainRepeatsAlts(alts)
    decreases |ws|
  {
    if ws != [] {
      LiteralsPlain(v, ws[0]);
      AlternativesPlain(v, ws[1..]);
    }
  }
}
