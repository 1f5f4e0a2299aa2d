/** What command lines mean to usual/getopt.c.

 Options are described by a list of letters that take no argument, need one, or may have one; a
 command line by its items: operands, flags in one word, a letter with its argument in the same word
 or in the next.  The reference of Getopt, given the text of both descriptions, reports exactly what
 the command line describes.
 */
module GetoptMeaning {
  import opened Prelude
  import opened Getopt

  // ----- option strings

  datatype Kind = Flag | Needed | Allowed

  datatype Spec = Spec(c: char, kind: Kind)

  function Colons(kind: Kind): string {
    match kind
    case Flag => ""
    case Needed => ":"
    case Allowed => "::"
  }

  function OptString(specs: seq<Spec>): string {
    if specs == [] then "" else [specs[0].c] + Colons(specs[0].kind) + OptString(specs[1..])
  }

  predicate GoodSpecs(specs: seq<Spec>) { forall i :: 0 <= i < |specs| ==> specs[i].c != ':' }

  /** The first entry for a letter counts. */
  function KindOf(specs: seq<Spec>, c: char): Option<Kind> {
    if specs == [] then None else if specs[0].c == c then Some(specs[0].kind) else KindOf(specs[1..], c)
  }

  /** What strchr finds in the option string, and how many colons follow. */
  ghost predicate Shows(opts: string, c: char, kind: Option<Kind>) {
    match Find(opts, c)
    case None => kind.None?
    case Some(i) =>
      && kind.Some?
      && (CharAt(opts, i + 1) == ':' <==> kind.value != Flag)
      && (kind.value != Flag ==> (CharAt(opts, i + 2) == ':' <==> kind.value == Allowed))
  }

  lemma {:induction false} OptionShown(specs: seq<Spec>, c: char)
    requires GoodSpecs(specs) && c != ':'
    ensures Shows(OptString(specs), c, KindOf(specs, c))
  {
    if specs != [] {
      OptionShown(specs[1..], c);
      FirstShown(specs[0], OptString(specs[1..]), c, KindOf(specs[1..], c));
      if |specs| > 1 {
        assert OptString(specs[1..])[0] == specs[1].c;
      }
    }
  }

  lemma FirstShown(s: Spec, rest: string, c: char, kind: Option<Kind>)
    requires s.c != ':' && c != ':' && (rest != "" ==> rest[0] != ':') && Shows(rest, c, kind)
    ensures Shows([s.c] + Colons(s.kind) + rest, c, if s.c == c then Some(s.kind) else kind)
  {
    var opts, t := [s.c] + Colons(s.kind) + rest, Colons(s.kind) + rest;
    Assoc([s.c], Colons(s.kind), rest);
    TailOf(s.c, t);
    if s.c == c {
      assert Find(opts, c) == Some(0);
      ColonsBehind(s.kind, rest);
      CharBehind([s.c], t, 0);
      CharBehind([s.c], t, 1);
    } else {
      ColonsPassed(Colons(s.kind), rest, c);
      LaterShown([s.c] + Colons(s.kind), rest, c, kind);
    }
  }

  lemma ColonsBehind(kind: Kind, rest: string)
    requires rest != "" ==> rest[0] != ':'
    ensures CharAt(Colons(kind) + rest, 0) == ':' <==> kind != Flag
    ensures kind != Flag ==> (CharAt(Colons(kind) + rest, 1) == ':' <==> kind == Allowed)
  {
    match kind
    case Flag => assert Colons(kind) + rest == rest;
    case Needed =>
    case Allowed =>
  }

  lemma CharBehind(pre: string, rest: string, j: nat)
    ensures CharAt(pre + rest, |pre| + j) == CharAt(rest, j)
  {}

  lemma LaterShown(pre: string, rest: string, c: char, kind: Option<Kind>)
    requires Shows(rest, c, kind)
    requires Find(pre + rest, c) == if Find(rest, c).None? then None else Some(|pre| + Find(rest, c).value)
    ensures Shows(pre + rest, c, kind)
  {
    if Find(rest, c).Some? {
      var i := Find(rest, c).value;
      CharBehind(pre, rest, i + 1);
      CharBehind(pre, rest, i + 2);
    }
  }

  lemma {:induction false} ColonsPassed(colons: string, rest: string, c: char)
    requires c != ':' && forall i :: 0 <= i < |colons| ==> colons[i] == ':'
    ensures Find(colons + rest, c) == if Find(rest, c).None? then None else Some(|colons| + Find(rest, c).value)
    decreases |colons|
  {
    if colons == "" {
      assert colons + rest == rest;
    } else {
      ColonsPassed(colons[1..], rest, c);
      assert (colons + rest)[1..] == colons[1..] + rest;
    }
  }

  // ----- command lines

  /** letters stand for themselves in front of the last one, which has the argument. */
  datatype Item =
    | Word(text: string)
    | Flags(letters: string)
    | Attached(letters: string, c: char, arg: string)
    | Separate(letters: string, c: char, arg: string)
    | Omitted(letters: string, c: char)

  /** How a command line ends: with its last item, behind `--`, or with an argument missing. */
  datatype End = Nothing | Dashes(rest: seq<string>) | Lacking(letters: string, c: char)

  function ItemWords(x: Item): (ws: seq<string>)
    ensures ws != []
  {
    match x
    case Word(text) => [text]
    case Flags(letters) => ["-" + letters]
    case Attached(letters, c, arg) => ["-" + letters + [c] + arg]
    case Separate(letters, c, arg) => ["-" + letters + [c], arg]
    case Omitted(letters, c) => ["-" + letters + [c]]
  }

  function EndWords(end: End): seq<string> {
    match end
    case Nothing => []
    case Dashes(rest) => ["--"] + rest
    case Lacking(letters, c) => ["-" + letters + [c]]
  }

  function Words(items: seq<Item>, end: End): seq<string> {
    if items == [] then EndWords(end) else ItemWords(items[0]) + Words(items[1..], end)
  }

  /** A letter that takes no argument, or is no option; a colon or a dash never is one here. */
  predicate Simple(specs: seq<Spec>, c: char) {
    c == ':' || c == '-' || KindOf(specs, c) == None || KindOf(specs, c) == Some(Flag)
  }

  predicate AllSimple(specs: seq<Spec>, letters: string) {
    forall i :: 0 <= i < |letters| ==> Simple(specs, letters[i])
  }

  predicate Takes(specs: seq<Spec>, c: char, kind: Kind) { c != ':' && c != '-' && KindOf(specs, c) == Some(kind) }

  /** An operand does not start with a dash, unless it is the dash alone and that is no option. */
  predicate GoodItem(specs: seq<Spec>, x: Item) {
    match x
    case Word(text) => text == "" || text[0] != '-' || (text == "-" && KindOf(specs, '-') == None)
    case Flags(letters) => letters != "" && letters[|letters| - 1] != '-' && AllSimple(specs, letters)
    case Attached(letters, c, arg) =>
      AllSimple(specs, letters) && (Takes(specs, c, Needed) || Takes(specs, c, Allowed)) && arg != ""
    case Separate(letters, c, arg) => AllSimple(specs, letters) && Takes(specs, c, Needed)
    case Omitted(letters, c) => AllSimple(specs, letters) && Takes(specs, c, Allowed)
  }

  predicate GoodEnd(specs: seq<Spec>, end: End) {
    end.Lacking? ==> AllSimple(specs, end.letters) && Takes(specs, end.c, Needed)
  }

  predicate GoodLine(specs: seq<Spec>, items: seq<Item>, end: End) {
    GoodEnd(specs, end) && forall i :: 0 <= i < |items| ==> GoodItem(specs, items[i])
  }

  // ----- what they describe

  function LetterEvent(specs: seq<Spec>, c: char): Event {
    if c != ':' && c != '-' && KindOf(specs, c) == Some(Flag) then Letter(c, None) else Unknown(c)
  }

  function LetterEvents(specs: seq<Spec>, letters: string): seq<Event> {
    if letters == "" then [] else [LetterEvent(specs, letters[0])] + LetterEvents(specs, letters[1..])
  }

  /** What an item other than an operand reports. */
  function ItemEvents(specs: seq<Spec>, x: Item): seq<Event> {
    match x
    case Word(_) => []
    case Flags(letters) => LetterEvents(specs, letters)
    case Attached(letters, c, arg) => LetterEvents(specs, letters) + [Letter(c, Some(arg))]
    case Separate(letters, c, arg) => LetterEvents(specs, letters) + [Letter(c, Some(arg))]
    case Omitted(letters, c) => LetterEvents(specs, letters) + [Letter(c, None)]
  }

  /** Events, words of options and operands; an operand is passed over, ends the options, or is
      reported in its place, as the mode says. */
  function Described(specs: seq<Spec>, items: seq<Item>, end: End, mode: Mode): Outcome {
    if items == [] then
      match end
      case Nothing => Outcome([], [], [], false)
      case Dashes(rest) => Outcome([], ["--"], rest, false)
      case Lacking(letters, c) => Outcome(LetterEvents(specs, letters) + [Missing(c)], EndWords(end), [], false)
    else if items[0].Word? && mode == Stop then Outcome([], [], Words(items, end), false)
    else
      var r := Described(specs, items[1..], end, mode);
      if items[0].Word? then
        if mode == InOrder then
          Outcome([Operand(items[0].text)] + r.events, [items[0].text] + r.options, r.operands, false)
        else Outcome(r.events, r.options, [items[0].text] + r.operands, false)
      else Outcome(ItemEvents(specs, items[0]) + r.events, ItemWords(items[0]) + r.options, r.operands, false)
  }

  // ----- letters

  function Ahead(es: seq<Event>, r: Cluster): Cluster { r.(events := es + r.events) }

  lemma SimpleLetter(specs: seq<Spec>, c: char, rest: string, next: Option<string>)
    requires GoodSpecs(specs) && Simple(specs, c) && (c == '-' ==> rest != "")
    ensures Letters([c] + rest, next, OptString(specs))
         == Before(LetterEvent(specs, c), Letters(rest, next, OptString(specs)))
  {
    assert ([c] + rest)[1..] == rest;
    if c != ':' {
      OptionShown(specs, c);
    }
  }

  /** Letters without arguments are reported one by one. */
  lemma {:induction false} SimpleLetters(specs: seq<Spec>, letters: string, rest: string, next: Option<string>)
    requires GoodSpecs(specs) && AllSimple(specs, letters)
      && (rest == "" && letters != "" ==> letters[|letters| - 1] != '-')
    ensures Letters(letters + rest, next, OptString(specs))
         == Ahead(LetterEvents(specs, letters), Letters(rest, next, OptString(specs)))
    decreases |letters|
  {
    var r := Letters(rest, next, OptString(specs));
    if letters == "" {
      assert letters + rest == rest && [] + r.events == r.events;
    } else {
      var c, more := letters[0], letters[1..];
      HeadAndTail(letters);
      Assoc([c], more, rest);
      SimpleLetters(specs, more, rest, next);
      LetterAhead(specs, letters, more + rest, next, r);
    }
  }

  lemma LetterAhead(specs: seq<Spec>, letters: string, rest: string, next: Option<string>, r: Cluster)
    requires GoodSpecs(specs) && letters != "" && Simple(specs, letters[0]) && (letters[0] == '-' ==> rest != "")
    requires Letters(rest, next, OptString(specs)) == Ahead(LetterEvents(specs, letters[1..]), r)
    ensures Letters([letters[0]] + rest, next, OptString(specs)) == Ahead(LetterEvents(specs, letters), r)
  {
    SimpleLetter(specs, letters[0], rest, next);
    Assoc([LetterEvent(specs, letters[0])], LetterEvents(specs, letters[1..]), r.events);
  }

  /** A letter with an argument ends its word. */
  lemma LastLetter(specs: seq<Spec>, c: char, arg: string, next: Option<string>)
    requires GoodSpecs(specs) && (Takes(specs, c, Needed) || Takes(specs, c, Allowed))
    ensures Letters([c] + arg, next, OptString(specs)) ==
      if arg != "" then Cluster([Letter(c, Some(arg))], 1, false)
      else if Takes(specs, c, Allowed) then Cluster([Letter(c, None)], 1, false)
      else if next.None? then Cluster([Missing(c)], 1, false)
      else Cluster([Letter(c, next)], 2, false)
  {
    assert ([c] + arg)[1..] == arg;
    OptionShown(specs, c);
  }

  // ----- whole command lines

  /** A word of letters, as the scan takes it. */
  lemma OptionWord(body: string, args: seq<string>, cfg: Config, es: seq<Event>, used: nat)
    requires args != [] && args[0] == "-" + body && body != "" && body != "-" && used <= |args|
    requires Letters(body, Second(args), cfg.opts) == Cluster(es, used, false)
    ensures var s := Parse(args[used..], cfg);
            Parse(args, cfg) == Outcome(es + s.events, args[..used] + s.options, s.operands, s.stuck)
  {
    assert args[0][1..] == body && args[0][0] == '-';
  }

  /** What the letters of a word are and how many words they use. */
  function Body(x: Item): string
    requires !x.Word?
  {
    ItemWords(x)[0][1..]
  }

  lemma ItemLetters(specs: seq<Spec>, x: Item, next: Option<string>)
    requires GoodSpecs(specs) && !x.Word? && GoodItem(specs, x) && (x.Separate? ==> next == Some(x.arg))
    ensures ItemWords(x)[0] == "-" + Body(x) && Body(x) != "" && Body(x) != "-"
    ensures Letters(Body(x), next, OptString(specs)) == Cluster(ItemEvents(specs, x), |ItemWords(x)|, false)
  {
    match x
    case Flags(letters) =>
      assert Body(x) == letters && letters + "" == letters;
      SimpleLetters(specs, letters, "", next);
      assert LetterEvents(specs, letters) + [] == LetterEvents(specs, letters);
    case Attached(letters, c, arg) => ArgumentLetters(specs, x, letters, c, arg, next);
    case Separate(letters, c, _) => ArgumentLetters(specs, x, letters, c, "", next);
    case Omitted(letters, c) => ArgumentLetters(specs, x, letters, c, "", next);
  }

  lemma ArgumentLetters(specs: seq<Spec>, x: Item, letters: string, c: char, arg: string, next: Option<string>)
    requires GoodSpecs(specs) && AllSimple(specs, letters) && (Takes(specs, c, Needed) || Takes(specs, c, Allowed))
    requires !x.Word? && ItemWords(x)[0] == "-" + letters + [c] + arg
    ensures Body(x) == letters + ([c] + arg) && ItemWords(x)[0] == "-" + Body(x) && Body(x) != "-"
    ensures Letters(Body(x), next, OptString(specs))
         == Ahead(LetterEvents(specs, letters), Letters([c] + arg, next, OptString(specs)))
    ensures Letters([c] + arg, next, OptString(specs)) ==
      if arg != "" then Cluster([Letter(c, Some(arg))], 1, false)
      else if Takes(specs, c, Allowed) then Cluster([Letter(c, None)], 1, false)
      else if next.None? then Cluster([Missing(c)], 1, false)
      else Cluster([Letter(c, next)], 2, false)
  {
    WordBody(letters, c, arg);
    SimpleLetters(specs, letters, [c] + arg, next);
    LastLetter(specs, c, arg, next);
  }

  lemma WordBody(letters: string, c: char, arg: string)
    requires c != '-'
    ensures var w, body := "-" + letters + [c] + arg, letters + ([c] + arg);
            w == "-" + body && w[1..] == body && body != "" && body != "-"
  {
    var w, body := "-" + letters + [c] + arg, letters + ([c] + arg);
    assert w == "-" + body;
    assert body[|letters|] == c;
  }

  /** An item in front of a command line. */
  lemma ItemTaken(specs: seq<Spec>, x: Item, rest: seq<string>, cfg: Config)
    requires GoodSpecs(specs) && !x.Word? && GoodItem(specs, x) && cfg.opts == OptString(specs)
    ensures var s := Parse(rest, cfg);
            Parse(ItemWords(x) + rest, cfg)
            == Outcome(ItemEvents(specs, x) + s.events, ItemWords(x) + s.options, s.operands, s.stuck)
  {
    var args, n := ItemWords(x) + rest, |ItemWords(x)|;
    assert args[n..] == rest && args[..n] == ItemWords(x);
    ItemLetters(specs, x, Second(args));
    OptionWord(Body(x), args, cfg, ItemEvents(specs, x), n);
  }

  lemma OperandTaken(specs: seq<Spec>, text: string, rest: seq<string>, cfg: Config)
    requires GoodSpecs(specs) && GoodItem(specs, Word(text)) && cfg.opts == OptString(specs)
    ensures var s := Parse(rest, cfg);
            Parse([text] + rest, cfg) ==
              match cfg.mode
              case InOrder => s.(events := [Operand(text)] + s.events, options := [text] + s.options)
              case Stop => Outcome([], [], [text] + rest, false)
              case Permute => s.(operands := [text] + s.operands)
  {
    assert ([text] + rest)[1..] == rest;
    OptionShown(specs, '-');
  }

  lemma EndTaken(specs: seq<Spec>, end: End, cfg: Config)
    requires GoodSpecs(specs) && GoodEnd(specs, end) && cfg.opts == OptString(specs)
    ensures Parse(EndWords(end), cfg) == Described(specs, [], end, cfg.mode)
  {
    match end
    case Nothing =>
    case Dashes(rest) => assert (["--"] + rest)[1..] == rest;
    case Lacking(letters, c) =>
      var args, body := EndWords(end), letters + ([c] + "");
      WordBody(letters, c, "");
      assert "-" + letters + [c] + "" == args[0];
      SimpleLetters(specs, letters, [c] + "", None);
      LastLetter(specs, c, "", None);
      OptionWord(body, args, cfg, LetterEvents(specs, letters) + [Missing(c)], 1);
      assert args[1..] == [] && args[..1] + [] == args;
  }

  /** The reference reports exactly what the command line describes. */
  lemma {:induction false} CommandLine(specs: seq<Spec>, items: seq<Item>, end: End, mode: Mode)
    requires GoodSpecs(specs) && GoodLine(specs, items, end)
    ensures Parse(Words(items, end), Config(OptString(specs), mode)) == Described(specs, items, end, mode)
    decreases |items|
  {
    var cfg := Config(OptString(specs), mode);
    if items == [] {
      EndTaken(specs, end, cfg);
    } else {
      CommandLine(specs, items[1..], end, mode);
      var rest := Words(items[1..], end);
      if items[0].Word? {
        OperandTaken(specs, items[0].text, rest, cfg);
      } else {
        ItemTaken(specs, items[0], rest, cfg);
      }
    }
  }

  /** A leading `+` ends the options at the first operand, a leading `-` reports operands in their
      place, and neither belongs to the option letters; POSIXLY_CORRECT is like `+`. */
  lemma Configured(opts: string, posixlyCorrect: bool)
    requires opts == "" || (opts[0] != '+' && opts[0] != '-')
    ensures Configure(opts, posixlyCorrect) == Config(opts, if posixlyCorrect then Stop else Permute)
    ensures Configure("+" + opts, posixlyCorrect) == Config(opts, Stop)
    ensures Configure("-" + opts, posixlyCorrect) == Config(opts, if posixlyCorrect then Stop else InOrder)
  {
    assert ("+" + opts)[1..] == opts && ("-" + opts)[1..] == opts;
  }
}
