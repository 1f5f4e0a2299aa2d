/** getopt of usual/getopt.c with short options: a scan that skips operands, remembers one block
 of them, and moves it behind the options each time a new block begins.

 The reference reads the arguments once from left to right and sorts them into options and
 operands; a whole run of calls must report the same options and leave argv in that order.
 */
module Getopt {
  import opened Prelude
  import opened BlockExchange

  /** What one call reports: an option letter with optarg, an unknown letter (BADCH), a letter
   whose argument is missing (BADARG), or an operand returned in order (INORDER). */
  datatype Event = Letter(c: char, arg: Option<string>) | Unknown(c: char) | Missing(c: char) | Operand(text: string)

  datatype Mode = Permute | Stop | InOrder

  /** Flags and option letters, as getopt_internal derives them from its options argument. */
  datatype Config = Config(opts: string, mode: Mode)

  function Configure(options: string, posixlyCorrect: bool): Config {
    var prefix := options != "" && options[0] in "+-";
    Config(
      if prefix then options[1..] else options,
      if posixlyCorrect || (prefix && options[0] == '+') then Stop else if prefix then InOrder else Permute)
  }

  // ----- the reference

  /** The letters of one argument: what they report, how many arguments they use up, and whether
   they end in a dash that is no option letter, where the code gives up. */
  datatype Cluster = Cluster(events: seq<Event>, used: nat, stuck: bool)

  function Find(s: string, c: char): (r: Option<nat>)
    ensures r.None? <==> c !in s
    ensures r.Some? ==> r.value < |s| && s[r.value] == c
  {
    if s == "" then None
    else if s[0] == c then Some(0)
    else match Find(s[1..], c) case None => None case Some(k) => Some(k + 1)
  }

  function CharAt(s: string, i: nat): char { if i < |s| then s[i] else '\0' }

  function Letters(place: string, next: Option<string>, opts: string): (r: Cluster)
    ensures r.used == 1 || (r.used == 2 && next.Some?)
  {
    if place == "" then Cluster([], 1, false)
    else
      var c, rest, oli := place[0], place[1..], Find(opts, place[0]);
      if c == ':' || (c == '-' && rest != "") || oli.None? then
        if c == '-' && rest == "" then Cluster([], 1, true)
        else Before(Unknown(c), Letters(rest, next, opts))
      else if CharAt(opts, oli.value + 1) != ':' then Before(Letter(c, None), Letters(rest, next, opts))
      else if rest != "" then Cluster([Letter(c, Some(rest))], 1, false)
      else if CharAt(opts, oli.value + 2) == ':' then Cluster([Letter(c, None)], 1, false)
      else if next.None? then Cluster([Missing(c)], 1, false)
      else Cluster([Letter(c, next)], 2, false)
  }

  function Before(e: Event, r: Cluster): Cluster { r.(events := [e] + r.events) }

  datatype Outcome = Outcome(events: seq<Event>, options: seq<string>, operands: seq<string>, stuck: bool)

  predicate IsOperand(h: string, opts: string) { h == "" || h[0] != '-' || (h == "-" && '-' !in opts) }

  function Start(h: string): string { if |h| <= 1 then h else h[1..] }

  function Second(args: seq<string>): Option<string> { if |args| > 1 then Some(args[1]) else None }

  function Parse(args: seq<string>, cfg: Config): Outcome
    decreases |args|, 1
  {
    if args == [] then Outcome([], [], [], false)
    else if IsOperand(args[0], cfg.opts) then
      match cfg.mode
      case InOrder =>
        var r := Parse(args[1..], cfg);
        r.(events := [Operand(args[0])] + r.events, options := [args[0]] + r.options)
      case Stop => Outcome([], [], args, false)
      case Permute => var r := Parse(args[1..], cfg); r.(operands := [args[0]] + r.operands)
    else if args[0] == "--" then Outcome([], ["--"], args[1..], false)
    else Resume(Start(args[0]), args, cfg)
  }

  /** The rest of the run when place is what is left of the letters of args[0]. */
  function Resume(place: string, args: seq<string>, cfg: Config): Outcome
    requires args != []
    decreases |args|, 0
  {
    var r := Letters(place, Second(args), cfg.opts);
    var s := Parse(args[r.used..], cfg);
    Outcome(r.events + (if r.stuck then [] else s.events), args[..r.used] + s.options, s.operands, r.stuck || s.stuck)
  }

  /** c is made of all of a and all of b, each in its own order. */
  ghost predicate Merges<T(!new)>(a: seq<T>, b: seq<T>, c: seq<T>)
    decreases c
  {
    if c == [] then a == [] && b == []
    else
      (a != [] && a[0] == c[0] && Merges(a[1..], b, c[1..])) || (b != [] && b[0] == c[0] && Merges(a, b[1..], c[1..]))
  }

  lemma {:induction false} MergesAlone<T(!new)>(b: seq<T>)
    ensures Merges([], b, b)
  {
    if b != [] { MergesAlone(b[1..]); }
  }

  lemma {:induction false} MergesAfter<T(!new)>(p: seq<T>, a: seq<T>, b: seq<T>, c: seq<T>)
    requires Merges(a, b, c)
    ensures Merges(p + a, b, p + c)
  {
    if p == [] {
      assert p + a == a && p + c == c;
    } else {
      MergesAfter(p[1..], a, b, c);
      assert (p + a)[1..] == p[1..] + a && (p + c)[1..] == p[1..] + c;
    }
  }

  /** Sorting keeps every argument, and the order among options and among operands. */
  lemma {:induction false} ParseMerges(args: seq<string>, cfg: Config)
    ensures Merges(Parse(args, cfg).options, Parse(args, cfg).operands, args)
    decreases |args|
  {
    if args == [] {
    } else if IsOperand(args[0], cfg.opts) {
      ParseMerges(args[1..], cfg);
      MergesAlone(args);
    } else if args[0] == "--" {
      MergesAlone(args[1..]);
    } else {
      var n := Letters(Start(args[0]), Second(args), cfg.opts).used;
      var s := Parse(args[n..], cfg);
      ParseMerges(args[n..], cfg);
      MergesAfter(args[..n], s.options, s.operands, args[n..]);
      assert args == args[..n] + args[n..];
    }
  }

  /** A letter that the option string gives an argument. */
  predicate TakesArgument(c: char, opts: string) {
    c != ':' && c in opts && CharAt(opts, Find(opts, c).value + 1) == ':'
  }

  /** The letters end in a dash that is no option letter, and none before it takes them as its argument. */
  predicate EndsInDash(place: string, opts: string) {
    place != "" && place[|place| - 1] == '-' && '-' !in opts
    && forall k :: 0 <= k < |place| - 1 ==> !TakesArgument(place[k], opts)
  }

  /** The code gives up on exactly these letters. */
  lemma {:induction false} LettersStuck(place: string, next: Option<string>, opts: string)
    ensures Letters(place, next, opts).stuck <==> EndsInDash(place, opts)
  {
    if place != "" {
      LettersStuck(place[1..], next, opts);
      assert |place| > 1 ==> place[1..][|place| - 2] == place[|place| - 1];
      assert forall k :: 0 < k < |place| ==> place[1..][k - 1] == place[k];
    }
  }

  /** The arguments that are read as options, without those that are arguments of an option. */
  function OptionWords(args: seq<string>, cfg: Config): seq<string>
    decreases |args|
  {
    if args == [] then []
    else if IsOperand(args[0], cfg.opts) then
      if cfg.mode == Stop then [] else OptionWords(args[1..], cfg)
    else if args[0] == "--" then []
    else [args[0]] + OptionWords(args[Letters(Start(args[0]), Second(args), cfg.opts).used..], cfg)
  }

  /** Some option of the run ends in a dash letter. */
  predicate HasDashLetter(args: seq<string>, cfg: Config) {
    exists h :: h in OptionWords(args, cfg) && EndsInDash(Start(h), cfg.opts)
  }

  /** Scanning gives up exactly then. */
  lemma {:induction false} ParseStuck(args: seq<string>, cfg: Config)
    ensures Parse(args, cfg).stuck <==> HasDashLetter(args, cfg)
    decreases |args|
  {
    if args == [] || args[0] == "--" {
    } else if IsOperand(args[0], cfg.opts) {
      ParseStuck(args[1..], cfg);
    } else {
      var n := Letters(Start(args[0]), Second(args), cfg.opts).used;
      LettersStuck(Start(args[0]), Second(args), cfg.opts);
      ParseStuck(args[n..], cfg);
      assert OptionWords(args, cfg) == [args[0]] + OptionWords(args[n..], cfg);
    }
  }

  /** It does: the arguments n -a- are left with the operand in front. */
  lemma StuckExample()
    ensures Parse(["n", "-a-"], Config("a", Permute)) == Outcome([Letter('a', None)], ["-a-"], ["n"], true)
  {
    var cfg := Config("a", Permute);
    assert Letters("-", None, "a") == Cluster([], 1, true);
    assert "a-"[1..] == "-";
    assert Letters("a-", None, "a") == Cluster([Letter('a', None)], 1, true);
    assert ["n", "-a-"][1..] == ["-a-"] && ["-a-"][1..] == [];
    assert "-a-"[1..] == "a-";
    assert ["-a-"][..1] == ["-a-"];
    assert Parse([], cfg) == Outcome([], [], [], false);
    assert Resume("a-", ["-a-"], cfg) == Outcome([Letter('a', None)], ["-a-"], [], true);
    assert Parse(["-a-"], cfg) == Outcome([Letter('a', None)], ["-a-"], [], true);
  }

  // ----- the scanner

  /** argv from base to optind: the options done so far and the operands skipped, which sit in one block. */
  ghost function Arranged(done: seq<string>, skipped: seq<string>, at: nat): seq<string>
    requires at <= |done|
  {
    done[..at] + skipped + done[at..]
  }

  datatype Scanned = Finished | InOrderOperand(text: string) | Option

  class Scanner {
    const argv: array<string>
    const cfg: Config
    var optind: nat
    var place: string
    var nonopt_start: int
    var nonopt_end: int
    ghost const base: nat
    ghost var done: seq<string>
    ghost var skipped: seq<string>

    /** Operands skipped so far sit where nonopt_start and nonopt_end say. */
    ghost predicate Layout() reads this, argv {
      base <= optind <= argv.Length
      && (forall h :: h in skipped ==> IsOperand(h, cfg.opts))
      && (if nonopt_start == -1 then nonopt_end == -1 && skipped == [] && argv[base..optind] == done
          else if nonopt_end == -1 then
            skipped != [] && nonopt_start == base + |done| && argv[base..optind] == done + skipped
          else
            base <= nonopt_start < nonopt_end <= optind && |skipped| == nonopt_end - nonopt_start
            && nonopt_start - base <= |done| && nonopt_end < argv.Length && !IsOperand(argv[nonopt_end], cfg.opts)
            && argv[base..optind] == Arranged(done, skipped, nonopt_start - base))
    }

    ghost predicate Valid() reads this, argv {
      Layout()
      && (cfg.mode != Permute ==> nonopt_start == -1)
      && (place == "" && nonopt_end != -1 ==> nonopt_end < optind)
      && (place != "" ==>
            && optind < argv.Length && !IsOperand(argv[optind], cfg.opts)
            && (nonopt_start != -1 ==> nonopt_end != -1))
    }

    /** What the remaining calls will report and how the remaining arguments sort. */
    ghost function Rest(): Outcome
      requires optind <= argv.Length && (place != "" ==> optind < argv.Length)
      reads this, argv
    {
      if place == "" then Parse(argv[optind..], cfg) else Resume(place, argv[optind..], cfg)
    }

    ghost function Options(): seq<string>
      requires optind <= argv.Length && (place != "" ==> optind < argv.Length)
      reads this, argv
    {
      done + Rest().options
    }

    ghost function Operands(): seq<string>
      requires optind <= argv.Length && (place != "" ==> optind < argv.Length)
      reads this, argv
    {
      skipped + Rest().operands
    }

    constructor (argv: array<string>, options: string, posixlyCorrect: bool, optind: nat)
      requires optind <= argv.Length
      ensures Valid() && this.argv == argv && base == optind == this.optind && place == ""
      ensures cfg == Configure(options, posixlyCorrect)
      ensures Options() == Rest().options && Operands() == Rest().operands
      ensures Rest() == Parse(argv[optind..], cfg)
    {
      this.argv := argv;
      cfg := Configure(options, posixlyCorrect);
      this.optind, place := optind, "";
      nonopt_start, nonopt_end := -1, -1;
      base, done, skipped := optind, [], [];
    }

    /** The calls of permute_args: both blocks are non-empty each time. */
    method Exchange()
      requires Layout() && nonopt_end != -1 && nonopt_end < optind
      modifies argv
      ensures argv[base..optind] == done + skipped
      ensures argv[..base] == old(argv[..base]) && argv[optind..] == old(argv[optind..])
    {
      ghost var a := argv[..];
      PermuteArgs(argv, nonopt_start, nonopt_end, optind);
      assert a[base..optind] == Arranged(done, skipped, nonopt_start - base);
      ExchangeBlocks(a, argv[..], base, nonopt_start, nonopt_end, optind, done, skipped);
    }

    /** argv from base on holds the options, then the operands, and optind is at the first operand. */
    ghost predicate InOrderAt(options: seq<string>, operands: seq<string>)
      requires base <= argv.Length
      reads this, argv
    {
      argv[base..] == options + operands && optind == base + |options|
    }

    /** A skipped operand joins the block, which is first moved behind any options that follow it. */
    method SkipOperand()
      requires Valid() && place == "" && cfg.mode == Permute
      requires optind < argv.Length && IsOperand(argv[optind], cfg.opts)
      modifies this, argv
      ensures Valid() && place == "" && optind == old(optind) + 1
      ensures argv[..base] == old(argv[..base]) && argv[old(optind)..] == old(argv[optind..])
      ensures done == old(done) && skipped == old(skipped) + [old(argv[optind])]
    {
      ghost var h := argv[optind];
      if nonopt_start == -1 {
        nonopt_start := optind;
      } else if nonopt_end != -1 {
        Exchange();
        nonopt_start := optind - (nonopt_end - nonopt_start);
        nonopt_end := -1;
      }
      assert argv[base..optind] == done + skipped;
      assert argv[optind..][0] == h;
      assert argv[base..optind + 1] == argv[base..optind] + [h];
      skipped := skipped + [h];
      optind := optind + 1;
    }

    /** The end of the scan. */
    method Finish()
      requires Layout() && (nonopt_end != -1 ==> nonopt_end < optind)
      modifies this, argv
      ensures argv[..base] == old(argv[..base])
      ensures InOrderAt(old(done), old(skipped) + old(argv[optind..]))
    {
      ghost var tail := argv[optind..];
      if nonopt_end != -1 {
        Exchange();
        assert argv[base..] == argv[base..optind] + argv[optind..];
        optind := optind - (nonopt_end - nonopt_start);
      } else {
        assert argv[base..] == argv[base..optind] + argv[optind..];
        if nonopt_start != -1 {
          optind := nonopt_start;
        }
      }
      place := "";
      nonopt_start, nonopt_end := -1, -1;
    }

    /** The remaining calls report r and sort the arguments into options and operands. */
    ghost predicate Expects(events: seq<Event>, stuck: bool, options: seq<string>, operands: seq<string>)
      requires optind <= argv.Length && (place != "" ==> optind < argv.Length)
      reads this, argv
    {
      Rest().events == events && Rest().stuck == stuck && done + Rest().options == options
      && skipped + Rest().operands == operands
    }

    method SkipAll(ghost e: seq<Event>, ghost stuck: bool, ghost opts: seq<string>, ghost opnds: seq<string>)
      requires Valid() && place == "" && Expects(e, stuck, opts, opnds)
      modifies this, argv
      ensures Valid() && place == "" && Expects(e, stuck, opts, opnds)
      ensures argv[..base] == old(argv[..base])
      ensures optind < argv.Length && cfg.mode == Permute ==> !IsOperand(argv[optind], cfg.opts)
    {
      while optind < argv.Length && IsOperand(argv[optind], cfg.opts) && cfg.mode == Permute
        invariant Valid() && place == "" && argv[..base] == old(argv[..base]) && Expects(e, stuck, opts, opnds)
        decreases argv.Length - optind
      {
        ghost var args, sk := argv[optind..], skipped;
        SkipOperand();
        assert argv[optind..] == args[1..];
        assert sk + ([args[0]] + Rest().operands) == skipped + Rest().operands;
      }
    }

    /** The start label of getopt_internal, when no letters are pending: at the end the whole
     of argv is in order and optind is behind the options. */
    method Scan(ghost e: seq<Event>, ghost stuck: bool, ghost opts: seq<string>, ghost opnds: seq<string>)
      returns (r: Scanned)
      requires Valid() && place == "" && Expects(e, stuck, opts, opnds)
      modifies this, argv
      ensures argv[..base] == old(argv[..base])
      ensures r.Finished? ==> e == [] && !stuck && InOrderAt(opts, opnds)
      ensures r.InOrderOperand?
        ==> e != [] && e[0] == Operand(r.text) && Valid() && place == "" && Expects(e[1..], stuck, opts, opnds)
      ensures r.Option? ==> Valid() && place != "" && Expects(e, stuck, opts, opnds)
    {
      SkipAll(e, stuck, opts, opnds);
      if optind >= argv.Length {
        Finish();
        return Finished;
      }
      var h := argv[optind];
      if IsOperand(h, cfg.opts) {
        r := ScanOperand(e, stuck, opts, opnds);
        return;
      }
      if nonopt_start != -1 && nonopt_end == -1 {
        nonopt_end := optind;
      }
      r := ScanDash(e, stuck, opts, opnds);
    }

    /** An operand, when they are not to be permuted. */
    method ScanOperand(ghost e: seq<Event>, ghost stuck: bool, ghost opts: seq<string>, ghost opnds: seq<string>)
      returns (r: Scanned)
      requires Valid() && place == "" && Expects(e, stuck, opts, opnds) && cfg.mode != Permute
      requires optind < argv.Length && IsOperand(argv[optind], cfg.opts)
      modifies this
      ensures r.Finished? ==> e == [] && !stuck && InOrderAt(opts, opnds)
      ensures r.InOrderOperand?
        ==> e != [] && e[0] == Operand(r.text) && Valid() && place == "" && Expects(e[1..], stuck, opts, opnds)
      ensures !r.Option?
    {
      ghost var args := argv[optind..];
      assert argv[base..] == argv[base..optind] + args;
      if cfg.mode == InOrder {
        var optarg := argv[optind];
        assert argv[base..optind + 1] == argv[base..optind] + [optarg];
        optind := optind + 1;
        assert argv[optind..] == args[1..];
        assert done + ([optarg] + Rest().options) == done + [optarg] + Rest().options;
        done := done + [optarg];
        return InOrderOperand(optarg);
      }
      return Finished;
    }

    /** An argument that begins with a dash. */
    method ScanDash(ghost e: seq<Event>, ghost stuck: bool, ghost opts: seq<string>, ghost opnds: seq<string>)
      returns (r: Scanned)
      requires Layout() && place == "" && Expects(e, stuck, opts, opnds)
      requires cfg.mode != Permute ==> nonopt_start == -1
      requires nonopt_start != -1 ==> nonopt_end != -1
      requires optind < argv.Length && !IsOperand(argv[optind], cfg.opts)
      modifies this, argv
      ensures argv[..base] == old(argv[..base])
      ensures r.Finished? ==> e == [] && !stuck && InOrderAt(opts, opnds)
      ensures !r.InOrderOperand?
      ensures r.Option? ==> Valid() && place != "" && Expects(e, stuck, opts, opnds)
    {
      var h := argv[optind];
      if h == "--" {
        EndOptions(opts, opnds);
        return Finished;
      }
      place := Start(h);
      return Option;
    }

    method EndOptions(ghost opts: seq<string>, ghost opnds: seq<string>)
      requires Layout() && (nonopt_start != -1 ==> nonopt_end != -1) && optind < argv.Length
      requires argv[optind] == "--" && done + ["--"] == opts && skipped + argv[optind..][1..] == opnds
      modifies this, argv
      ensures argv[..base] == old(argv[..base]) && InOrderAt(opts, opnds)
    {
      assert argv[optind..][..1] == ["--"];
      Consume(1);
      Finish();
    }

    /** n arguments used up by options. */
    method Consume(n: nat)
      requires Layout() && (nonopt_start != -1 ==> nonopt_end != -1) && optind + n <= argv.Length
      modifies this`optind, this`done
      ensures optind == old(optind) + n && Layout()
      ensures argv[optind..] == old(argv[optind..])[n..] && done == old(done) + old(argv[optind..])[..n]
    {
      assert argv[base..optind + n] == argv[base..optind] + argv[optind..optind + n];
      ghost var k := argv[optind..][..n];
      assert k == argv[optind..optind + n];
      assert argv[optind..][n..] == argv[optind + n..];
      if nonopt_start != -1 {
        ArrangedMore(done, skipped, nonopt_start - base, k);
      }
      done := done + k;
      optind := optind + n;
    }

    /** Getting stuck leaves argv out of order or optind before the end of the options. */
    lemma StuckIsDisorder(opts: seq<string>, opnds: seq<string>)
      requires Layout() && optind < argv.Length && (nonopt_start != -1 ==> nonopt_end != -1)
      requires exists more :: opts == done + [argv[optind]] + more
      requires forall h :: h in skipped ==> IsOperand(h, cfg.opts)
      ensures !InOrderAt(opts, opnds)
    {
      if nonopt_start != -1 {
        var at := nonopt_start - base;
        var a := argv[base..optind];
        assert a == Arranged(done, skipped, at);
        BlocksOf(a, done, skipped, at);
        assert argv[base..][at] == a[at] == a[at..at + |skipped|][0] == skipped[0];
        if at < |done| {
          assert done[at] == done[at..][0] == a[at + |skipped|..][0] == a[at + |skipped|] == argv[nonopt_end];
        } else {
          assert nonopt_end == optind;
        }
        assert (opts + opnds)[at] == argv[nonopt_end];
      } else {
        assert |argv[base..optind]| == |done|;
      }
    }

    /** n arguments are done with, and no letters are pending. */
    method UseUp(n: nat, ghost e: seq<Event>, ghost stuck: bool, ghost opts: seq<string>, ghost opnds: seq<string>)
      requires Layout() && (nonopt_start != -1 ==> nonopt_end != -1) && 0 < n && optind + n <= argv.Length
      requires cfg.mode != Permute ==> nonopt_start == -1
      requires var args := argv[optind..]; var s := Parse(args[n..], cfg);
               Outcome(e, opts, opnds, stuck)
                 == Outcome(s.events, done + (args[..n] + s.options), skipped + s.operands, s.stuck)
      modifies this
      ensures Valid() && Expects(e, stuck, opts, opnds)
    {
      ghost var args, d := argv[optind..], done;
      ghost var s := Parse(args[n..], cfg);
      Consume(n);
      place := "";
      Assoc(d, args[..n], s.options);
    }

    /** After a letter: the argument is done with when no letter is left. */
    method MoreLetters(ghost e: seq<Event>, ghost stuck: bool, ghost opts: seq<string>, ghost opnds: seq<string>)
      requires Layout() && (nonopt_start != -1 ==> nonopt_end != -1) && optind < argv.Length
      requires (cfg.mode != Permute ==> nonopt_start == -1) && !IsOperand(argv[optind], cfg.opts)
      requires var s := Resume(place, argv[optind..], cfg);
               Outcome(e, opts, opnds, stuck) == Outcome(s.events, done + s.options, skipped + s.operands, s.stuck)
      modifies this
      ensures Valid() && Expects(e, stuck, opts, opnds)
    {
      if place == "" {
        UseUp(1, e, stuck, opts, opnds);
      }
    }

    /** A letter without an argument. */
    method PassLetter(ev: Event, ghost e: seq<Event>, ghost stuck: bool, ghost opts: seq<string>,
        ghost opnds: seq<string>)
      requires Valid() && place != "" && Expects(e, stuck, opts, opnds)
      requires var next := Second(argv[optind..]);
               Letters(place, next, cfg.opts) == Before(ev, Letters(place[1..], next, cfg.opts))
      modifies this
      ensures e != [] && ev == e[0] && Valid() && Expects(e[1..], stuck, opts, opnds)
    {
      ResumeMore(place, argv[optind..], cfg, ev);
      place := place[1..];
      MoreLetters(e[1..], stuck, opts, opnds);
    }

    /** One option letter; None where the code gives up on a dash. */
    method NextLetter(ghost e: seq<Event>, ghost stuck: bool, ghost opts: seq<string>, ghost opnds: seq<string>)
      returns (r: Option<Event>)
      requires Valid() && place != "" && Expects(e, stuck, opts, opnds)
      modifies this
      ensures r.Some? ==> e != [] && r.value == e[0] && Valid() && Expects(e[1..], stuck, opts, opnds)
      ensures r.None? ==> e == [] && stuck && !InOrderAt(opts, opnds)
    {
      var c := place[0];
      var oli := Find(cfg.opts, c);
      if c == ':' || (c == '-' && place[1..] != "") || oli.None? {
        if c == '-' && place[1..] == "" {
          GivesUp(opts, opnds);
          place := "";
          return None;
        }
        PassLetter(Unknown(c), e, stuck, opts, opnds);
        return Some(Unknown(c));
      }
      if CharAt(cfg.opts, oli.value + 1) != ':' {
        PassLetter(Letter(c, None), e, stuck, opts, opnds);
        return Some(Letter(c, None));
      }
      r := NextArgument(c, oli.value, e, stuck, opts, opnds);
    }

    lemma GivesUp(opts: seq<string>, opnds: seq<string>)
      requires Layout() && optind < argv.Length && (nonopt_start != -1 ==> nonopt_end != -1)
      requires exists more :: opts == done + (argv[optind..][..1] + more)
      ensures !InOrderAt(opts, opnds)
    {
      var more :| opts == done + (argv[optind..][..1] + more);
      assert opts == done + [argv[optind]] + more;
      StuckIsDisorder(opts, opnds);
    }

    /** A letter that takes an argument. */
    method NextArgument(c: char, oli: nat, ghost e: seq<Event>, ghost stuck: bool, ghost opts: seq<string>,
        ghost opnds: seq<string>)
      returns (r: Option<Event>)
      requires Valid() && place != "" && Expects(e, stuck, opts, opnds)
      requires c == place[0] && c != ':' && (c == '-' ==> place[1..] == "")
      requires Find(cfg.opts, c) == Some(oli) && CharAt(cfg.opts, oli + 1) == ':'
      modifies this
      ensures r.Some? && e != [] && r.value == e[0] && Valid() && Expects(e[1..], stuck, opts, opnds)
    {
      ghost var args := argv[optind..];
      ArgumentTaken(place, args, cfg, oli);
      assert Rest() == Resume(place, args, cfg);
      var ev, used := TakeArgument(oli);
      UseUp(used, e[1..], stuck, opts, opnds);
      return Some(ev);
    }

    /** The argument: the rest of the word, none if it is optional, or the next word. */
    method TakeArgument(oli: nat) returns (ev: Event, used: nat)
      requires optind < argv.Length && place != ""
      ensures (ev, used) == Argument(place, argv[optind..], cfg, oli)
    {
      var c, optarg := place[0], None;
      used := 1;
      if |place| > 1 {
        optarg := Some(place[1..]);
      } else if CharAt(cfg.opts, oli + 2) != ':' {
        if optind + 1 >= argv.Length {
          return Missing(c), used;
        }
        optarg, used := Some(argv[optind + 1]), 2;
      }
      return Letter(c, optarg), used;
    }

    /** getopt: one call. */
    method Next(ghost e: seq<Event>, ghost stuck: bool, ghost opts: seq<string>, ghost opnds: seq<string>)
      returns (r: Option<Event>)
      requires Valid() && Expects(e, stuck, opts, opnds)
      modifies this, argv
      ensures argv[..base] == old(argv[..base])
      ensures r.Some? ==> e != [] && r.value == e[0] && Valid() && Expects(e[1..], stuck, opts, opnds)
      ensures r.None? ==> e == [] && (InOrderAt(opts, opnds) <==> !stuck)
    {
      if place == "" {
        var s := Scan(e, stuck, opts, opnds);
        if s.Finished? {
          return None;
        }
        if s.InOrderOperand? {
          return Some(Operand(s.text));
        }
      }
      r := NextLetter(e, stuck, opts, opnds);
    }
  }

  /** What a letter that takes an argument reports, and how many words it uses up. */
  ghost function Argument(place: string, args: seq<string>, cfg: Config, oli: nat): (Event, nat)
    requires place != ""
  {
    if |place| > 1 then (Letter(place[0], Some(place[1..])), 1)
    else if CharAt(cfg.opts, oli + 2) == ':' then (Letter(place[0], None), 1)
    else if |args| == 1 then (Missing(place[0]), 1)
    else (Letter(place[0], Second(args)), 2)
  }

  lemma ArgumentTaken(place: string, args: seq<string>, cfg: Config, oli: nat)
    requires args != [] && place != "" && place[0] != ':' && (place[0] == '-' ==> place[1..] == "")
    requires Find(cfg.opts, place[0]) == Some(oli) && CharAt(cfg.opts, oli + 1) == ':'
    ensures var (ev, n) := Argument(place, args, cfg, oli);
            n <= |args| && var s := Parse(args[n..], cfg);
            Resume(place, args, cfg) == Outcome([ev] + s.events, args[..n] + s.options, s.operands, s.stuck)
            && Resume(place, args, cfg).events[1..] == s.events
  {
    var (ev, n) := Argument(place, args, cfg, oli);
    assert Letters(place, Second(args), cfg.opts) == Cluster([ev], n, false);
  }

  lemma ResumeMore(place: string, args: seq<string>, cfg: Config, ev: Event)
    requires args != [] && place != ""
    requires Letters(place, Second(args), cfg.opts) == Before(ev, Letters(place[1..], Second(args), cfg.opts))
    ensures var r, s := Resume(place, args, cfg), Resume(place[1..], args, cfg);
            r == s.(events := [ev] + s.events) && r.events[1..] == s.events
  {
    var l := Letters(place[1..], Second(args), cfg.opts);
    var p := Parse(args[l.used..], cfg);
    var tail := if l.stuck then [] else p.events;
    Assoc([ev], l.events, tail);
    assert Resume(place[1..], args, cfg).events == l.events + tail;
    assert Resume(place, args, cfg).events == [ev] + l.events + tail;
  }

  /** Calling getopt until it returns -1: it reports the options of the reference, and leaves the
   arguments from optind on in its order exactly when no option of the run ends in a dash letter. */
  method GetoptRun(argv: array<string>, options: string, posixlyCorrect: bool, optind: nat)
    returns (events: seq<Event>, end: nat)
    requires optind <= argv.Length
    modifies argv
    ensures argv[..optind] == old(argv[..optind])
    ensures var p := Parse(old(argv[optind..]), Configure(options, posixlyCorrect));
            events == p.events
            && (argv[optind..] == p.options + p.operands && end == optind + |p.options|
                <==> !HasDashLetter(old(argv[optind..]), Configure(options, posixlyCorrect)))
  {
    var s := new Scanner(argv, options, posixlyCorrect, optind);
    ghost var p := s.Rest();
    ParseStuck(argv[optind..], s.cfg);
    events := [];
    ghost var left := p.events;
    var done := false;
    while !done
      invariant events + left == p.events && s.argv == argv && s.base == optind && fresh(s)
      invariant argv[..optind] == old(argv[..optind])
      invariant !done ==> s.Valid() && s.Expects(left, p.stuck, p.options, p.operands)
      invariant done ==> events == p.events && (s.InOrderAt(p.options, p.operands) <==> !p.stuck)
      decreases !done, |left|
    {
      var r := s.Next(left, p.stuck, p.options, p.operands);
      if r.None? {
        done := true;
      } else {
        MoveFirst(events, left);
        events, left := events + [r.value], left[1..];
      }
    }
    end := s.optind;
  }

  lemma MoveFirst<T>(a: seq<T>, b: seq<T>)
    requires b != []
    ensures a + b == (a + [b[0]]) + b[1..]
  {}

  lemma ArrangedMore(done: seq<string>, skipped: seq<string>, at: nat, more: seq<string>)
    requires at <= |done|
    ensures Arranged(done + more, skipped, at) == Arranged(done, skipped, at) + more
  {}

  lemma ExchangeBlocks(
    a: seq<string>, a': seq<string>, base: nat, s: nat, m: nat, n: nat, done: seq<string>, skipped: seq<string>)
    requires base <= s < m < n <= |a| && s - base <= |done| && |skipped| == m - s
    requires a[base..n] == Arranged(done, skipped, s - base)
    requires a' == a[..s] + a[m..n] + a[s..m] + a[n..]
    ensures |a'| == |a| && a'[base..n] == done + skipped && a'[..base] == a[..base] && a'[n..] == a[n..]
  {
    BlocksOf(a[base..n], done, skipped, s - base);
    SliceOf(a, base, n, 0, s - base);
    SliceOf(a, base, n, s - base, m - base);
    SliceOf(a, base, n, m - base, n - base);
    assert a[base..n][m - base..n - base] == a[base..n][m - base..];
    assert a[..s] == a[..base] + a[base..s];
  }

  lemma BlocksOf(a: seq<string>, done: seq<string>, skipped: seq<string>, at: nat)
    requires at <= |done| && a == Arranged(done, skipped, at)
    ensures |a| == |done| + |skipped|
    ensures a[..at] == done[..at] && a[at..at + |skipped|] == skipped && a[at + |skipped|..] == done[at..]
    ensures done == done[..at] + done[at..]
  {}
}