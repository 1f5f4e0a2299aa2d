/** The pushdown part of the JSON parser of usual/json.c: token sequences and the tree they build.

 `Step` is one round of parse_tokens after a token was read: the table STATE_STEPS and the
 action that goes with the token.  The main result says that in strict mode the machine accepts
 exactly the token sequence of one JSON value with distinct keys of allowed length in every
 object, and that the tree it builds is that value.
 */
module JsonTokens {
  import opened Prelude
  import opened Utf8

  const JSON_MAX_KEY: nat := 1024 * 1024

  /** A parsed value.  Numbers with a fraction or exponent keep their text; the conversion
      to binary is libc's.  The members of an object are in order of appearance; `size` is the
      v_size that json_value_size reports. */
  datatype Json =
    | Null
    | Bool(b: bool)
    | Int(n: int)
    | Float(text: Bytes)
    | Str(s: Bytes)
    | List(items: seq<Json>)
    | Dict(members: seq<Member>, size: nat)

  datatype Member = Member(key: Bytes, value: Json)

  /** Token types of the source, with the value that was parsed for T_STRING and T_OTHER. */
  datatype Token =
    | TString(s: Bytes)
    | TOther(v: Json)
    | TComma
    | TColon
    | TOpenDict
    | TOpenList
    | TCloseDict
    | TCloseList

  datatype State =
    | InitialValue
    | ListValue
    | ListValueOrClose
    | ListCommaOrClose
    | DictKey
    | DictKeyOrClose
    | DictColon
    | DictValue
    | DictCommaOrClose
    | Parent
    | Done

  /** STATE_STEPS: oldstate + token -> newstate, None for an unexpected symbol. */
  function NextState(state: State, t: Token): Option<State> {
    match state
    case InitialValue => (match t
      case TOpenList => Some(ListValueOrClose)
      case TOpenDict => Some(DictKeyOrClose)
      case TString(_) => Some(Done)
      case TOther(_) => Some(Done)
      case _ => None)
    case ListValue => (match t
      case TOpenList => Some(ListValueOrClose)
      case TOpenDict => Some(DictKeyOrClose)
      case TString(_) => Some(ListCommaOrClose)
      case TOther(_) => Some(ListCommaOrClose)
      case _ => None)
    case ListValueOrClose => (match t
      case TOpenList => Some(ListValueOrClose)
      case TOpenDict => Some(DictKeyOrClose)
      case TString(_) => Some(ListCommaOrClose)
      case TOther(_) => Some(ListCommaOrClose)
      case TCloseList => Some(Parent)
      case _ => None)
    case ListCommaOrClose => (match t
      case TComma => Some(ListValue)
      case TCloseList => Some(Parent)
      case _ => None)
    case DictKey => if t.TString? then Some(DictColon) else None
    case DictKeyOrClose => (match t
      case TString(_) => Some(DictColon)
      case TCloseDict => Some(Parent)
      case _ => None)
    case DictColon => if t.TColon? then Some(DictValue) else None
    case DictValue => (match t
      case TOpenList => Some(ListValueOrClose)
      case TOpenDict => Some(DictKeyOrClose)
      case TString(_) => Some(DictCommaOrClose)
      case TOther(_) => Some(DictCommaOrClose)
      case _ => None)
    case DictCommaOrClose => (match t
      case TComma => Some(DictKey)
      case TCloseDict => Some(Parent)
      case _ => None)
    case Parent => None
    case Done => None
  }

  /** An open container.  `size` is v_size, raised when a key is added; `pending` is the key
      whose value is a container that is still open. */
  datatype Frame =
    | ListFrame(items: seq<Json>)
    | DictFrame(members: seq<Member>, size: nat, pending: Option<Bytes>)

  /** The parse state of `struct JsonContext`: the chain of open containers (innermost last)
      stands for `parent` and the parent links. */
  datatype Ctx = Ctx(state: State, parents: seq<Frame>, curKey: Option<Bytes>, top: Option<Json>)

  const START: Ctx := Ctx(InitialValue, [], None, None)

  function Top(st: Ctx): Frame
    requires st.parents != []
  {
    st.parents[|st.parents| - 1]
  }

  function Pop(st: Ctx): seq<Frame>
    requires st.parents != []
  {
    st.parents[..|st.parents| - 1]
  }

  predicate HasKey(members: seq<Member>, key: Bytes) {
    exists i :: 0 <= i < |members| && members[i].key == key
  }

  /** mk_value, the part that links a new value: as value of the current key, as the current key,
      as list element, or as the only top value. */
  function Attach(st: Ctx, v: Json): Option<Ctx> {
    if st.parents == [] then
      if st.top.None? then Some(st.(top := Some(v))) else None
    else
      match Top(st)
      case ListFrame(items) => Some(st.(parents := Pop(st) + [ListFrame(items + [v])]))
      case DictFrame(members, size, pending) =>
        if st.curKey.Some? then
          Some(st.(parents := Pop(st) + [DictFrame(members + [Member(st.curKey.value, v)], size, pending)],
                   curKey := None))
        else if v.Str? then Some(st.(curKey := Some(v.s)))
        else None
  }

  /** open_container: the current key is used up; it waits in the parent until the child is closed. */
  function Open(st: Ctx, f: Frame): Option<Ctx> {
    if st.parents != [] && Top(st).DictFrame? then
      if st.curKey.None? then None
      else Some(st.(parents := Pop(st) + [Top(st).(pending := st.curKey), f], curKey := None))
    else if st.parents == [] && st.top.Some? then None
    else Some(st.(parents := st.parents + [f], curKey := None))
  }

  function Finished(f: Frame): Json {
    match f
    case ListFrame(items) => List(items)
    case DictFrame(members, size, _) => Dict(members, size)
  }

  /** close_container: the child becomes visible in its parent, which becomes current again. */
  function Close(st: Ctx): Option<Ctx> {
    if st.parents == [] then None
    else
      var v := Finished(Top(st));
      var outer := st.(parents := Pop(st), curKey := None);
      if outer.parents == [] then
        Some(outer.(state := Done, top := Some(v)))
      else
        match Top(outer)
        case ListFrame(items) =>
          Some(outer.(state := ListCommaOrClose, parents := Pop(outer) + [ListFrame(items + [v])]))
        case DictFrame(members, size, pending) =>
          if pending.None? then None
          else Some(outer.(state := DictCommaOrClose,
                           parents := Pop(outer) + [DictFrame(members + [Member(pending.value, v)], size, None)]))
  }

  /** real_dict_add_key: fails for a long key and for a key that is there already. */
  function AddKey(st: Ctx): Option<Ctx> {
    if st.parents == [] || !Top(st).DictFrame? || st.curKey.None? then None
    else if |st.curKey.value| > JSON_MAX_KEY || HasKey(Top(st).members, st.curKey.value) then None
    else Some(st.(parents := Pop(st) + [Top(st).(size := Top(st).size + 1)]))
  }

  /** One token: new state from the table, then the action. */
  function Step(st: Ctx, t: Token): Option<Ctx> {
    var next := NextState(st.state, t);
    if next.None? then None
    else
      var s := st.(state := next.value);
      match t
      case TString(x) => Attach(s, Str(x))
      case TOther(v) => Attach(s, v)
      case TComma => Some(s)
      case TColon => AddKey(s)
      case TOpenDict => Open(s, DictFrame([], 0, None))
      case TOpenList => Open(s, ListFrame([]))
      case TCloseDict => Close(s)
      case TCloseList => Close(s)
  }

  function Run(st: Ctx, ts: seq<Token>): Option<Ctx>
    decreases |ts|
  {
    if ts == [] then Some(st)
    else
      match Step(st, ts[0])
      case None => None
      case Some(s) => Run(s, ts[1..])
  }

  /** parse_tokens succeeds with this value. */
  predicate Accepts(ts: seq<Token>, v: Json) {
    var r := Run(START, ts);
    r.Some? && r.value.state == Done && r.value.top == Some(v)
  }

  // ----- the grammar: tokens of a value

  function TokensOf(v: Json): seq<Token>
    decreases v, 0
  {
    match v
    case Str(s) => [TString(s)]
    case List(items) => [TOpenList] + ListTokens(items) + [TCloseList]
    case Dict(members, _) => [TOpenDict] + DictTokens(members) + [TCloseDict]
    case _ => [TOther(v)]
  }

  /** Elements separated by commas. */
  function ListTokens(items: seq<Json>): seq<Token>
    decreases items, 1
  {
    if items == [] then []
    else ListPrefix(items[..|items| - 1]) + TokensOf(items[|items| - 1])
  }

  /** Elements with a comma behind each. */
  function ListPrefix(items: seq<Json>): seq<Token>
    decreases items, 0
  {
    if items == [] then []
    else ListPrefix(items[..|items| - 1]) + TokensOf(items[|items| - 1]) + [TComma]
  }

  function MemberTokens(m: Member): seq<Token>
    decreases m, 0
  {
    [TString(m.key), TColon] + TokensOf(m.value)
  }

  function DictTokens(members: seq<Member>): seq<Token>
    decreases members, 1
  {
    if members == [] then []
    else DictPrefix(members[..|members| - 1]) + MemberTokens(members[|members| - 1])
  }

  function DictPrefix(members: seq<Member>): seq<Token>
    decreases members, 0
  {
    if members == [] then []
    else DictPrefix(members[..|members| - 1]) + MemberTokens(members[|members| - 1]) + [TComma]
  }

  /** Distinct keys of allowed length in every object, and as many as its size says. */
  ghost predicate ValidJson(v: Json)
    decreases v, 0
  {
    match v
    case List(items) => ValidItems(items)
    case Dict(members, size) => ValidMembers(members) && size == |members|
    case _ => true
  }

  ghost predicate ValidItems(items: seq<Json>)
    decreases items, 0
  {
    forall i :: 0 <= i < |items| ==> ValidJson(items[i])
  }

  ghost predicate ValidMembers(members: seq<Member>)
    decreases members, 0
  {
    && (forall i :: 0 <= i < |members| ==> |members[i].key| <= JSON_MAX_KEY && ValidJson(members[i].value))
    && (forall i, j :: 0 <= i < j < |members| ==> members[i].key != members[j].key)
  }

  /** A scalar that is not a string: what T_OTHER stands for. */
  predicate Other(v: Json) { v.Null? || v.Bool? || v.Int? || v.Float? }

  // ----- what every step keeps

  /** A key that may be added next. */
  ghost predicate FreshKey(members: seq<Member>, key: Bytes) { |key| <= JSON_MAX_KEY && !HasKey(members, key) }

  /** A container with an open child: a dict waits for the value of a key it has counted. */
  ghost predicate OuterOk(f: Frame) {
    match f
    case ListFrame(items) => ValidItems(items)
    case DictFrame(members, size, pending) =>
      ValidMembers(members) && size == |members| + 1 && pending.Some? && FreshKey(members, pending.value)
  }

  ghost predicate AllOuterOk(fs: seq<Frame>) { forall i :: 0 <= i < |fs| ==> OuterOk(fs[i]) }

  /** The state agrees with the type of the innermost container, with whether a key is set, and
      with the size of the dict. */
  ghost predicate InnerOk(state: State, f: Frame, curKey: Option<Bytes>) {
    match f
    case ListFrame(items) =>
      && ValidItems(items) && curKey.None?
      && (|| (state == ListValueOrClose && items == [])
          || ((state == ListValue || state == ListCommaOrClose) && items != []))
    case DictFrame(members, size, pending) =>
      && ValidMembers(members) && pending.None?
      && (|| (state == DictKeyOrClose && members == [] && curKey.None? && size == 0)
          || ((state == DictKey || state == DictCommaOrClose) && members != [] && curKey.None? && size == |members|)
          || (state == DictColon && curKey.Some? && size == |members|)
          || (state == DictValue && curKey.Some? && size == |members| + 1 && FreshKey(members, curKey.value)))
  }

  /** The invariant of the parser.  It is stated as an equation so that the verifier takes it as
      one proposition. */
  ghost predicate Ok(st: Ctx) { Agrees(st) == true }

  ghost predicate Agrees(st: Ctx) {
    if st.parents == [] then
      && st.curKey.None?
      && (|| (st.state == InitialValue && st.top.None?)
          || (st.state == Done && st.top.Some? && ValidJson(st.top.value)))
    else
      st.top.None? && InnerOk(st.state, Top(st), st.curKey) && AllOuterOk(Pop(st))
  }

  // ----- the tokens that led to a state

  function OuterTokens(f: Frame): seq<Token> {
    match f
    case ListFrame(items) => [TOpenList] + ListPrefix(items)
    case DictFrame(members, _, pending) =>
      [TOpenDict] + DictPrefix(members) + (if pending.Some? then [TString(pending.value), TColon] else [])
  }

  function AllOuterTokens(fs: seq<Frame>): seq<Token> {
    if fs == [] then [] else AllOuterTokens(fs[..|fs| - 1]) + OuterTokens(fs[|fs| - 1])
  }

  function InnerTokens(state: State, f: Frame, curKey: Option<Bytes>): seq<Token> {
    match f
    case ListFrame(items) => [TOpenList] + if state == ListCommaOrClose then ListTokens(items) else ListPrefix(items)
    case DictFrame(members, _, _) =>
      if state == DictCommaOrClose then [TOpenDict] + DictTokens(members)
      else
        [TOpenDict] + DictPrefix(members)
        + (if curKey.None? then [] else if state == DictColon then [TString(curKey.value)]
        else [TString(curKey.value), TColon])
  }

  /** All tokens read so far, recovered from the state. */
  function Consumed(st: Ctx): seq<Token> {
    if st.parents != [] then AllOuterTokens(Pop(st)) + InnerTokens(st.state, Top(st), st.curKey)
    else if st.top.Some? then TokensOf(st.top.value)
    else []
  }

  // ----- soundness of a step

  lemma Associates4(a: seq<Token>, b: seq<Token>, c: seq<Token>, d: seq<Token>)
    ensures (a + b + c) + d == a + (b + (c + d))
  {}

  lemma Associates(a: seq<Token>, b: seq<Token>, c: seq<Token>)
    ensures a + (b + c) == (a + b) + c
  {}

  lemma {:induction false} PushOuter(fs: seq<Frame>, f: Frame)
    ensures AllOuterTokens(fs + [f]) == AllOuterTokens(fs) + OuterTokens(f)
  {}

  lemma {:induction false} ListSnoc(items: seq<Json>, v: Json)
    ensures ListTokens(items + [v]) == ListPrefix(items) + TokensOf(v)
    ensures ListPrefix(items + [v]) == ListTokens(items + [v]) + [TComma]
    ensures ValidItems(items) && ValidJson(v) ==> ValidItems(items + [v])
  {}

  lemma {:induction false} DictSnoc(members: seq<Member>, key: Bytes, v: Json)
    ensures DictTokens(members + [Member(key, v)]) == DictPrefix(members) + ([TString(key), TColon] + TokensOf(v))
    ensures DictPrefix(members + [Member(key, v)]) == DictTokens(members + [Member(key, v)]) + [TComma]
    ensures ValidMembers(members) && ValidJson(v) && FreshKey(members, key) ==> ValidMembers(members + [Member(key, v)])
  {}

  ghost predicate SoundStep(st: Ctx, t: Token, s: Ctx) { (Ok(s), Consumed(s)) == (true, Consumed(st) + [t]) }

  /** A step that only touches the innermost container. */
  lemma {:induction false} InnerSound(st: Ctx, t: Token, s: Ctx, f: Frame)
    requires Ok(st) && st.parents != [] && s.parents == Pop(st) + [f] && s.top == st.top
    requires InnerOk(s.state, f, s.curKey)
    requires InnerTokens(s.state, f, s.curKey) == InnerTokens(st.state, Top(st), st.curKey) + [t]
    ensures SoundStep(st, t, s)
  {
    assert Pop(s) == Pop(st) && Top(s) == f;
    assert Consumed(s) == Consumed(st) + [t];
  }

  /** A value, given by its tokens, arrives in a list or behind a key. */
  lemma {:induction false} ListValueArrives(state: State, items: seq<Json>, v: Json)
    requires InnerOk(state, ListFrame(items), None) && (state == ListValue || state == ListValueOrClose) && ValidJson(v)
    ensures InnerOk(ListCommaOrClose, ListFrame(items + [v]), None)
    ensures InnerTokens(ListCommaOrClose, ListFrame(items + [v]), None)
      == InnerTokens(state, ListFrame(items), None) + TokensOf(v)
  {}

  lemma {:induction false} DictValueArrives(f: Frame, key: Bytes, v: Json)
    requires f.DictFrame? && InnerOk(DictValue, f, Some(key)) && ValidJson(v)
    ensures InnerOk(DictCommaOrClose, DictFrame(f.members + [Member(key, v)], f.size, None), None)
    ensures InnerTokens(DictCommaOrClose, DictFrame(f.members + [Member(key, v)], f.size, None), None)
         == InnerTokens(DictValue, f, Some(key)) + TokensOf(v)
  {
    DictSnoc(f.members, key, v);
    assert [TOpenDict] + (DictPrefix(f.members) + ([TString(key), TColon] + TokensOf(v)))
        == [TOpenDict] + DictPrefix(f.members) + [TString(key), TColon] + TokensOf(v);
  }

  lemma {:induction false} KeyArrives(state: State, f: Frame, key: Bytes)
    requires f.DictFrame? && InnerOk(state, f, None) && (state == DictKey || state == DictKeyOrClose)
    ensures InnerOk(DictColon, f, Some(key))
    ensures InnerTokens(DictColon, f, Some(key)) == InnerTokens(state, f, None) + [TString(key)]
  {}

  lemma {:induction false} ColonArrives(f: Frame, key: Bytes)
    requires f.DictFrame? && InnerOk(DictColon, f, Some(key)) && FreshKey(f.members, key)
    ensures InnerOk(DictValue, f.(size := f.size + 1), Some(key))
    ensures InnerTokens(DictValue, f.(size := f.size + 1), Some(key)) == InnerTokens(DictColon, f, Some(key)) + [TColon]
  {}

  lemma {:induction false} CommaArrives(state: State, f: Frame)
    requires InnerOk(state, f, None) && (state == ListCommaOrClose || state == DictCommaOrClose)
    ensures state == ListCommaOrClose <==> f.ListFrame?
    ensures InnerOk(if f.ListFrame? then ListValue else DictKey, f, None)
    ensures InnerTokens(if f.ListFrame? then ListValue else DictKey, f, None) == InnerTokens(state, f, None) + [TComma]
  {}

  lemma {:induction false} ScalarSound(st: Ctx, t: Token, s: Ctx)
    requires Ok(st) && Step(st, t) == Some(s) && (t.TString? || t.TOther?) && (t.TOther? ==> Other(t.v))
    ensures SoundStep(st, t, s)
  {
    var v := if t.TString? then Str(t.s) else t.v;
    assert TokensOf(v) == [t] && ValidJson(v);
    if st.parents != [] {
      if Top(st).ListFrame? {
        ScalarInList(st, t, s, v);
      } else {
        ScalarInDict(st, t, s, v);
      }
    } else {
      assert Consumed(s) == [t] == Consumed(st) + [t];
    }
  }

  lemma {:induction false} ScalarInList(st: Ctx, t: Token, s: Ctx, v: Json)
    requires Ok(st) && Step(st, t) == Some(s) && st.parents != [] && Top(st).ListFrame?
    requires (t == TString(if v.Str? then v.s else []) || t == TOther(v)) && TokensOf(v) == [t] && ValidJson(v)
    ensures SoundStep(st, t, s)
  {
    var items := Top(st).items;
    ListValueArrives(st.state, items, v);
    InnerSound(st, t, s, ListFrame(items + [v]));
  }

  lemma {:induction false} ScalarInDict(st: Ctx, t: Token, s: Ctx, v: Json)
    requires Ok(st) && Step(st, t) == Some(s) && st.parents != [] && Top(st).DictFrame?
    requires (t == TString(if v.Str? then v.s else []) || t == TOther(v)) && TokensOf(v) == [t] && ValidJson(v)
    ensures SoundStep(st, t, s)
  {
    if st.state == DictValue {
      ScalarBehindKey(st, t, s, v);
    } else {
      KeyInDict(st, t, s);
    }
  }

  lemma {:induction false} ScalarBehindKey(st: Ctx, t: Token, s: Ctx, v: Json)
    requires Ok(st) && Step(st, t) == Some(s) && st.parents != [] && Top(st).DictFrame? && st.state == DictValue
    requires (t == TString(if v.Str? then v.s else []) || t == TOther(v)) && TokensOf(v) == [t] && ValidJson(v)
    ensures SoundStep(st, t, s)
  {
    var f := Top(st);
    DictValueArrives(f, st.curKey.value, v);
    InnerSound(st, t, s, DictFrame(f.members + [Member(st.curKey.value, v)], f.size, None));
  }

  lemma {:induction false} KeyInDict(st: Ctx, t: Token, s: Ctx)
    requires Ok(st) && Step(st, t) == Some(s) && st.parents != [] && Top(st).DictFrame? && st.state != DictValue
    requires t.TString? || t.TOther?
    ensures SoundStep(st, t, s)
  {
    var f := Top(st);
    KeyArrives(st.state, f, t.s);
    assert Pop(st) + [f] == st.parents;
    InnerSound(st, t, s, f);
  }

  lemma {:induction false} PunctuationSound(st: Ctx, t: Token, s: Ctx)
    requires Ok(st) && Step(st, t) == Some(s) && (t.TComma? || t.TColon?)
    ensures SoundStep(st, t, s)
  {
    assert Pop(st) + [Top(st)] == st.parents;
    if t.TColon? {
      ColonArrives(Top(st), st.curKey.value);
      InnerSound(st, t, s, Top(st).(size := Top(st).size + 1));
    } else {
      CommaArrives(st.state, Top(st));
      InnerSound(st, t, s, Top(st));
    }
  }

  /** A container that gets an open child becomes an outer container with the same tokens. */
  lemma {:induction false} BecomesOuter(state: State, f: Frame, curKey: Option<Bytes>)
    requires InnerOk(state, f, curKey) && (state == ListValue || state == ListValueOrClose || state == DictValue)
    ensures var g := if f.DictFrame? then f.(pending := curKey) else f;
      OuterOk(g) && OuterTokens(g) == InnerTokens(state, f, curKey)
  {}

  lemma OuterSplit(fs: seq<Frame>, f: Frame)
    ensures AllOuterOk(fs + [f]) <==> AllOuterOk(fs) && OuterOk(f)
  {
    if AllOuterOk(fs + [f]) {
      assert (fs + [f])[|fs|] == f;
      forall i | 0 <= i < |fs| ensures OuterOk(fs[i]) {
        assert (fs + [f])[i] == fs[i];
      }
    }
  }

  lemma {:induction false} PushSound(st: Ctx, t: Token, s: Ctx, f: Frame, inner: Frame)
    requires Ok(st) && st.parents != [] && s.parents == Pop(st) + [f] + [inner] && s.top == st.top
    requires OuterOk(f) && OuterTokens(f) == InnerTokens(st.state, Top(st), st.curKey)
    requires InnerOk(s.state, inner, s.curKey) && InnerTokens(s.state, inner, s.curKey) == [t]
    ensures SoundStep(st, t, s)
  {}

  lemma {:induction false} PopSound(st: Ctx, t: Token, s: Ctx, fs: seq<Frame>, outer: Frame, f: Frame)
    requires Ok(st) && st.parents != [] && Pop(st) == fs + [outer] && s.parents == fs + [f] && s.top == st.top
      && s.curKey.None?
    requires InnerOk(s.state, f, None)
    requires InnerTokens(s.state, f, None) == OuterTokens(outer) + (InnerTokens(st.state, Top(st), st.curKey) + [t])
    ensures SoundStep(st, t, s)
  {
    assert Pop(s) == fs && Top(s) == f;
    PushOuter(fs, outer);
    OuterSplit(fs, outer);
    var a, o, i := AllOuterTokens(fs), OuterTokens(outer), InnerTokens(st.state, Top(st), st.curKey);
    Associates(a, o, i + [t]);
    Associates(a + o, i, [t]);
    assert Consumed(s) == Consumed(st) + [t];
  }

  lemma {:induction false} OpenSound(st: Ctx, t: Token, s: Ctx)
    requires Ok(st) && Step(st, t) == Some(s) && (t.TOpenDict? || t.TOpenList?)
    ensures SoundStep(st, t, s)
  {
    if st.parents == [] {
      OpenFirst(st, t, s);
    } else {
      OpenNested(st, t, s);
    }
  }

  function NewFrame(t: Token): Frame { if t.TOpenDict? then DictFrame([], 0, None) else ListFrame([]) }

  lemma {:induction false} OpenInner(st: Ctx, t: Token, s: Ctx)
    requires Step(st, t) == Some(s) && (t.TOpenDict? || t.TOpenList?)
    ensures InnerOk(s.state, NewFrame(t), None) && InnerTokens(s.state, NewFrame(t), None) == [t]
  {}

  lemma {:induction false} OpenFirst(st: Ctx, t: Token, s: Ctx)
    requires Ok(st) && Step(st, t) == Some(s) && (t.TOpenDict? || t.TOpenList?) && st.parents == []
    ensures SoundStep(st, t, s)
  {
    OpenInner(st, t, s);
    assert s.parents == [NewFrame(t)] && Pop(s) == [] && AllOuterTokens([]) == [];
    assert Consumed(st) == [];
  }

  lemma {:induction false} OpenNested(st: Ctx, t: Token, s: Ctx)
    requires Ok(st) && Step(st, t) == Some(s) && (t.TOpenDict? || t.TOpenList?) && st.parents != []
    ensures SoundStep(st, t, s)
  {
    OpenInner(st, t, s);
    var f := if Top(st).DictFrame? then Top(st).(pending := st.curKey) else Top(st);
    BecomesOuter(st.state, Top(st), st.curKey);
    assert st.parents == Pop(st) + [Top(st)];
    PushSound(st, t, s, f, NewFrame(t));
  }

  lemma {:induction false} CloseSound(st: Ctx, t: Token, s: Ctx)
    requires Ok(st) && Step(st, t) == Some(s) && (t.TCloseDict? || t.TCloseList?)
    ensures SoundStep(st, t, s)
  {
    ClosedTokens(st, t);
    if Pop(st) == [] {
      CloseLast(st, t, s);
    } else {
      var fs, outer, f := CloseShape(st, s);
      PopSound(st, t, s, fs, outer, f);
    }
  }

  lemma {:induction false} CloseLast(st: Ctx, t: Token, s: Ctx)
    requires st.parents != [] && Pop(st) == [] && Close(st.(state := Parent)) == Some(s) && ValidJson(Finished(Top(st)))
    requires InnerTokens(st.state, Top(st), st.curKey) + [t] == TokensOf(Finished(Top(st)))
    ensures SoundStep(st, t, s)
  {
    assert AllOuterTokens([]) == [];
    assert Consumed(st) == InnerTokens(st.state, Top(st), st.curKey);
  }

  /** What closing does to the chain of containers. */
  lemma {:induction false} CloseShape(st: Ctx, s: Ctx) returns (fs: seq<Frame>, outer: Frame, f: Frame)
    requires Ok(st) && st.parents != [] && Pop(st) != [] && ValidJson(Finished(Top(st)))
    requires Close(st.(state := Parent)) == Some(s)
    ensures Pop(st) == fs + [outer] && s.parents == fs + [f] && s.top == st.top && s.curKey.None?
    ensures InnerOk(s.state, f, None)
      && InnerTokens(s.state, f, None) == OuterTokens(outer) + TokensOf(Finished(Top(st)))
  {
    fs, outer := Pop(st)[..|Pop(st)| - 1], Pop(st)[|Pop(st)| - 1];
    assert Pop(st) == fs + [outer];
    OuterSplit(fs, outer);
    var v := Finished(Top(st));
    ChildArrives(outer, v);
    f := if outer.ListFrame? then ListFrame(outer.items + [v])
         else DictFrame(outer.members + [Member(outer.pending.value, v)], outer.size, None);
  }

  /** The finished child takes the place that was kept for it. */
  lemma {:induction false} ChildArrives(outer: Frame, v: Json)
    requires OuterOk(outer) && ValidJson(v)
    ensures match outer
      case ListFrame(items) =>
        && InnerOk(ListCommaOrClose, ListFrame(items + [v]), None)
        && InnerTokens(ListCommaOrClose, ListFrame(items + [v]), None) == OuterTokens(outer) + TokensOf(v)
      case DictFrame(members, size, pending) =>
        var g := DictFrame(members + [Member(pending.value, v)], size, None);
        InnerOk(DictCommaOrClose, g, None) && InnerTokens(DictCommaOrClose, g, None) == OuterTokens(outer) + TokensOf(v)
  {
    match outer
    case ListFrame(items) =>
      ListSnoc(items, v);
      assert [TOpenList] + (ListPrefix(items) + TokensOf(v)) == [TOpenList] + ListPrefix(items) + TokensOf(v);
    case DictFrame(members, size, pending) =>
      DictValueArrives(DictFrame(members, size, None), pending.value, v);
  }

  /** Closing completes the tokens of the value. */
  lemma {:induction false} ClosedTokens(st: Ctx, t: Token)
    requires Ok(st) && Step(st, t).Some? && (t.TCloseDict? || t.TCloseList?)
    ensures st.parents != [] && ValidJson(Finished(Top(st)))
    ensures InnerTokens(st.state, Top(st), st.curKey) + [t] == TokensOf(Finished(Top(st)))
  {}

  /** Every step keeps the invariant and adds its token to what was consumed. */
  lemma {:induction false} StepSound(st: Ctx, t: Token, s: Ctx)
    requires Ok(st) && Step(st, t) == Some(s) && (t.TOther? ==> Other(t.v))
    ensures SoundStep(st, t, s)
  {
    match t
    case TString(_) => ScalarSound(st, t, s);
    case TOther(_) => ScalarSound(st, t, s);
    case TComma => PunctuationSound(st, t, s);
    case TColon => PunctuationSound(st, t, s);
    case TOpenDict => OpenSound(st, t, s);
    case TOpenList => OpenSound(st, t, s);
    case TCloseDict => CloseSound(st, t, s);
    case TCloseList => CloseSound(st, t, s);
  }

  ghost predicate ScalarTokens(ts: seq<Token>) { forall i :: 0 <= i < |ts| && ts[i].TOther? ==> Other(ts[i].v) }

  lemma {:induction false} RunSound(st: Ctx, ts: seq<Token>, s: Ctx)
    requires Ok(st) && Run(st, ts) == Some(s) && ScalarTokens(ts)
    ensures (Ok(s), Consumed(s)) == (true, Consumed(st) + ts)
    decreases |ts|
  {
    if ts != [] {
      var m := Step(st, ts[0]).value;
      StepSound(st, ts[0], m);
      RunSound(m, ts[1..], s);
      Associates(Consumed(st), [ts[0]], ts[1..]);
      assert [ts[0]] + ts[1..] == ts;
    } else {
      assert Consumed(st) + [] == Consumed(st);
    }
  }

  // ----- completeness

  ghost predicate ExpectsValue(st: Ctx) {
    Ok(st) && (st.state == InitialValue || st.state == ListValue || st.state == ListValueOrClose
      || st.state == DictValue)
  }

  /** The context after a whole value was read where one was expected. */
  function AfterValue(st: Ctx, v: Json): Ctx {
    if st.parents == [] then st.(state := Done, top := Some(v))
    else
      match Top(st)
      case ListFrame(items) => st.(state := ListCommaOrClose, parents := Pop(st) + [ListFrame(items + [v])])
      case DictFrame(members, size, _) =>
        var key := if st.curKey.Some? then st.curKey.value else [];
        st.(state := DictCommaOrClose, curKey := None, parents := Pop(st)
          + [DictFrame(members + [Member(key, v)], size, None)])
  }

  lemma {:induction false} RunCons(st: Ctx, t: Token, s: Ctx, rest: seq<Token>)
    requires Step(st, t) == Some(s)
    ensures Run(st, [t] + rest) == Run(s, rest)
  {}

  lemma {:induction false} RunScalar(st: Ctx, v: Json, rest: seq<Token>)
    requires ExpectsValue(st) && (Other(v) || v.Str?)
    ensures Run(st, TokensOf(v) + rest) == Run(AfterValue(st, v), rest)
  {}

  /** A key is set exactly inside a dict. */
  ghost predicate KeyFits(st: Ctx) {
    st.top.None? && (st.curKey.Some? <==> st.parents != [] && Top(st).DictFrame?)
  }

  lemma {:induction false} ExpectsKey(st: Ctx)
    requires ExpectsValue(st)
    ensures KeyFits(st)
  {}

  /** The context right after a container was opened. */
  function Opened(st: Ctx, inner: Frame): Ctx {
    var outer := if st.parents != [] && Top(st).DictFrame? then Pop(st) + [Top(st).(pending := st.curKey)]
      else st.parents;
    Ctx(if inner.ListFrame? then ListValueOrClose else DictKeyOrClose, outer + [inner], None, None)
  }

  lemma {:induction false} OpenStep(st: Ctx, t: Token, inner: Frame)
    requires ExpectsValue(st) && (t.TOpenList? || t.TOpenDict?)
    requires inner == if t.TOpenList? then ListFrame([]) else DictFrame([], 0, None)
    ensures Step(st, t) == Some(Opened(st, inner))
  {
    ExpectsKey(st);
    if st.parents != [] && Top(st).DictFrame? {
      assert Pop(st) + [Top(st).(pending := st.curKey), inner] == Pop(st) + [Top(st).(pending := st.curKey)] + [inner];
    }
  }

  /** Closing the container leaves the context as if its value had been read at once. */
  lemma {:induction false} CloseStep(st: Ctx, t: Token, open: Ctx, inner: Frame, s: State)
    requires KeyFits(st) && (t.TCloseList? || t.TCloseDict?) && (t.TCloseList? <==> inner.ListFrame?)
    requires if inner.ListFrame? then s == ListValueOrClose || s == ListCommaOrClose
      else s == DictKeyOrClose || s == DictCommaOrClose
    requires open == Opened(st, inner).(state := s)
    ensures Step(open, t) == Some(AfterValue(st, Finished(inner)))
  {}

  /** Inside the container opened in st, with these contents and this state. */
  function Inside(st: Ctx, inner: Frame, state: State, curKey: Option<Bytes>): Ctx {
    Opened(st, inner).(state := state, curKey := curKey)
  }

  lemma {:induction false} InsideOk(st: Ctx, inner: Frame, state: State, curKey: Option<Bytes>)
    requires ExpectsValue(st) && InnerOk(state, inner, curKey)
    ensures Ok(Inside(st, inner, state, curKey)) && Top(Inside(st, inner, state, curKey)) == inner
    ensures Pop(Inside(st, inner, state, curKey)) == Pop(Opened(st, inner))
  {}

  function ListState(items: seq<Json>, more: bool): State {
    if items == [] then ListValueOrClose else if more then ListValue else ListCommaOrClose
  }

  function DictState(members: seq<Member>, more: bool): State {
    if members == [] then DictKeyOrClose else if more then DictKey else DictCommaOrClose
  }

  function InList(st: Ctx, items: seq<Json>, more: bool): Ctx {
    Inside(st, ListFrame(items), ListState(items, more), None)
  }

  function InDict(st: Ctx, members: seq<Member>, more: bool): Ctx {
    Inside(st, DictFrame(members, |members|, None), DictState(members, more), None)
  }

  /** A value inside a list. */
  lemma {:induction false} RunItem(st: Ctx, items: seq<Json>, v: Json, rest: seq<Token>)
    requires ExpectsValue(st) && ValidItems(items) && ValidJson(v)
    ensures Run(InList(st, items, true), TokensOf(v) + rest) == Run(InList(st, items + [v], false), rest)
    decreases v, 1
  {
    var c := InList(st, items, true);
    InsideOk(st, ListFrame(items), ListState(items, true), None);
    RunValue(c, v, rest);
    assert Pop(c) + [ListFrame(items + [v])] == Opened(st, ListFrame(items + [v])).parents;
    assert AfterValue(c, v) == InList(st, items + [v], false);
  }

  lemma {:induction false} RunListPrefix(st: Ctx, items: seq<Json>, rest: seq<Token>)
    requires ExpectsValue(st) && ValidItems(items)
    ensures Run(InList(st, [], true), ListPrefix(items) + rest) == Run(InList(st, items, true), rest)
    decreases items, 0
  {
    if items == [] {
      assert ListPrefix(items) + rest == rest;
    } else {
      var n := |items| - 1;
      var init, last := items[..n], items[n];
      assert items == init + [last];
      RunListPrefix(st, init, TokensOf(last) + ([TComma] + rest));
      Associates4(ListPrefix(init), TokensOf(last), [TComma], rest);
      RunItem(st, init, last, [TComma] + rest);
      CommaSteps(st, items, []);
      RunCons(InList(st, items, false), TComma, InList(st, items, true), rest);
    }
  }

  lemma {:induction false} RunListTokens(st: Ctx, items: seq<Json>, rest: seq<Token>)
    requires ExpectsValue(st) && ValidItems(items)
    ensures Run(InList(st, [], true), ListTokens(items) + rest) == Run(InList(st, items, false), rest)
    decreases items, 1
  {
    if items == [] {
      assert ListTokens(items) + rest == rest;
    } else {
      var n := |items| - 1;
      var init, last := items[..n], items[n];
      assert items == init + [last];
      RunListPrefix(st, init, TokensOf(last) + rest);
      assert ListTokens(items) + rest == ListPrefix(init) + (TokensOf(last) + rest);
      RunItem(st, init, last, rest);
    }
  }

  /** A key, a colon and a value inside a dict. */
  lemma {:induction false} RunMember(st: Ctx, members: seq<Member>, m: Member, rest: seq<Token>)
    requires ExpectsValue(st) && ValidMembers(members) && FreshKey(members, m.key) && ValidJson(m.value)
    ensures Run(InDict(st, members, true), MemberTokens(m) + rest) == Run(InDict(st, members + [m], false), rest)
    decreases m, 1
  {
    var n := |members|;
    var c0 := InDict(st, members, true);
    var c1 := Inside(st, DictFrame(members, n, None), DictColon, Some(m.key));
    var c2 := Inside(st, DictFrame(members, n + 1, None), DictValue, Some(m.key));
    var tail := TokensOf(m.value) + rest;
    KeyStep(st, members, m.key);
    ColonStep(st, members, m.key, c1, c2);
    MemberSplit(m, rest);
    RunTwo(c0, TString(m.key), c1, TColon, c2, tail);
    InsideOk(st, DictFrame(members, n + 1, None), DictValue, Some(m.key));
    RunValue(c2, m.value, rest);
    MemberDone(st, members, m, c2);
  }

  lemma MemberSplit(m: Member, rest: seq<Token>)
    ensures MemberTokens(m) + rest == [TString(m.key)] + ([TColon] + (TokensOf(m.value) + rest))
  {}

  lemma {:induction false} RunTwo(c0: Ctx, t: Token, c1: Ctx, u: Token, c2: Ctx, tail: seq<Token>)
    requires Step(c0, t) == Some(c1) && Step(c1, u) == Some(c2)
    ensures Run(c0, [t] + ([u] + tail)) == Run(c2, tail)
  {}

  lemma {:induction false} MemberDone(st: Ctx, members: seq<Member>, m: Member, c2: Ctx)
    requires ExpectsValue(st) && ValidMembers(members) && FreshKey(members, m.key)
    requires c2 == Inside(st, DictFrame(members, |members| + 1, None), DictValue, Some(m.key))
    ensures AfterValue(c2, m.value) == InDict(st, members + [m], false)
  {}

  lemma {:induction false} KeyStep(st: Ctx, members: seq<Member>, key: Bytes)
    ensures Step(InDict(st, members, true), TString(key))
      == Some(Inside(st, DictFrame(members, |members|, None), DictColon, Some(key)))
  {}

  lemma {:induction false} CommaSteps(st: Ctx, items: seq<Json>, members: seq<Member>)
    ensures items != [] ==> Step(InList(st, items, false), TComma) == Some(InList(st, items, true))
    ensures members != [] ==> Step(InDict(st, members, false), TComma) == Some(InDict(st, members, true))
  {}

  lemma {:induction false} ColonStep(st: Ctx, members: seq<Member>, key: Bytes, c1: Ctx, c2: Ctx)
    requires ExpectsValue(st) && ValidMembers(members) && FreshKey(members, key)
    requires c1 == Inside(st, DictFrame(members, |members|, None), DictColon, Some(key))
    requires c2 == Inside(st, DictFrame(members, |members| + 1, None), DictValue, Some(key))
    ensures Step(c1, TColon) == Some(c2)
  {}

  lemma {:induction false} RunDictPrefix(st: Ctx, members: seq<Member>, rest: seq<Token>)
    requires ExpectsValue(st) && ValidMembers(members)
    ensures Run(InDict(st, [], true), DictPrefix(members) + rest) == Run(InDict(st, members, true), rest)
    decreases members, 0
  {
    if members == [] {
      assert DictPrefix(members) + rest == rest;
    } else {
      var n := |members| - 1;
      var init, last := members[..n], members[n];
      assert members == init + [last];
      RunDictPrefix(st, init, MemberTokens(last) + ([TComma] + rest));
      Associates4(DictPrefix(init), MemberTokens(last), [TComma], rest);
      RunMember(st, init, last, [TComma] + rest);
      CommaSteps(st, [], members);
      RunCons(InDict(st, members, false), TComma, InDict(st, members, true), rest);
    }
  }

  lemma {:induction false} RunDictTokens(st: Ctx, members: seq<Member>, rest: seq<Token>)
    requires ExpectsValue(st) && ValidMembers(members)
    ensures Run(InDict(st, [], true), DictTokens(members) + rest) == Run(InDict(st, members, false), rest)
    decreases members, 1
  {
    if members == [] {
      assert DictTokens(members) + rest == rest;
    } else {
      var n := |members| - 1;
      var init, last := members[..n], members[n];
      assert members == init + [last];
      RunDictPrefix(st, init, MemberTokens(last) + rest);
      assert DictTokens(members) + rest == DictPrefix(init) + (MemberTokens(last) + rest);
      RunMember(st, init, last, rest);
    }
  }

  /** Where a value is expected, the tokens of any valid value lead to the context with that value. */
  lemma {:induction false} RunValue(st: Ctx, v: Json, rest: seq<Token>)
    requires ExpectsValue(st) && ValidJson(v)
    ensures Run(st, TokensOf(v) + rest) == Run(AfterValue(st, v), rest)
    decreases v, 0
  {
    ExpectsKey(st);
    match v
    case List(items) =>
      OpenStep(st, TOpenList, ListFrame([]));
      var tail := ListTokens(items) + ([TCloseList] + rest);
      assert TokensOf(v) + rest == [TOpenList] + tail;
      RunCons(st, TOpenList, InList(st, [], true), tail);
      RunListTokens(st, items, [TCloseList] + rest);
      CloseStep(st, TCloseList, InList(st, items, false), ListFrame(items), ListState(items, false));
      RunCons(InList(st, items, false), TCloseList, AfterValue(st, v), rest);
    case Dict(members, _) =>
      OpenStep(st, TOpenDict, DictFrame([], 0, None));
      var tail := DictTokens(members) + ([TCloseDict] + rest);
      assert TokensOf(v) + rest == [TOpenDict] + tail;
      RunCons(st, TOpenDict, InDict(st, [], true), tail);
      RunDictTokens(st, members, [TCloseDict] + rest);
      CloseStep(st, TCloseDict, InDict(st, members, false), DictFrame(members, |members|, None),
        DictState(members, false));
      RunCons(InDict(st, members, false), TCloseDict, AfterValue(st, v), rest);
    case _ =>
      RunScalar(st, v, rest);
  }

  /** Main result: the parser accepts a token sequence with value v exactly if it is the token
      sequence of v and every object of v has distinct keys of allowed length. */
  lemma {:induction false} AcceptsExactly(ts: seq<Token>, v: Json)
    requires ScalarTokens(ts)
    ensures Accepts(ts, v) <==> ts == TokensOf(v) && ValidJson(v)
  {
    if Accepts(ts, v) {
      var s := Run(START, ts).value;
      RunSound(START, ts, s);
      assert s.parents == [];
    }
    if ts == TokensOf(v) && ValidJson(v) {
      RunValue(START, v, []);
      assert ts + [] == ts;
    }
  }
}
