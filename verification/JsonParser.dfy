/** The parser of usual/json.c as a program: a context that is updated token by token, on the linked
 values of JsonMemory.  It is proved equal to the functions of JsonText, so that the exact
 description of accepted texts holds of it.
 */
module JsonParser {
  import opened Prelude
  import opened Utf8
  import opened JsonStrings
  import opened JsonTokens
  import opened JsonText
  import opened JsonMemory

  /** parse_string behind the opening quote: find the end, then copy or unescape. */
  method ParseString(src: Bytes) returns (r: Lexeme)
    ensures r == LexString(src)
    ensures r.Tok? ==> Text(r.t.s) && |r.t.s| <= r.n - 2
  {
    var ok, end, hasEsc := ScanString(src);
    if !ok {
      return Bad;
    }
    var out := Some(src[..end]);
    if hasEsc {
      out := ProcessEscapes(src[..end]);
    }
    if out.None? {
      return Bad;
    }
    AcceptedIsText(src, end);
    return Tok(TString(out.value), end + 2);
  }

  /** `struct JsonContext`: the memory of its pool, the innermost open container, the key that waits
      for its value, and the top value. */
  class JsonContext {
    const floatOk: FloatOk
    /** Whether the allocator serves the request with this number. */
    const serves: Addr -> bool
    var pool: Addr
    var refused: bool
    var mem: Memory
    var parent: Addr
    var curKey: Addr
    var top: Addr
    /** What the pointers lead to: the open containers, or the finished value. */
    ghost var frames: seq<OpenValue>
    ghost var value: Option<Value>

    ghost predicate PoolOk()
      reads this
    {
      Below(mem, pool)
    }

    ghost predicate Valid()
      reads this
    {
      PoolOk() && Represents(mem, parent, curKey, top, frames, value)
    }

    /** The context of JsonTokens that the memory stands for, together with the parser state. */
    ghost function Context(state: State): Ctx
      reads this
    {
      View(state, frames, value)
    }

    constructor (floatOk: FloatOk, serves: Addr -> bool)
      ensures Valid() && this.floatOk == floatOk && this.serves == serves && mem == map[] && frames == []
        && value == None
    {
      this.floatOk, this.serves := floatOk, serves;
      pool, refused, mem := NIL + 1, false, map[];
      parent, curKey, top := NIL, NIL, NIL;
      frames, value := [], None;
      new;
      NothingYet(mem, pool);
    }

    /** cx_alloc: an address that is not in use. */
    method Alloc() returns (a: Addr)
      requires PoolOk()
      modifies this`pool, this`refused
      ensures PoolOk()
      ensures a == NIL || (a !in mem && a < pool)
      ensures a == NIL ==> refused
      ensures a != NIL ==> refused == old(refused)
    {
      a := pool;
      BelowMore(mem, pool);
      pool := pool + 1;
      if !serves(a) {
        refused := true;
        return NIL;
      }
    }

    /** mk_value with attach: a new value is linked to the current key, becomes the current key, is
        appended to the list, or becomes the top value. */
    method MkValue(body: Body) returns (a: Addr)
      requires Valid() && value.None?
      requires frames != [] ==> ValueExpected(frames[|frames| - 1]) || KeyExpected(frames[|frames| - 1])
      modifies this`pool, this`refused, this`mem, this`curKey, this`top
      ensures PoolOk()
      ensures a == NIL ==> refused
      ensures a != NIL ==> refused == old(refused) && Made(old(mem), mem, frames, curKey, old(top), top, a, body)
    {
      a := Alloc();
      if a == NIL {
        return;
      }
      MakePlaces(mem, parent, curKey, top, frames, a, body);
      var m := mem[a := Cell(NIL, body)];
      if parent != NIL && mem[parent].body.DictBody? {
        if curKey != NIL {
          mem := m[curKey := m[curKey].(next := a)];
          curKey := NIL;
        } else {
          mem := m;
          curKey := a;
        }
      } else if parent != NIL {
        mem := Appended(m, parent, a);
      } else {
        mem := m;
        top := a;
      }
      BelowMade(old(mem), mem, frames, curKey, old(top), top, a, body, pool);
    }

    /** The end of parse_string, parse_number and parse_char4: a value without parts. */
    method NewScalar(v: Json, ghost state: State) returns (ok: bool)
      requires Valid() && Atomic(v) && (v.Str? ==> 0 !in v.s) && value.None?
      requires frames != [] ==> ValueExpected(frames[|frames| - 1]) || (KeyExpected(frames[|frames| - 1]) && v.Str?)
      modifies this
      ensures PoolOk() && (ok ==> Valid() && refused == old(refused)) && (!ok ==> refused)
      ensures ok ==> Attach(old(Context(state)), v) == Some(Context(state))
    {
      var a := MkValue(Plain(v));
      if a == NIL {
        return false;
      }
      frames, value := ScalarMade(old(mem), mem, parent, old(curKey), curKey, old(top), top, frames, a, v, state);
      return true;
    }

    /** open_container. */
    method OpenContainer(dict: bool, ghost state: State) returns (ok: bool)
      requires Valid() && value.None? && (frames != [] ==> ValueExpected(frames[|frames| - 1]))
      modifies this
      ensures PoolOk() && (ok ==> Valid() && refused == old(refused)) && (!ok ==> refused)
      ensures ok ==> Open(old(Context(state)), EmptyFrame(dict)) == Some(Context(state))
    {
      var a := MkValue(EmptyBody(parent, dict));
      if a == NIL {
        return false;
      }
      ContainerMade(old(mem), mem, parent, old(curKey), curKey, old(top), top, frames, a, dict, state);
      parent, curKey := a, NIL;
      frames := frames + [Empty(a, dict)];
      return true;
    }

    /** close_container: the parent link is followed, and no memory is written. */
    method CloseContainer() returns (state: State)
      requires Valid() && value.None? && Closable(frames)
      modifies this`parent, this`curKey, this`frames, this`value
      ensures Valid()
      ensures Close(old(Context(Parent))) == Some(Context(state))
    {
      frames, value := ContainerClosed(mem, parent, curKey, top, frames);
      parent, curKey := mem[parent].body.parent, NIL;
      state := if parent == NIL then Done else if mem[parent].body.DictBody? then DictCommaOrClose
        else ListCommaOrClose;
      assert StateBehind(mem, parent, state);
    }

    /** real_dict_add_key. */
    method AddKey(ghost state: State) returns (ok: bool)
      requires Valid() && value.None? && ColonExpected(frames)
      modifies this
      ensures PoolOk() && (ok ==> Valid() && refused == old(refused))
      ensures !ok ==> refused || JsonTokens.AddKey(old(Context(state))).None?
      ensures ok ==> JsonTokens.AddKey(old(Context(state))) == Some(Context(state))
    {
      KeyFound(mem, parent, curKey, top, frames, state);
      if |mem[curKey].body.v.s| > JSON_MAX_KEY {
        return false;
      }
      var inserted, m, first := PutKey(mem, parent, curKey, top, frames, state);
      BelowSame(mem, m, pool);
      mem := m;
      if !inserted {
        return false;
      }
      if !first {
        var node := Alloc();
        if node == NIL {
          return false;
        }
      }
      frames := Counted(frames);
      return true;
    }

    /** One token: map the state, then act. */
    method Feed(state: State, t: Token) returns (next: Option<State>)
      requires Valid() && Ok(Context(state)) && GoodToken(t)
      modifies this
      ensures PoolOk() && (next.Some? ==> Valid() && refused == old(refused))
      ensures next.Some? ==> Step(old(Context(state)), t) == Some(Context(next.value))
      ensures next.None? ==> refused || Step(old(Context(state)), t).None?
    {
      next := NextState(state, t);
      if next.None? {
        return;
      }
      if frames == [] {
        FirstTokenFits(state, value, t);
      } else {
        TokenFits(state, frames, value, t);
      }
      var ok := true;
      match t {
        case TString(x) =>
          TextHasNoNul(x);
          ok := NewScalar(Str(x), next.value);
        case TOther(v) => ok := NewScalar(v, next.value);
        case TComma =>
        case TColon => ok := AddKey(next.value);
        case TOpenDict => ok := OpenContainer(true, next.value);
        case TOpenList => ok := OpenContainer(false, next.value);
        case TCloseDict =>
          var s := CloseContainer();
          next := Some(s);
        case TCloseList =>
          var s := CloseContainer();
          next := Some(s);
      }
      next := if ok then next else None;
    }

    /** json_parse in strict mode: NIL for an error, otherwise a value that stands in memory. */
    method JsonParse(src: Bytes) returns (r: Addr)
      requires PoolOk()
      modifies this
      ensures PoolOk()
      ensures r == NIL <==> refused || Parse(src, floatOk).None?
      ensures r != NIL ==> Valid() && value.Some? && r == value.value.addr && Standing(mem, value.value)
      ensures r != NIL ==> Parse(src, floatOk) == Some(Erase(value.value))
    {
      parent, curKey, top, refused := NIL, NIL, NIL, false;
      frames, value := [], None;
      NothingYet(mem, pool);
      var state := InitialValue;
      var s := src;
      ghost var result := RunText(START, src, floatOk);
      assert Context(state) == START;
      while s != []
        invariant Valid() && Ok(Context(state)) && !refused
        invariant result == RunText(Context(state), s, floatOk)
        decreases |s|
      {
        var l := Lex(s, floatOk);
        if s[0] == QUOTE {
          l := ParseString(s[1..]);
        }
        match l
        case Skip => s := s[1..];
        case Bad => return NIL;
        case Tok(t, n) =>
          LexGood(s, floatOk);
          ghost var st := Context(state);
          var next := Feed(state, t);
          if next.None? {
            return NIL;
          }
          StepSound(st, t, Context(next.value));
          state, s := next.value, s[n..];
      }
      if state != Done {
        return NIL;
      }
      TopFound(mem, parent, curKey, top, frames, value, state);
      return top;
    }
  }
}
