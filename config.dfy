/** Error strings and the configuration object of src/serdes.c. */
module Config {
  import opened Common
  import Rest

  // ---------------------------------------------------------------------------
  // Errors (src/serdes-common.h:31-39, src/serdes.c:20-40)
  // ---------------------------------------------------------------------------

  /** `serdes_err_t`. */
  datatype SerdesErr =
    | ErrOk | ErrConfUnknown | ErrConfInvalid | ErrFramingInvalid
    | ErrSchemaMismatch | ErrSchemaRequired | ErrBufferSize

  /** The enum's numbering, from 0. */
  function ErrCode(e: SerdesErr): int {
    match e
    case ErrOk => 0
    case ErrConfUnknown => 1
    case ErrConfInvalid => 2
    case ErrFramingInvalid => 3
    case ErrSchemaMismatch => 4
    case ErrSchemaRequired => 5
    case ErrBufferSize => 6
  }

  const UnknownError := "(unknown error)"

  /** serdes_err2str, for any integer the enum variable may hold. */
  function Err2Str(code: int): (msg: string)
    ensures msg == UnknownError <==> !(0 <= code <= 6)
    ensures msg != ""
  {
    if code == 0 then "Success"
    else if code == 1 then "Unknown configuration property"
    else if code == 2 then "Invalid configuration property value"
    else if code == 3 then "Invalid payload framing"
    else if code == 4 then "Object does not match schema"
    else if code == 5 then "Schema required to perform operation"
    else if code == 6 then "Inadequate buffer size"
    else UnknownError
  }

  /** Which of the seven messages `msg` is, told apart by its length and first
      character; -1 when it is none of them by that measure. */
  function MessageCode(msg: string): int {
    if msg == [] then -1
    else if |msg| == 7 then 0
    else if |msg| == 30 then 1
    else if |msg| == 36 then (if msg[0] == 'I' then 2 else 5)
    else if |msg| == 23 then 3
    else if |msg| == 28 then 4
    else if |msg| == 22 then 6
    else -1
  }

  /** MessageCode undoes Err2Str on the codes of the enum. */
  lemma MessageCodeOfErr2Str(code: int)
    requires 0 <= code <= 6
    ensures MessageCode(Err2Str(code)) == code
  {
    var msg := Err2Str(code);
    assert |msg| == [7, 30, 36, 23, 28, 36, 22][code];
  }

  /** Every error code has its own message. */
  lemma Err2StrDistinguishesErrors(a: SerdesErr, b: SerdesErr)
    requires a != b
    ensures Err2Str(ErrCode(a)) != Err2Str(ErrCode(b))
    ensures Err2Str(ErrCode(a)) != UnknownError
  {
    MessageCodeOfErr2Str(ErrCode(a));
    MessageCodeOfErr2Str(ErrCode(b));
  }

  // ---------------------------------------------------------------------------
  // Configuration (src/serdes_int.h:46-78, src/serdes.c:56-177)
  // ---------------------------------------------------------------------------

  /** `serdes_framing_t`; a framing variable holding any other value is `UnknownFraming`. */
  datatype Framing = NoFraming | Cp1 | UnknownFraming(value: int)

  /** The observable state of a configuration object. The log callback and the
      application's opaque pointer are modelled as handles. */
  datatype ConfState = ConfState(
    registry: Rest.UrlView,
    debug: int,
    serializerFraming: Framing,
    deserializerFraming: Framing,
    logCb: Option<nat>,
    appOpaque: Option<nat>)

  /** serdes_conf_init: all zero, except CP1 framing both ways. */
  const DefaultConf := ConfState(Rest.EmptyUrls, 0, Cp1, Cp1, None, None)

  /** The value of a `*.framing` property (a C string), or None when it is neither "none" nor "cp1". */
  function FramingValue(v: string): Option<Framing> {
    if v == "none" then Some(NoFraming) else if v == "cp1" then Some(Cp1) else None
  }

  /** The value of `debug` (a C string), or None when it is not "all", "" or "none". */
  function DebugValue(v: string): Option<int> {
    if v == "all" then Some(1) else if v == "" || v == "none" then Some(0) else None
  }

  /** serdes_conf_set on the state `st`: the result code and the new state. Names and
      values are C strings, compared as `strcmp` does, up to their first NUL. */
  function ConfSet(st: ConfState, name: string, val: string): (SerdesErr, ConfState) {
    var n := CStr(name);
    if n == "schema.registry.url" then
      var reg := Rest.ParsedView(val);
      (if reg.urls == [] then ErrConfInvalid else ErrOk, st.(registry := reg))
    else if n == "serializer.framing" || n == "deserializer.framing" then
      match FramingValue(CStr(val))
      case None => (ErrConfInvalid, st)
      case Some(f) =>
        (ErrOk, if n == "serializer.framing" then st.(serializerFraming := f)
                else st.(deserializerFraming := f))
    else if n == "debug" then
      match DebugValue(CStr(val))
      case None => (ErrConfInvalid, st)
      case Some(d) => (ErrOk, st.(debug := d))
    else (ErrConfUnknown, st)
  }

  /** Only the C strings count: whatever follows a NUL in the name or the value is ignored. */
  lemma ConfSetReadsCStrings(st: ConfState, name: string, val: string)
    ensures ConfSet(st, name, val) == ConfSet(st, CStr(name), CStr(val))
  {
    assert CStr(CStr(name)) == CStr(name) && CStr(CStr(val)) == CStr(val);
  }

  /** Setting a framing property touches that one field, and only when the value is valid. */
  lemma SetFramingChangesOneField(st: ConfState, name: string, val: string)
    requires CStr(name) == "serializer.framing" || CStr(name) == "deserializer.framing"
    ensures ConfSet(st, name, val) ==
      if CStr(val) == "none" || CStr(val) == "cp1" then
        var f := if CStr(val) == "none" then NoFraming else Cp1;
        (ErrOk, if CStr(name) == "serializer.framing" then st.(serializerFraming := f)
                else st.(deserializerFraming := f))
      else (ErrConfInvalid, st)
  {
  }

  /** `debug` accepts "all" (on), "" and "none" (off), and nothing else. */
  lemma SetDebug(st: ConfState, name: string, val: string)
    requires CStr(name) == "debug"
    ensures ConfSet(st, name, val).0 == ErrOk <==> CStr(val) in {"all", "", "none"}
    ensures ConfSet(st, name, val).1 ==
      if CStr(val) == "all" then st.(debug := 1)
      else if CStr(val) == "" || CStr(val) == "none" then st.(debug := 0)
      else st
  {
  }

  /** Any other property name is unknown and changes nothing. */
  lemma SetUnknownProperty(st: ConfState, name: string, val: string)
    requires CStr(name) !in {"schema.registry.url", "serializer.framing", "deserializer.framing", "debug"}
    ensures ConfSet(st, name, val) == (ErrConfUnknown, st)
  {
  }

  /** The registry list is replaced whatever the value; the value is rejected exactly
      when it holds no URL, that is when it is empty. */
  lemma SetRegistryUrl(st: ConfState, name: string, val: string)
    requires CStr(name) == "schema.registry.url"
    ensures ConfSet(st, name, val).1 == st.(registry := Rest.ParsedView(val))
    ensures ConfSet(st, name, val).0 == ErrConfInvalid <==> CStr(val) == []
    ensures ConfSet(st, name, val).0 != ErrConfInvalid ==> |ConfSet(st, name, val).1.registry.urls| > 0
  {
  }

  /** Setting the same property twice is the same as setting it once. */
  lemma {:induction false} ConfSetIdempotent(st: ConfState, name: string, val: string)
    ensures ConfSet(ConfSet(st, name, val).1, name, val) == ConfSet(st, name, val)
  {
  }

  /** Properties with different names are independent: the order of setting them does
      not matter for the resulting state. */
  lemma ConfSetCommutes(st: ConfState, n1: string, v1: string, n2: string, v2: string)
    requires CStr(n1) != CStr(n2)
    ensures ConfSet(ConfSet(st, n1, v1).1, n2, v2).1 == ConfSet(ConfSet(st, n2, v2).1, n1, v1).1
  {
    ConfSetTouches(st, n1, v1);
    ConfSetTouches(st, n2, v2);
    ConfSetTouches(ConfSet(st, n1, v1).1, n2, v2);
    ConfSetTouches(ConfSet(st, n2, v2).1, n1, v1);
  }

  /** The one field a property sets: the state is `st` with that field replaced (or
      unchanged), whatever the rest of `st` holds. */
  lemma ConfSetTouches(st: ConfState, name: string, val: string)
    ensures var st' := ConfSet(st, name, val).1;
      st'.logCb == st.logCb && st'.appOpaque == st.appOpaque
      && (CStr(name) != "schema.registry.url" ==> st'.registry == st.registry)
      && (CStr(name) == "schema.registry.url" ==> st'.registry == Rest.ParsedView(val))
      && (CStr(name) != "serializer.framing" ==> st'.serializerFraming == st.serializerFraming)
      && (CStr(name) == "serializer.framing" ==> st'.serializerFraming == (match FramingValue(CStr(val)) case None => st.serializerFraming case Some(f) => f))
      && (CStr(name) != "deserializer.framing" ==> st'.deserializerFraming == st.deserializerFraming)
      && (CStr(name) == "deserializer.framing" ==> st'.deserializerFraming == (match FramingValue(CStr(val)) case None => st.deserializerFraming case Some(f) => f))
      && (CStr(name) != "debug" ==> st'.debug == st.debug)
      && (CStr(name) == "debug" ==> st'.debug == (match DebugValue(CStr(val)) case None => st.debug case Some(d) => d))
  {
  }

  /** serdes_conf_new's loop: the pairs applied in order to `st`, None as soon as a value
      is missing or a pair is rejected. */
  function ApplyPairs(st: ConfState, pairs: seq<(string, Option<string>)>): Option<ConfState>
    decreases |pairs|
  {
    if pairs == [] then Some(st)
    else if pairs[0].1.None? then None
    else
      var (r, st') := ConfSet(st, pairs[0].0, pairs[0].1.value);
      if r != ErrOk then None else ApplyPairs(st', pairs[1..])
  }

  /** Applying `a + b` is applying `a`, then `b` to the result. */
  lemma {:induction false} ApplyPairsAppend(st: ConfState, a: seq<(string, Option<string>)>,
                                            b: seq<(string, Option<string>)>)
    ensures ApplyPairs(st, a + b) ==
      match ApplyPairs(st, a)
      case None => None
      case Some(mid) => ApplyPairs(mid, b)
    decreases |a|
  {
    if a != [] {
      assert (a + b)[0] == a[0] && (a + b)[1..] == a[1..] + b;
      if a[0].1.Some? {
        var (r, st') := ConfSet(st, a[0].0, a[0].1.value);
        if r == ErrOk {
          ApplyPairsAppend(st', a[1..], b);
        }
      }
    } else {
      assert a + b == b;
    }
  }

  /** A name without a value anywhere in the list makes the construction fail. */
  lemma {:induction false} MissingValueFails(st: ConfState, pairs: seq<(string, Option<string>)>, i: nat)
    requires i < |pairs| && pairs[i].1.None?
    ensures ApplyPairs(st, pairs).None?
    decreases i
  {
    if i > 0 && pairs[0].1.Some? {
      var (r, st') := ConfSet(st, pairs[0].0, pairs[0].1.value);
      if r == ErrOk {
        MissingValueFails(st', pairs[1..], i - 1);
      }
    }
  }

  /** `serdes_conf_t`: the registry URL list, debug flag, framings and callbacks. */
  class Conf {
    const urls: Rest.UrlList
    var debug: int
    var serializerFraming: Framing
    var deserializerFraming: Framing
    var logCb: Option<nat>
    var appOpaque: Option<nat>

    ghost predicate Valid()
      reads this, urls
    {
      urls.Valid()
    }

    function State(): ConfState
      reads this, urls
    {
      ConfState(urls.View(), debug, serializerFraming, deserializerFraming, logCb, appOpaque)
    }

    /** malloc followed by serdes_conf_init. */
    constructor ()
      ensures Valid() && State() == DefaultConf && fresh(urls)
    {
      urls := new Rest.UrlList();
      debug := 0;
      serializerFraming, deserializerFraming := Cp1, Cp1;
      logCb, appOpaque := None, None;
    }

    /** serdes_conf_set. */
    method Set(name: string, val: string) returns (r: SerdesErr)
      requires Valid()
      modifies this, urls
      ensures Valid() && (r, State()) == ConfSet(old(State()), name, val)
    {
      var n, v := CStr(name), CStr(val);
      if n == "schema.registry.url" {
        urls.Clear();
        var count := urls.Parse(val);
        if count == 0 {
          return ErrConfInvalid;
        }
      } else if n == "serializer.framing" || n == "deserializer.framing" {
        var framing;
        if v == "none" {
          framing := NoFraming;
        } else if v == "cp1" {
          framing := Cp1;
        } else {
          return ErrConfInvalid;
        }
        if n == "serializer.framing" {
          serializerFraming := framing;
        } else {
          deserializerFraming := framing;
        }
      } else if n == "debug" {
        if v == "all" {
          debug := 1;
        } else if v == "" || v == "none" {
          debug := 0;
        } else {
          return ErrConfInvalid;
        }
      } else {
        return ErrConfUnknown;
      }
      return ErrOk;
    }

    /** serdes_conf_set_log_cb. */
    method SetLogCb(cb: Option<nat>)
      modifies this`logCb
      ensures logCb == cb
    {
      logCb := cb;
    }

    /** serdes_conf_set_opaque. */
    method SetOpaque(op: Option<nat>)
      modifies this`appOpaque
      ensures appOpaque == op
    {
      appOpaque := op;
    }

    /** serdes_conf_copy0: the URL list is re-parsed from the source's string, the other
        fields are copied. */
    method CopyFrom(src: Conf)
      requires Valid() && src.Valid() && src.urls != urls
      modifies this, urls
      ensures Valid() && src.State() == old(src.State())
      ensures State() == old(src.State()).(registry :=
        if src.urls.str.Some? then Rest.ParsedView(src.urls.str.value) else Rest.EmptyUrls)
      ensures urls.urls == src.urls.urls
    {
      urls.Clear();
      if src.urls.str.Some? {
        var n := urls.Parse(src.urls.str.value);
      }
      serializerFraming := src.serializerFraming;
      deserializerFraming := src.deserializerFraming;
      debug := src.debug;
      logCb := src.logCb;
      appOpaque := src.appOpaque;
    }
  }

  /** serdes_conf_new: a default configuration with `pairs` applied in order, or null when
      a value is missing or a pair is rejected. */
  method ConfNew(pairs: seq<(string, Option<string>)>) returns (c: Conf?)
    ensures c == null <==> ApplyPairs(DefaultConf, pairs).None?
    ensures c != null ==>
      fresh(c) && fresh(c.urls) && c.Valid() && c.State() == ApplyPairs(DefaultConf, pairs).value
  {
    c := new Conf();
    var i := 0;
    while i < |pairs|
      invariant 0 <= i <= |pairs| && fresh(c) && fresh(c.urls) && c.Valid()
      invariant ApplyPairs(DefaultConf, pairs) == ApplyPairs(c.State(), pairs[i..])
    {
      assert pairs[i..][0] == pairs[i] && pairs[i..][1..] == pairs[i + 1..];
      var (name, val) := pairs[i];
      if val.None? {
        return null;
      }
      var r := c.Set(name, val.value);
      if r != ErrOk {
        return null;
      }
      i := i + 1;
    }
    assert pairs[i..] == [];
  }
}
