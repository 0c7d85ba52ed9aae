/**
 * The local schema cache of a serdes handle (schema-cache.c) and the handle itself
 * (serdes_new in serdes.c).
 *
 * The cache is a list of schema records, newest first. Records are found by id or by
 * (definition, type); a record that is not cached is loaded by `Add0`, which either takes
 * the definition the caller gives (storing it at the registry when no id is known yet) or
 * fetches it from the registry. The registry is an oracle parameter of type `Registry`,
 * and the clock is the parameter `now`.
 */
module SchemaCache {
  import opened Common
  import Config
  import Rest

  /* ---------- str_mk_upper ---------- */

  /** C `toupper` in the default locale: ASCII letters only. */
  function ToUpper(c: char): (u: char)
    ensures u != c ==> 'a' <= c <= 'z'
    ensures !('a' <= u <= 'z')
  {
    if 'a' <= c <= 'z' then (c as int - 32) as char else c
  }

  lemma ToUpperIdempotent(c: char)
    ensures ToUpper(ToUpper(c)) == ToUpper(c)
  {
  }

  /** The buffer after upper-casing in place every character before the first NUL. */
  function UpperCString(s: seq<char>): (r: seq<char>)
    ensures |r| == |s|
  {
    seq(|s|, i requires 0 <= i < |s| => if i < StrLen(s) then ToUpper(s[i]) else s[i])
  }

  /** Upper-casing moves no NUL, so the C string keeps its length. */
  lemma UpperCStringKeepsLength(s: seq<char>)
    ensures StrLen(UpperCString(s)) == StrLen(s)
    ensures UpperCString(s)[StrLen(s)..] == s[StrLen(s)..]
  {
    var r, n := UpperCString(s), StrLen(s);
    forall i | 0 <= i < n
      ensures r[i] != '\0'
    {
      assert s[i] != '\0';
    }
    StrLenIs(r, n);
  }

  /** After str_mk_upper the string holds no lower-case ASCII letter. */
  lemma UpperCStringHasNoLower(s: seq<char>)
    ensures forall i | 0 <= i < StrLen(UpperCString(s)) :: !('a' <= UpperCString(s)[i] <= 'z')
  {
    UpperCStringKeepsLength(s);
  }

  /** str_mk_upper is idempotent. */
  lemma UpperCStringIdempotent(s: seq<char>)
    ensures UpperCString(UpperCString(s)) == UpperCString(s)
  {
    var r := UpperCString(s);
    UpperCStringKeepsLength(s);
    forall i | 0 <= i < |s|
      ensures UpperCString(r)[i] == r[i]
    {
      if i < StrLen(s) {
        ToUpperIdempotent(s[i]);
      }
    }
  }

  /** str_mk_upper: upper-cases the NUL-terminated string held in `s`, in place. */
  method MakeUpper(s: array<char>)
    modifies s
    ensures s[..] == UpperCString(old(s[..]))
  {
    var i := 0;
    while i < s.Length && s[i] != '\0'
      invariant 0 <= i <= s.Length
      invariant forall k | 0 <= k < i :: old(s[k]) != '\0' && s[k] == ToUpper(old(s[k]))
      invariant forall k | i <= k < s.Length :: s[k] == old(s[k])
    {
      s[i] := ToUpper(s[i]);
      i := i + 1;
    }
    StrLenIs(old(s[..]), i);
  }

  /** `strdup` followed by str_mk_upper. */
  function UpperType(t: string): string {
    UpperCString(CStr(t))
  }

  /** The type string has no NUL and no lower-case letter. */
  lemma UpperTypeIsUpper(t: string)
    ensures '\0' !in UpperType(t)
    ensures forall i | 0 <= i < |UpperType(t)| :: !('a' <= UpperType(t)[i] <= 'z')
  {
    var c := CStr(t);
    StrLenIs(c, |c|);
    UpperCStringHasNoLower(c);
    UpperCStringKeepsLength(c);
  }

  /** Duplicates `t` into a fresh NUL-terminated buffer and upper-cases it there. */
  method DupUpper(t: string) returns (r: string)
    ensures r == UpperType(t)
  {
    var n := StrLen(t);
    var a := new char[n + 1](i requires 0 <= i < n + 1 => if i < n then t[i] else '\0');
    assert a[..] == CStr(t) + ['\0'];
    MakeUpper(a);
    StrLenIs(CStr(t) + ['\0'], n);
    StrLenIs(CStr(t), n);
    r := a[..n];
  }

  /* ---------- registry oracle ---------- */

  /** A field of the JSON envelope the registry answers with. */
  datatype JsonField<T> = Absent | WrongType | Present(value: T)

  /**
   * The answer to a GET of a schema: `FetchFailed` when the request failed or the body
   * was not JSON, otherwise the three envelope fields the fetch reads.
   */
  datatype FetchReply =
    | FetchFailed
    | Envelope(schemaType: JsonField<string>, id: JsonField<int32>, schema: JsonField<string>)

  /** What the registry would answer: the id a POST yields (None on any failure) and a GET. */
  datatype Registry = Registry(stored: Option<int32>, fetched: FetchReply)

  /** The loaded part of a cached schema. */
  datatype Record = Record(id: int32, name: Option<string>, schemaType: string, definition: seq<char>)

  /** Every field of a `serdes_schema_t`, for saying what an operation leaves alone. */
  datatype SchemaFields = SchemaFields(id: int32, name: Option<string>, schemaType: Option<string>,
                                       definition: Option<seq<char>>, definitionLen: int, lastUsed: int,
                                       obj: Option<nat>, appOpaque: Option<nat>, linked: bool)

  /** The (id, type, definition) a fetch loads, or None when it fails. */
  function FetchOutcome(id: int32, reply: FetchReply, urlCount: int): Option<(int32, string, seq<char>)> {
    if urlCount == 0 then None
    else match reply
      case FetchFailed => None
      case Envelope(t, i, sch) =>
        var ty := match t
          case Absent => Some("AVRO")
          case WrongType => None
          case Present(v) => Some(UpperType(v));
        var newId := if id != -1 then Some(id) else if i.Present? then Some(i.value) else None;
        if ty.None? || newId.None? || !sch.Present? then None
        else Some((newId.value, ty.value, sch.value))
  }

  /** The record serdes_schema_add0 links in, or None when it fails. */
  function Add0Result(name: Option<string>, id: int32, typ: Option<string>,
                      definition: Option<seq<char>>, definitionLen: int,
                      urlCount: int, reg: Registry): Option<Record>
    requires definition.Some? ==> typ.Some? && 0 <= definitionLen <= |definition.value|
  {
    if id == -1 && name.None? then None
    else
      var nm := if name.Some? then Some(CStr(name.value)) else None;
      if definition.Some? then
        if nm.None? then None
        else if id == -1 && (urlCount == 0 || reg.stored.None?) then None
        else
          var newId := if id == -1 then reg.stored.value else id;
          Some(Record(newId, nm, UpperType(typ.value), definition.value[..definitionLen]))
      else
        match FetchOutcome(id, reg.fetched, urlCount)
        case None => None
        case Some((i, t, d)) => Some(Record(i, nm, t, d))
  }

  /** add0 refuses a request with neither id nor name, and a definition without a name. */
  lemma Add0NeedsIdentity(name: Option<string>, id: int32, typ: Option<string>,
                          definition: Option<seq<char>>, definitionLen: int,
                          urlCount: int, reg: Registry)
    requires definition.Some? ==> typ.Some? && 0 <= definitionLen <= |definition.value|
    requires (id == -1 && name.None?) || (definition.Some? && name.None?)
    ensures Add0Result(name, id, typ, definition, definitionLen, urlCount, reg).None?
  {
  }

  /** Without a registry, only a definition given together with its id can be added. */
  lemma Add0WithoutRegistry(name: Option<string>, id: int32, typ: Option<string>,
                            definition: Option<seq<char>>, definitionLen: int, reg: Registry)
    requires definition.Some? ==> typ.Some? && 0 <= definitionLen <= |definition.value|
    ensures Add0Result(name, id, typ, definition, definitionLen, 0, reg).Some?
            <==> definition.Some? && name.Some? && id != -1
  {
  }

  /** A given definition is kept as given and a given id is never replaced. */
  lemma Add0KeepsGivenDefinition(name: Option<string>, id: int32, typ: Option<string>,
                                 definition: Option<seq<char>>, definitionLen: int,
                                 urlCount: int, reg: Registry)
    requires definition.Some? ==> typ.Some? && 0 <= definitionLen <= |definition.value|
    requires Add0Result(name, id, typ, definition, definitionLen, urlCount, reg).Some?
    ensures var r := Add0Result(name, id, typ, definition, definitionLen, urlCount, reg).value;
      (id != -1 ==> r.id == id) &&
      (definition.Some? ==> r.definition == definition.value[..definitionLen]) &&
      (definition.None? && reg.fetched.Envelope? ==> r.definition == reg.fetched.schema.value)
  {
  }

  /** Every record add0 links in has an upper-case type. */
  lemma Add0TypeIsUpper(name: Option<string>, id: int32, typ: Option<string>,
                        definition: Option<seq<char>>, definitionLen: int,
                        urlCount: int, reg: Registry)
    requires definition.Some? ==> typ.Some? && 0 <= definitionLen <= |definition.value|
    requires Add0Result(name, id, typ, definition, definitionLen, urlCount, reg).Some?
    ensures var t := Add0Result(name, id, typ, definition, definitionLen, urlCount, reg).value.schemaType;
      '\0' !in t && forall i | 0 <= i < |t| :: !('a' <= t[i] <= 'z')
  {
    if definition.Some? {
      UpperTypeIsUpper(typ.value);
    } else if reg.fetched.schemaType.Present? {
      UpperTypeIsUpper(reg.fetched.schemaType.value);
    }
  }

  /* ---------- purge specification ---------- */

  /** The entries whose age is at least `expiry`, in their original order. */
  function KeptBy<T>(xs: seq<T>, ages: seq<int>, expiry: int): (r: seq<T>)
    requires |xs| == |ages|
    ensures |r| <= |xs|
  {
    if xs == [] then []
    else
      var n := |xs| - 1;
      KeptBy(xs[..n], ages[..n], expiry) + (if ages[n] < expiry then [] else [xs[n]])
  }

  /** What a purge at `expiry` leaves of the list `before`, whose ages are `ages`. */
  function Survivors<T>(before: seq<T>, ages: seq<int>, expiry: int): seq<T>
    requires |before| == |ages|
  {
    KeptBy(before, ages, expiry)
  }

  /** The number of ages below `expiry`. */
  function Expired(ages: seq<int>, expiry: int): nat {
    if ages == [] then 0
    else Expired(ages[..|ages| - 1], expiry) + (if ages[|ages| - 1] < expiry then 1 else 0)
  }

  lemma {:induction false} KeptByAppend<T>(a: seq<T>, agesA: seq<int>, b: seq<T>, agesB: seq<int>, expiry: int)
    requires |a| == |agesA| && |b| == |agesB|
    ensures KeptBy(a + b, agesA + agesB, expiry) == KeptBy(a, agesA, expiry) + KeptBy(b, agesB, expiry)
    decreases |b|
  {
    if b != [] {
      var n := |b| - 1;
      assert (a + b)[..|a| + n] == a + b[..n];
      assert (agesA + agesB)[..|a| + n] == agesA + agesB[..n];
      KeptByAppend(a, agesA, b[..n], agesB[..n], expiry);
    } else {
      assert a + b == a && agesA + agesB == agesA;
    }
  }

  /** Purge keeps exactly the young entries, in order, and removes `Expired` many. */
  lemma {:induction false} KeptByExactly<T>(xs: seq<T>, ages: seq<int>, expiry: int)
    requires |xs| == |ages|
    requires forall i, j | 0 <= i < j < |xs| :: xs[i] != xs[j]
    ensures forall x | x in KeptBy(xs, ages, expiry) :: x in xs
    ensures forall k | 0 <= k < |xs| :: xs[k] in KeptBy(xs, ages, expiry) <==> ages[k] >= expiry
    ensures |xs| == |KeptBy(xs, ages, expiry)| + Expired(ages, expiry)
  {
    if xs != [] {
      var n := |xs| - 1;
      KeptByExactly(xs[..n], ages[..n], expiry);
      var k0 := KeptBy(xs[..n], ages[..n], expiry);
      assert KeptBy(xs, ages, expiry) == k0 + (if ages[n] < expiry then [] else [xs[n]]);
      forall k | 0 <= k < |xs|
        ensures xs[k] in KeptBy(xs, ages, expiry) <==> ages[k] >= expiry
      {
        if k < n {
          assert xs[k] == xs[..n][k];
          assert xs[k] != xs[n];
        } else {
          assert xs[n] !in k0 by {
            forall j | 0 <= j < n ensures xs[..n][j] != xs[n] {}
          }
        }
      }
      assert ages[..n] == ages[..|ages| - 1];
    }
  }

  /** One position of `KeptByExactly`. */
  lemma KeptByAt<T>(xs: seq<T>, ages: seq<int>, expiry: int, k: nat)
    requires |xs| == |ages| && Distinct(xs) && k < |xs|
    ensures xs[k] in KeptBy(xs, ages, expiry) <==> ages[k] >= expiry
  {
    KeptByExactly(xs, ages, expiry);
  }

  /** An entry at least as young as `expiry` survives. */
  lemma KeptYoung<T>(xs: seq<T>, ages: seq<int>, expiry: int, k: nat, x: T)
    requires |xs| == |ages| && Distinct(xs) && k < |xs| && xs[k] == x && ages[k] >= expiry
    ensures x in KeptBy(xs, ages, expiry)
  {
    KeptByExactly(xs, ages, expiry);
  }

  /** A list of distinct entries. */
  predicate Distinct<T(==)>(xs: seq<T>) {
    forall i, j | 0 <= i < j < |xs| :: xs[i] != xs[j]
  }

  /** `xs` with `x` unlinked. */
  function Without<T(==)>(xs: seq<T>, x: T): (r: seq<T>)
    ensures forall y | y in r :: y in xs && y != x
    ensures forall y | y in xs && y != x :: y in r
  {
    if xs == [] then [] else (if xs[0] == x then [] else [xs[0]]) + Without(xs[1..], x)
  }

  lemma {:induction false} WithoutAbsent<T>(xs: seq<T>, x: T)
    requires x !in xs
    ensures Without(xs, x) == xs
  {
    if xs != [] {
      WithoutAbsent(xs[1..], x);
    }
  }

  /** Unlinking an entry that occurs once removes exactly that position. */
  lemma {:induction false} WithoutSplit<T>(a: seq<T>, x: T, b: seq<T>)
    requires x !in a && x !in b
    ensures Without(a + [x] + b, x) == a + b
  {
    if a == [] {
      assert ([x] + b)[1..] == b;
      WithoutAbsent(b, x);
    } else {
      assert (a + [x] + b)[1..] == a[1..] + [x] + b;
      WithoutSplit(a[1..], x, b);
      assert a + b == [a[0]] + (a[1..] + b);
    }
  }

  lemma {:induction false} WithoutKeepsDistinct<T>(xs: seq<T>, x: T)
    requires Distinct(xs)
    ensures Distinct(Without(xs, x))
  {
    if xs != [] {
      WithoutKeepsDistinct(xs[1..], x);
      assert xs[0] !in xs[1..] by {
        forall j | 0 <= j < |xs[1..]| ensures xs[1..][j] != xs[0] {
          assert xs[1..][j] == xs[j + 1];
        }
      }
    }
  }

  /* ---------- schema records ---------- */

  class Schema {
    var id: int32
    var name: Option<string>
    var schemaType: Option<string>
    var definition: Option<seq<char>>
    var definitionLen: int
    var lastUsed: int
    var obj: Option<nat>
    var appOpaque: Option<nat>
    var linked: bool
    const owner: Serdes

    /** `calloc` of a record for `sd` with the given id. */
    constructor (sd: Serdes, id: int32)
      ensures this.id == id && owner == sd && !linked
      ensures name.None? && schemaType.None? && definition.None? && definitionLen == 0
      ensures lastUsed == 0 && obj.None? && appOpaque.None?
    {
      this.id := id;
      owner := sd;
      name, schemaType, definition, definitionLen := None, None, None, 0;
      lastUsed, obj, appOpaque, linked := 0, None, None, false;
    }

    /** A record that can be handed out: it has a type and a definition of the recorded length. */
    predicate Loaded()
      reads this
    {
      schemaType.Some? && definition.Some? && definitionLen == |definition.value|
    }

    function Rec(): Record
      reads this
      requires Loaded()
    {
      Record(id, name, schemaType.value, definition.value)
    }

    function Fields(): SchemaFields
      reads this
    {
      SchemaFields(id, name, schemaType, definition, definitionLen, lastUsed, obj, appOpaque, linked)
    }

    /** serdes_schema_set_definition. */
    method SetDefinition(def: Option<seq<char>>, len: int)
      requires def.Some? ==> len == -1 || 0 <= len <= |def.value|
      modifies this`definition, this`definitionLen
      ensures def.None? ==> definition.None? && definitionLen == old(definitionLen)
      ensures def.Some? ==>
        definition == Some(DefinitionBytes(def.value, len)) && definitionLen == |definition.value|
    {
      definition := None;
      if def.Some? {
        var n := if len == -1 then StrLen(def.value) else len;
        definition := Some(def.value[..n]);
        definitionLen := n;
      }
    }

    /** serdes_schema_mark_used. */
    method MarkUsed(now: int)
      modifies this`lastUsed
      ensures lastUsed == now
    {
      lastUsed := now;
    }

    function Id(): int32 reads this { id }
    function Name(): Option<string> reads this { name }
    function Type(): Option<string> reads this { schemaType }
    function Definition(): Option<seq<char>> reads this { definition }
    function Object(): Option<nat> reads this { obj }
    function Handle(): Serdes { owner }
    function Opaque(): Option<nat> reads this { appOpaque }

    method SetObject(o: Option<nat>)
      modifies this`obj
      ensures obj == o
    {
      obj := o;
    }

    method SetOpaque(o: Option<nat>)
      modifies this`appOpaque
      ensures appOpaque == o
    {
      appOpaque := o;
    }
  }

  /** The bytes set_definition copies: `len` of them, or up to the first NUL for -1. */
  function DefinitionBytes(def: seq<char>, len: int): (r: seq<char>)
    requires len == -1 || 0 <= len <= |def|
    ensures IsPrefix(r, def)
    ensures len != -1 ==> |r| == len
    ensures len == -1 ==> r == CStr(def)
  {
    if len == -1 then def[..StrLen(def)] else def[..len]
  }

  /* ---------- lookup specifications ---------- */

  /** The position of the first record with id `id`, or |xs|. */
  function IdIndex(xs: seq<Schema>, id: int32): (k: nat)
    reads xs
    ensures k <= |xs|
    ensures forall j | 0 <= j < k :: xs[j].id != id
    ensures k < |xs| ==> xs[k].id == id
  {
    if xs == [] then 0 else if xs[0].id == id then 0 else 1 + IdIndex(xs[1..], id)
  }

  /** `strcmp` of a cached type with a given one: both present and equal as C strings. */
  predicate SameType(cached: Option<string>, typ: Option<string>) {
    cached.Some? && typ.Some? && CStr(cached.value) == CStr(typ.value)
  }

  /** The record equals the lookup key as find_by_definition compares them. */
  predicate Matches(s: Schema, def: seq<char>, len: int, typ: Option<string>)
    reads s
  {
    s.definitionLen == len && SameType(s.schemaType, typ) && s.definition.Some?
    && 0 <= len <= |def| && s.definition.value == def[..len]
  }

  /** The position of the first matching record, or |xs|. */
  function MatchIndex(xs: seq<Schema>, def: seq<char>, len: int, typ: Option<string>): (k: nat)
    reads xs
    ensures k <= |xs|
    ensures forall j | 0 <= j < k :: !Matches(xs[j], def, len, typ)
    ensures k < |xs| ==> Matches(xs[k], def, len, typ)
  {
    if xs == [] then 0
    else if Matches(xs[0], def, len, typ) then 0
    else 1 + MatchIndex(xs[1..], def, len, typ)
  }

  /** The lookup reads the given type only up to its first NUL. */
  lemma {:induction false} MatchIndexReadsCString(xs: seq<Schema>, def: seq<char>, len: int, t: string)
    ensures MatchIndex(xs, def, len, Some(t)) == MatchIndex(xs, def, len, Some(CStr(t)))
    decreases |xs|
  {
    assert CStr(CStr(t)) == CStr(t);
    if xs != [] {
      MatchIndexReadsCString(xs[1..], def, len, t);
    }
  }

  /**
   * find_by_definition compares with `strcmp` and `memcmp`: every record of the key's
   * length is compared against a non-NULL type, and one that also has that type against
   * at least `len` bytes.
   */
  predicate SafeLookup(xs: seq<Schema>, def: seq<char>, len: int, typ: Option<string>)
    reads xs
  {
    forall s | s in xs && s.definitionLen == len :: typ.Some? && (SameType(s.schemaType, typ) ==> len <= |def|)
  }

  /** The definition length serdes_schema_add works with. */
  function NormLen(definition: Option<seq<char>>, len: int): int {
    if definition.Some? && len == -1 then StrLen(definition.value) else len
  }

  function Bytes(definition: Option<seq<char>>): seq<char> {
    if definition.Some? then definition.value else []
  }

  /** The last-use times of the records, in list order. */
  function Ages(xs: seq<Schema>): (r: seq<int>)
    reads xs
    ensures |r| == |xs| && forall k | 0 <= k < |xs| :: r[k] == xs[k].lastUsed
  {
    seq(|xs|, k requires 0 <= k < |xs| reads xs => xs[k].lastUsed)
  }

  /** The fields of the records, in list order. */
  function FieldsOf(xs: seq<Schema>): (r: seq<SchemaFields>)
    reads xs
    ensures |r| == |xs| && forall k | 0 <= k < |xs| :: r[k] == xs[k].Fields()
  {
    seq(|xs|, k requires 0 <= k < |xs| reads xs => xs[k].Fields())
  }

  /* ---------- the handle ---------- */

  class Serdes {
    const conf: Config.Conf
    var schemas: seq<Schema>

    /** The cache holds distinct, linked, fully loaded records of this handle. */
    ghost predicate Valid()
      reads this, conf, conf.urls, schemas
    {
      conf.Valid() && Distinct(schemas)
      && forall s | s in schemas :: s.owner == this && s.linked && s.Loaded()
    }

    /** The outcome of add0 seen from the list: `ss` was prepended with record `r`, and no schema
        object or opaque pointer yet, as `calloc` leaves them; or nothing changed. */
    predicate Prepended(ss: Schema?, before: seq<Schema>, r: Option<Record>)
      reads this, ss
    {
      (ss == null <==> r.None?)
      && (ss == null ==> schemas == before)
      && (ss != null ==> schemas == [ss] + before && ss.Loaded() && ss.Rec() == r.value
                          && ss.linked && ss.owner == this && ss.obj.None? && ss.appOpaque.None?)
    }

    /**
     * serdes_new: the handle takes a copy of `c` (its registry re-parsed from the URL
     * string) or, when `c` is NULL, the defaults of serdes_conf_init. The cache is empty.
     */
    constructor (c: Config.Conf?)
      requires c != null ==> c.Valid()
      ensures Valid() && schemas == [] && fresh(conf) && fresh(conf.urls)
      ensures c == null ==> conf.State() == Config.DefaultConf
      ensures c != null ==> conf.State() == c.State().(registry :=
        if c.urls.str.Some? then Rest.ParsedView(c.urls.str.value) else Rest.EmptyUrls)
    {
      conf := new Config.Conf();
      schemas := [];
      new;
      if c != null {
        conf.CopyFrom(c);
      }
    }

    /** serdes_schema_find_by_id: the first record with that id, or NULL. */
    method FindById(id: int32) returns (ss: Schema?)
      ensures var k := IdIndex(schemas, id); ss == if k < |schemas| then schemas[k] else null
    {
      var i := 0;
      while i < |schemas| && schemas[i].id != id
        invariant 0 <= i <= |schemas| && i <= IdIndex(schemas, id)
      {
        i := i + 1;
      }
      ss := if i < |schemas| then schemas[i] else null;
    }

    /** serdes_schema_find_by_definition: the first record of equal length, type and bytes. */
    method FindByDefinition(def: seq<char>, len: int, typ: Option<string>) returns (ss: Schema?)
      requires Valid() && SafeLookup(schemas, def, len, typ)
      ensures var k := MatchIndex(schemas, def, len, typ); ss == if k < |schemas| then schemas[k] else null
    {
      var i := 0;
      while i < |schemas| && !Matches(schemas[i], def, len, typ)
        invariant 0 <= i <= |schemas| && i <= MatchIndex(schemas, def, len, typ)
      {
        i := i + 1;
      }
      ss := if i < |schemas| then schemas[i] else null;
    }

    /** serdes_schema_fetch on a fresh record: loads type, id and definition from the registry. */
    method Fetch(s: Schema, reply: FetchReply) returns (ok: bool)
      modifies s
      ensures var f := FetchOutcome(old(s.id), reply, conf.urls.cnt);
        (ok <==> f.Some?) &&
        (ok ==> s.Loaded() && (s.id, s.schemaType.value, s.definition.value) == f.value)
      ensures s.name == old(s.name) && s.linked == old(s.linked)
      ensures s.lastUsed == old(s.lastUsed)
      ensures s.obj == old(s.obj) && s.appOpaque == old(s.appOpaque)
    {
      if conf.urls.cnt == 0 || reply.FetchFailed? {
        return false;
      }
      match reply.schemaType {
        case Absent =>
          s.schemaType := Some("AVRO");
        case WrongType =>
          return false;
        case Present(v) =>
          var t := DupUpper(v);
          s.schemaType := Some(t);
      }
      if s.id == -1 {
        if !reply.id.Present? {
          return false;
        }
        s.id := reply.id.value;
      }
      if !reply.schema.Present? {
        return false;
      }
      s.SetDefinition(Some(reply.schema.value), |reply.schema.value|);
      assert s.definition.value == reply.schema.value;
      ok := true;
    }

    /**
     * The first part of serdes_schema_add0: a new unlinked record of this handle, loaded
     * from the given definition or from the registry, or NULL when loading fails.
     */
    method NewRecord(name: Option<string>, id: int32, typ: Option<string>,
                     definition: Option<seq<char>>, definitionLen: int, reg: Registry)
      returns (s: Schema?)
      requires definition.Some? ==> typ.Some? && 0 <= definitionLen <= |definition.value|
      ensures var r := Add0Result(name, id, typ, definition, definitionLen, conf.urls.cnt, reg);
        (s == null <==> r.None?) &&
        (s != null ==> fresh(s) && s.Loaded() && s.Rec() == r.value && s.owner == this
                       && !s.linked && s.lastUsed == 0 && s.obj.None? && s.appOpaque.None?)
    {
      if id == -1 && name.None? {
        return null;
      }
      s := new Schema(this, id);
      if name.Some? {
        s.name := Some(CStr(name.value));
      }
      if typ.Some? {
        var t := DupUpper(typ.value);
        s.schemaType := Some(t);
      }
      if definition.Some? {
        if s.name.None? {
          return null;
        }
        if s.id == -1 {
          if conf.urls.cnt == 0 || reg.stored.None? {
            return null;
          }
          s.id := reg.stored.value;
        }
        s.SetDefinition(definition, definitionLen);
      } else {
        var ok := Fetch(s, reg.fetched);
        if !ok {
          return null;
        }
      }
    }

    /** serdes_schema_add0: loads a record and links it at the head of the list. */
    method Add0(name: Option<string>, id: int32, typ: Option<string>,
                definition: Option<seq<char>>, definitionLen: int, reg: Registry)
      returns (ss: Schema?)
      requires Valid()
      requires definition.Some? ==> typ.Some? && 0 <= definitionLen <= |definition.value|
      modifies this
      ensures Valid()
      ensures Prepended(ss, old(schemas), Add0Result(name, id, typ, definition, definitionLen, conf.urls.cnt, reg))
      ensures ss != null ==> fresh(ss) && ss.lastUsed == 0
    {
      ss := NewRecord(name, id, typ, definition, definitionLen, reg);
      if ss != null {
        Link(ss);
      }
    }

    /** LIST_INSERT_HEAD of a new loaded record of this handle, then `ss_linked = 1`. */
    method Link(ss: Schema)
      requires Valid() && ss !in schemas && ss.owner == this && ss.Loaded()
      modifies this, ss`linked
      ensures Valid() && schemas == [ss] + old(schemas) && ss.linked
    {
      assert forall s | s in schemas :: s != ss;
      schemas := [ss] + schemas;
      ss.linked := true;
      assert Distinct(schemas) by {
        forall i, j | 0 <= i < j < |schemas| ensures schemas[i] != schemas[j] {
          assert schemas[j] == old(schemas)[j - 1];
          if i > 0 {
            assert schemas[i] == old(schemas)[i - 1];
          }
        }
      }
    }

    /** serdes_schema_mark_used on a cached record. */
    method Touch(ss: Schema, now: int)
      requires Valid() && ss in schemas
      modifies ss`lastUsed
      ensures Valid() && ss.lastUsed == now
    {
      ss.MarkUsed(now);
      assert forall s | s in schemas :: s.owner == this && s.linked && s.Loaded() by {
        forall s | s in schemas ensures s.owner == this && s.linked && s.Loaded() {
          assert old(s.Loaded());
        }
      }
    }

    /**
     * serdes_schema_add: returns the cached record equal to the given one, or adds it;
     * either way the record is marked used at `now`.
     */
    method Add(name: Option<string>, id: int32, typ: Option<string>,
               definition: Option<seq<char>>, definitionLen: int, reg: Registry, now: int)
      returns (ss: Schema?)
      requires Valid()
      requires definition.Some? ==> typ.Some? && (definitionLen == -1 || 0 <= definitionLen <= |definition.value|)
      requires SafeLookup(schemas, Bytes(definition), NormLen(definition, definitionLen), typ)
      modifies this, schemas
      ensures Valid()
      ensures var k := old(MatchIndex(schemas, Bytes(definition), NormLen(definition, definitionLen), typ));
        if k < |old(schemas)| then
          ss == old(schemas)[k] && schemas == old(schemas)
          && ss.Fields() == old(schemas[k].Fields()).(lastUsed := now)
        else
          Prepended(ss, old(schemas),
                    Add0Result(name, id, typ, definition, NormLen(definition, definitionLen), conf.urls.cnt, reg))
          && (ss != null ==> fresh(ss) && ss.lastUsed == now)
      ensures forall s | s in old(schemas) && s != ss :: s.Fields() == old(s.Fields())
    {
      var len := NormLen(definition, definitionLen);
      ss := FindByDefinition(Bytes(definition), len, typ);
      if ss != null {
        Touch(ss, now);
        return;
      }
      ss := Add0(name, id, typ, definition, len, reg);
      if ss != null {
        Touch(ss, now);
      }
    }

    /**
     * serdes_schema_get with the intended bookkeeping: the cached record with that id,
     * or one loaded from the registry; either way marked used at `now`.
     */
    method Get(name: Option<string>, id: int32, reg: Registry, now: int) returns (ss: Schema?)
      requires Valid()
      modifies this, schemas
      ensures Valid()
      ensures var k := old(IdIndex(schemas, id));
        if k < |old(schemas)| then
          ss == old(schemas)[k] && schemas == old(schemas) && ss.id == id
          && ss.Fields() == old(schemas[k].Fields()).(lastUsed := now)
        else
          Prepended(ss, old(schemas), Add0Result(name, id, None, None, 0, conf.urls.cnt, reg))
          && (ss != null ==> fresh(ss) && ss.lastUsed == now)
      ensures forall s | s in old(schemas) && s != ss :: s.Fields() == old(s.Fields())
    {
      ss := FindById(id);
      if ss == null {
        ss := Add0(name, id, None, None, 0, reg);
      }
      if ss != null {
        Touch(ss, now);
      }
    }

    /**
     * serdes_schema_get as the source has it: a record it has just loaded is not marked
     * used, so its last use stays at 0.
     */
    method GetAsWritten(name: Option<string>, id: int32, reg: Registry, now: int) returns (ss: Schema?)
      requires Valid()
      modifies this, schemas
      ensures Valid()
      ensures var k := old(IdIndex(schemas, id));
        if k < |old(schemas)| then
          ss == old(schemas)[k] && schemas == old(schemas) && ss.id == id
          && ss.Fields() == old(schemas[k].Fields()).(lastUsed := now)
        else
          Prepended(ss, old(schemas), Add0Result(name, id, None, None, 0, conf.urls.cnt, reg))
          && (ss != null ==> fresh(ss) && ss.lastUsed == 0)
      ensures forall s | s in old(schemas) && s != ss :: s.Fields() == old(s.Fields())
    {
      ss := FindById(id);
      if ss != null {
        Touch(ss, now);
        return;
      }
      ss := Add0(name, id, None, None, 0, reg);
    }

    /** serdes_schema_destroy0 (and serdes_schema_destroy): frees the record and unlinks it if linked. */
    method Destroy0(ss: Schema)
      requires Valid() && ss.owner == this && (ss.linked <==> ss in schemas)
      modifies this, ss`name, ss`schemaType, ss`definition, ss`definitionLen, ss`linked
      ensures Valid()
      ensures schemas == Without(old(schemas), ss)
      ensures ss.name.None? && ss.schemaType.None? && ss.definition.None? && !ss.linked
    {
      ss.SetDefinition(None, 0);
      ss.name := None;
      ss.schemaType := None;
      if ss.linked {
        WithoutKeepsDistinct(schemas, ss);
        schemas := Without(schemas, ss);
        ss.linked := false;
      } else {
        WithoutAbsent(schemas, ss);
      }
    }

    /** Destroys the record at one position of the list. */
    method DropAt(ghost front: seq<Schema>, ss: Schema, ghost back: seq<Schema>)
      requires Valid() && schemas == front + [ss] + back && ss !in front && ss !in back
      modifies this, ss`name, ss`schemaType, ss`definition, ss`definitionLen, ss`linked
      ensures Valid() && schemas == front + back && Destroyed(ss)
    {
      WithoutSplit(front, ss, back);
      Destroy0(ss);
    }

    /** One iteration of the purge loop: destroys `s` when it was last used before `expiry`. */
    method PurgeOne(ghost front: seq<Schema>, s: Schema, ghost back: seq<Schema>, expiry: int)
      returns (dropped: bool)
      requires Valid() && schemas == front + [s] + back && s !in front && s !in back
      modifies this, s`name, s`schemaType, s`definition, s`definitionLen, s`linked
      ensures Valid() && (dropped <==> s.lastUsed < expiry)
      ensures dropped ==> schemas == front + back && Destroyed(s)
      ensures !dropped ==> schemas == front + [s] + back
      ensures forall t | t in schemas :: t in old(schemas)
      ensures forall t | t in old(schemas) && t in schemas :: t.Fields() == old(t.Fields())
    {
      dropped := s.lastUsed < expiry;
      if dropped {
        DropAt(front, s, back);
      }
    }

    /**
     * serdes_schemas_purge: destroys every record last used before `now - maxAge` and
     * returns how many it destroyed.
     */
    method Purge(now: int, maxAge: int) returns (cnt: int)
      requires Valid()
      modifies this, schemas
      ensures Valid()
      ensures schemas == Survivors(old(schemas), old(Ages(schemas)), now - maxAge)
      ensures forall k | 0 <= k < |old(schemas)| ::
        old(schemas)[k] in schemas <==> old(Ages(schemas))[k] >= now - maxAge
      ensures cnt == |old(schemas)| - |schemas|
      ensures AllDestroyed(old(schemas), schemas)
      ensures FieldsKept(old(schemas), old(FieldsOf(schemas)))
    {
      ghost var ages, states := Ages(schemas), FieldsOf(schemas);
      cnt := PurgeList(schemas, ages, states, now - maxAge);
    }

    /** The purge loop over the list as it was when the purge started, whose ages are `ages`. */
    method PurgeList(snap: seq<Schema>, ghost ages: seq<int>, ghost states: seq<SchemaFields>,
                     expiry: int) returns (cnt: int)
      requires Valid() && schemas == snap && ages == Ages(snap) && states == FieldsOf(snap)
      modifies this, snap
      ensures Valid()
      ensures schemas == Survivors(snap, ages, expiry)
      ensures forall k | 0 <= k < |snap| :: snap[k] in schemas <==> ages[k] >= expiry
      ensures cnt == |snap| - |schemas|
      ensures AllDestroyed(snap, schemas)
      ensures FieldsKept(snap, states)
    {
      ghost var kept: seq<Schema> := [];
      cnt := 0;
      PurgeStart(snap, ages, states, expiry);
      var i := 0;
      while i < |snap|
        invariant i <= |snap| && PurgeInv(snap, ages, states, expiry, i, kept, cnt)
      {
        kept, cnt := PurgeIter(snap, ages, states, expiry, i, snap[i], kept, cnt);
        i := i + 1;
      }
      PurgeEnd(snap, ages, states, expiry, kept, cnt);
    }

    /** The purge invariant holds before the first record. */
    lemma PurgeStart(snap: seq<Schema>, ages: seq<int>, states: seq<SchemaFields>, expiry: int)
      requires Valid() && schemas == snap && ages == Ages(snap) && states == FieldsOf(snap)
      ensures PurgeInv(snap, ages, states, expiry, 0, [], 0)
    {
      assert snap[..0] == [] && ages[..0] == [] && snap[0..] == snap;
    }

    /** The purge invariant after the last record is the purge's postcondition. */
    lemma PurgeEnd(snap: seq<Schema>, ages: seq<int>, states: seq<SchemaFields>, expiry: int,
                   kept: seq<Schema>, cnt: int)
      requires PurgeInv(snap, ages, states, expiry, |snap|, kept, cnt)
      ensures Valid() && schemas == Survivors(snap, ages, expiry)
      ensures forall k | 0 <= k < |snap| :: snap[k] in schemas <==> ages[k] >= expiry
      ensures cnt == |snap| - |schemas| && AllDestroyed(snap, schemas)
      ensures FieldsKept(snap, states)
    {
      assert snap[..|snap|] == snap && ages[..|snap|] == ages && snap[|snap|..] == [];
      KeptByExactly(snap, ages, expiry);
    }

    /** The records of `snap` still in the list have the fields `states` recorded. */
    ghost predicate FieldsKept(snap: seq<Schema>, states: seq<SchemaFields>)
      reads this, snap
    {
      |states| == |snap| && forall k | 0 <= k < |snap| && snap[k] in schemas :: snap[k].Fields() == states[k]
    }

    /** After the first `i` records of `snap`: `kept` are the survivors so far, the rest is
        untouched, and every record still listed has the fields it had, `states`, whose
        last-use times are `ages`. */
    ghost predicate PurgeInv(snap: seq<Schema>, ages: seq<int>, states: seq<SchemaFields>, expiry: int,
                             i: nat, kept: seq<Schema>, cnt: int)
      reads this, conf, conf.urls, schemas, snap
    {
      i <= |snap| == |ages| == |states| && Valid() && Distinct(snap)
      && (forall k | 0 <= k < |ages| :: ages[k] == states[k].lastUsed)
      && FieldsKept(snap, states)
      && kept == KeptBy(snap[..i], ages[..i], expiry)
      && schemas == kept + snap[i..]
      && cnt == i - |kept|
      && AllDestroyed(snap[..i], kept)
    }

    /** One iteration of serdes_schemas_purge's loop. */
    method PurgeIter(snap: seq<Schema>, ghost ages: seq<int>, ghost states: seq<SchemaFields>,
                     expiry: int, i: nat, s: Schema, ghost kept: seq<Schema>, cnt: int)
      returns (ghost kept': seq<Schema>, cnt': int)
      requires i < |snap| && s == snap[i] && PurgeInv(snap, ages, states, expiry, i, kept, cnt)
      modifies this, s`name, s`schemaType, s`definition, s`definitionLen, s`linked
      ensures PurgeInv(snap, ages, states, expiry, i + 1, kept', cnt')
    {
      PurgeStep(snap, ages, i, expiry);
      var dropped := PurgeOne(kept, s, snap[i + 1..], expiry);
      if dropped {
        kept', cnt' := kept, cnt + 1;
      } else {
        kept', cnt' := kept + [s], cnt;
      }
      assert schemas == kept' + snap[i + 1..];
      assert FieldsKept(snap, states) by {
        forall k | 0 <= k < |snap| && snap[k] in schemas ensures snap[k].Fields() == states[k] {
          assert snap[k] in old(schemas);
        }
      }
      assert AllDestroyed(snap[..i + 1], kept') by {
        forall t | t in snap[..i + 1] && t !in kept' ensures Destroyed(t) {
          if t != s {
            assert t in snap[..i];
          }
        }
      }
    }
  }

  /** A record serdes_schema_destroy0 has freed. */
  predicate Destroyed(s: Schema)
    reads s
  {
    !s.linked && s.definition.None?
  }

  /** Every record of `before` that is not in `after` is destroyed. */
  predicate AllDestroyed(before: seq<Schema>, after: seq<Schema>)
    reads before
  {
    forall s | s in before && s !in after :: Destroyed(s)
  }

  /** One iteration of the purge loop, on the list values. */
  lemma PurgeStep(snap: seq<Schema>, ages: seq<int>, i: nat, expiry: int)
    requires Distinct(snap) && |ages| == |snap| && i < |snap|
    ensures KeptBy(snap[..i + 1], ages[..i + 1], expiry)
      == KeptBy(snap[..i], ages[..i], expiry) + (if ages[i] < expiry then [] else [snap[i]])
    ensures snap[i..] == [snap[i]] + snap[i + 1..]
    ensures snap[..i + 1] == snap[..i] + [snap[i]]
    ensures snap[i] !in KeptBy(snap[..i], ages[..i], expiry) && snap[i] !in snap[i + 1..]
  {
    var p, q := snap[..i + 1], ages[..i + 1];
    assert p[..i] == snap[..i] && q[..i] == ages[..i] && p[i] == snap[i] && q[i] == ages[i];
    assert snap[i] !in snap[..i] by {
      forall j | 0 <= j < i ensures snap[..i][j] != snap[i] {}
    }
    assert snap[i] !in KeptBy(snap[..i], ages[..i], expiry) by {
      KeptByExactly(snap[..i], ages[..i], expiry);
    }
    assert snap[i] !in snap[i + 1..] by {
      forall j | i + 1 <= j < |snap| ensures snap[j] != snap[i] {}
    }
  }

  /** Under the source's get a just-loaded record is gone after the next purge. */
  method GetThenPurgeAsWritten(sd: Serdes, id: int32, reg: Registry, now: int, maxAge: int)
    returns (ss: Schema?)
    requires sd.Valid() && IdIndex(sd.schemas, id) == |sd.schemas| && 0 < now - maxAge
    modifies sd, sd.schemas
    ensures ss != null ==> ss !in sd.schemas && !ss.linked
  {
    ss := sd.GetAsWritten(None, id, reg, now);
    assert ss != null ==> sd.schemas[0] == ss && ss.lastUsed == 0;
    var n := sd.Purge(now, maxAge);
  }

  /** With the intended get a just-loaded record survives a purge at the same time. */
  method GetThenPurge(sd: Serdes, id: int32, reg: Registry, now: int, maxAge: int)
    returns (ss: Schema?)
    requires sd.Valid() && 0 <= maxAge
    modifies sd, sd.schemas
    ensures ss != null ==> ss in sd.schemas && ss.linked
  {
    ss := sd.Get(None, id, reg, now);
    assert ss != null ==> ss in sd.schemas && ss.lastUsed == now;
    var n := sd.Purge(now, maxAge);
  }
}
