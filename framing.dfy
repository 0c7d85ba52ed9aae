/**
 * Payload framing (framing.c). The CP1 envelope of the Confluent Platform is one magic
 * byte 0 followed by the schema id as a 32-bit two's-complement integer in network
 * (big-endian) byte order.
 */
module Framing {
  import opened Common
  import opened Config
  import SchemaCache

  const Cp1Magic: byte := 0
  const Cp1Size: nat := 5

  /** serdes_serializer_framing_size / serdes_deserializer_framing_size for one framing kind. */
  function FramingSize(f: Framing): (n: nat)
    ensures f == Cp1 ==> n == Cp1Size
    ensures f != Cp1 ==> n == 0
  {
    match f
    case Cp1 => 1 + 4
    case _ => 0
  }

  function SerializerFramingSize(sd: SchemaCache.Serdes): (n: nat)
    reads sd.conf
    ensures n == (if sd.conf.serializerFraming == Cp1 then 5 else 0)
  {
    FramingSize(sd.conf.serializerFraming)
  }

  function DeserializerFramingSize(sd: SchemaCache.Serdes): (n: nat)
    reads sd.conf
    ensures n == (if sd.conf.deserializerFraming == Cp1 then 5 else 0)
  {
    FramingSize(sd.conf.deserializerFraming)
  }

  /* ---------- the schema id on the wire ---------- */

  /** `htonl`: the id's two's-complement bit pattern, most significant byte first. */
  function IdBytes(id: int32): (b: seq<byte>)
    ensures |b| == 4
  {
    var u0 := (id as int) % 0x1_0000_0000;
    var u1 := u0 / 0x100;
    var u2 := u1 / 0x100;
    [(u2 / 0x100) as byte, (u2 % 0x100) as byte, (u1 % 0x100) as byte, (u0 % 0x100) as byte]
  }

  /** `ntohl` of four bytes, read back as a C `int`. */
  function DecodeId(b: seq<byte>): int32
    requires |b| == 4
  {
    var u := ((b[0] as int * 0x100 + b[1] as int) * 0x100 + b[2] as int) * 0x100 + b[3] as int;
    if u < 0x8000_0000 then u as int32 else (u - 0x1_0000_0000) as int32
  }

  /** Division by 256 is determined by quotient and remainder. */
  lemma DivMod256(x: int, q: int, r: int)
    requires 0 <= r < 0x100 && x == q * 0x100 + r
    ensures x / 0x100 == q && x % 0x100 == r
  {
  }

  lemma DecodeIdBytes(id: int32)
    ensures DecodeId(IdBytes(id)) == id
  {
    var u0 := (id as int) % 0x1_0000_0000;
    var u1 := u0 / 0x100;
    var u2 := u1 / 0x100;
    assert u0 == u1 * 0x100 + u0 % 0x100;
    assert u1 == u2 * 0x100 + u1 % 0x100;
    assert u2 == (u2 / 0x100) * 0x100 + u2 % 0x100;
  }

  lemma IdBytesDecode(b: seq<byte>)
    requires |b| == 4
    ensures IdBytes(DecodeId(b)) == b
  {
    var v2 := b[0] as int * 0x100 + b[1] as int;
    var v1 := v2 * 0x100 + b[2] as int;
    var u := v1 * 0x100 + b[3] as int;
    var id := DecodeId(b);
    assert (id as int) % 0x1_0000_0000 == u;
    DivMod256(u, v1, b[3] as int);
    DivMod256(v1, v2, b[2] as int);
    DivMod256(v2, b[0] as int, b[1] as int);
  }

  /** Different ids are framed differently and every 4-byte pattern is some id. */
  lemma IdEncodingIsBijective(a: int32, b: int32, w: seq<byte>)
    requires |w| == 4
    ensures IdBytes(a) == IdBytes(b) <==> a == b
    ensures exists id: int32 :: IdBytes(id) == w
  {
    DecodeIdBytes(a);
    DecodeIdBytes(b);
    IdBytesDecode(w);
  }

  /** The five bytes serdes_framing_cp1_write puts in front of a payload. */
  function Cp1Header(id: int32): (h: seq<byte>)
    ensures |h| == Cp1Size && h[0] == Cp1Magic && DecodeId(h[1..]) == id
  {
    DecodeIdBytes(id);
    assert ([Cp1Magic] + IdBytes(id))[1..] == IdBytes(id);
    [Cp1Magic] + IdBytes(id)
  }

  /* ---------- writing ---------- */

  /** serdes_framing_cp1_write into the first `size` bytes of `payload`. */
  method Cp1Write(ss: SchemaCache.Schema, payload: array<byte>, size: nat) returns (r: int)
    requires size <= payload.Length
    modifies payload
    ensures size < Cp1Size ==> r == -1 && payload[..] == old(payload[..])
    ensures size >= Cp1Size ==>
      r == Cp1Size && payload[..Cp1Size] == Cp1Header(ss.id) && payload[Cp1Size..] == old(payload[Cp1Size..])
  {
    if size < 5 {
      return -1;
    }
    var w := IdBytes(ss.id);
    payload[0] := 0;
    payload[1], payload[2], payload[3], payload[4] := w[0], w[1], w[2], w[3];
    assert payload[..5] == Cp1Header(ss.id);
    r := 5;
  }

  /** serdes_framing_write: frames by the serializer framing of the schema's handle. */
  method FramingWrite(ss: SchemaCache.Schema, payload: array<byte>, size: nat) returns (r: int)
    requires size <= payload.Length
    modifies payload
    ensures ss.owner.conf.serializerFraming != Cp1 ==> r == 0 && payload[..] == old(payload[..])
    ensures ss.owner.conf.serializerFraming == Cp1 && size < Cp1Size ==>
      r == -1 && payload[..] == old(payload[..])
    ensures ss.owner.conf.serializerFraming == Cp1 && size >= Cp1Size ==>
      r == Cp1Size && payload[..Cp1Size] == Cp1Header(ss.id) && payload[Cp1Size..] == old(payload[Cp1Size..])
  {
    match ss.owner.conf.serializerFraming {
      case Cp1 =>
        r := Cp1Write(ss, payload, size);
      case _ =>
        r := 0;
    }
  }

  /* ---------- reading ---------- */

  /** The window `buf[pos .. pos + size]` that `*payloadp` and `*sizep` describe. */
  datatype Cursor = Cursor(pos: nat, size: nat)

  /** A framing reader's return value, the schema id it extracted (-1 when none) and the new window. */
  datatype ReadOutcome = ReadOutcome(r: int, schemaId: int32, cur: Cursor)

  predicate InBuffer(buf: seq<byte>, cur: Cursor) {
    cur.pos + cur.size <= |buf|
  }

  /** serdes_framing_cp1_read. */
  function Cp1Read(buf: seq<byte>, cur: Cursor): (o: ReadOutcome)
    requires InBuffer(buf, cur)
    ensures o.r == -1 || o.r == Cp1Size
    ensures o.r == -1 <==> cur.size < Cp1Size || buf[cur.pos] != Cp1Magic
    ensures o.r == -1 ==> o.cur == cur && o.schemaId == -1
    ensures o.r == Cp1Size ==>
      o.cur == Cursor(cur.pos + Cp1Size, cur.size - Cp1Size)
      && buf[cur.pos..cur.pos + Cp1Size] == Cp1Header(o.schemaId)
  {
    if cur.size < 5 then ReadOutcome(-1, -1, cur)
    else if buf[cur.pos] != 0 then ReadOutcome(-1, -1, cur)
    else
      var w := buf[cur.pos + 1..cur.pos + 5];
      IdBytesDecode(w);
      assert buf[cur.pos..cur.pos + 5] == [buf[cur.pos]] + w;
      ReadOutcome(5, DecodeId(w), Cursor(cur.pos + 5, cur.size - 5))
  }

  /** Reading what cp1_write framed yields the written id and exactly the body after it. */
  lemma Cp1RoundTrip(id: int32, body: seq<byte>)
    ensures var buf := Cp1Header(id) + body;
      var o := Cp1Read(buf, Cursor(0, |buf|));
      o == ReadOutcome(Cp1Size, id, Cursor(Cp1Size, |body|))
      && buf[o.cur.pos..o.cur.pos + o.cur.size] == body
  {
    var buf := Cp1Header(id) + body;
    assert buf[1..5] == Cp1Header(id)[1..];
    assert buf[5..5 + |body|] == body;
  }

  /** The framing-kind switch of serdes_framing_read. */
  function ReadFraming(f: Framing, buf: seq<byte>, cur: Cursor): (o: ReadOutcome)
    requires InBuffer(buf, cur)
    ensures f == NoFraming ==> o == ReadOutcome(0, -1, cur)
    ensures f.UnknownFraming? ==> o == ReadOutcome(-1, -1, cur)
    ensures f == Cp1 ==> o == Cp1Read(buf, cur)
    ensures o.r == 0 || o.r == -1 || o.r == Cp1Size
  {
    match f
    case Cp1 => Cp1Read(buf, cur)
    case NoFraming => ReadOutcome(0, -1, cur)
    case UnknownFraming(_) => ReadOutcome(-1, -1, cur)
  }

  /**
   * serdes_framing_read: reads the deserializer framing and, for a framed payload, the
   * schema with the framed id: the cached one, or one loaded from the registry `reg` and
   * put at the head of the cache. It uses the corrected serdes_schema_get (Serdes.Get),
   * which marks a loaded schema used as well.
   */
  method FramingRead(sd: SchemaCache.Serdes, buf: seq<byte>, cur: Cursor,
                     reg: SchemaCache.Registry, now: int)
    returns (r: int, newCur: Cursor, schema: SchemaCache.Schema?)
    requires sd.Valid() && InBuffer(buf, cur)
    modifies sd, sd.schemas
    ensures sd.Valid()
    ensures var o := ReadFraming(sd.conf.deserializerFraming, buf, cur);
      newCur == o.cur
      && (o.r != Cp1Size ==> r == o.r && schema == null && sd.schemas == old(sd.schemas))
      && (o.r == Cp1Size ==> (r == -1 <==> schema == null) && (r == -1 || r == Cp1Size))
      && (schema != null ==> schema in sd.schemas && schema.id == o.schemaId && schema.lastUsed == now)
    ensures var o := ReadFraming(sd.conf.deserializerFraming, buf, cur);
      var k := old(SchemaCache.IdIndex(sd.schemas, o.schemaId));
      o.r == Cp1Size ==>
        if k < |old(sd.schemas)| then
          schema == old(sd.schemas)[k] && sd.schemas == old(sd.schemas)
          && schema.Fields() == old(sd.schemas[k].Fields()).(lastUsed := now)
        else
          sd.Prepended(schema, old(sd.schemas),
                       SchemaCache.Add0Result(None, o.schemaId, None, None, 0, sd.conf.urls.cnt, reg))
    ensures forall s | s in old(sd.schemas) && s != schema :: s.Fields() == old(s.Fields())
  {
    var o := ReadFraming(sd.conf.deserializerFraming, buf, cur);
    newCur := o.cur;
    schema := null;
    if o.r == -1 {
      return -1, newCur, null;
    } else if o.r == 0 {
      return 0, newCur, null;
    }
    ghost var k := SchemaCache.IdIndex(sd.schemas, o.schemaId);
    ghost var cached := k < |sd.schemas|;
    schema := sd.Get(None, o.schemaId, reg, now);
    if schema != null && !cached {
      SchemaCache.Add0KeepsGivenDefinition(None, o.schemaId, None, None, 0, sd.conf.urls.cnt, reg);
    }
    if schema == null {
      return -1, newCur, null;
    }
    r := o.r;
  }
}
