/**
 The SystemView packet format (SystemView/SEGGER_SYSVIEW.c): variable-length
 integers (unsigned LEB128, section 7.6 of DWARF 5), packet headers, and a decoder.
 */
module SysViewFormat {
  import opened Words

  /** Little-endian groups of seven bits, all but the last marked. */
  function Leb(v: nat): (s: seq<u8>)
    ensures |s| > 0
  {
    if v < 0x80 then [v] else [v % 0x80 + 0x80] + Leb(v / 0x80)
  }

  /** The value at the front of `s`, and how many bytes it takes; 0 bytes if there is none. */
  function ReadLeb(s: seq<u8>): (r: (nat, nat))
    ensures r.1 <= |s|
  {
    if s == [] then (0, 0)
    else if s[0] < 0x80 then (s[0], 1)
    else
      var (v, n) := ReadLeb(s[1..]);
      if n == 0 then (0, 0) else (s[0] - 0x80 + 0x80 * v, n + 1)
  }

  lemma {:induction false} LebRoundTrip(v: nat, rest: seq<u8>)
    ensures ReadLeb(Leb(v) + rest) == (v, |Leb(v)|)
  {
    var s := Leb(v) + rest;
    if v >= 0x80 {
      LebRoundTrip(v / 0x80, rest);
      assert s[1..] == Leb(v / 0x80) + rest;
    }
  }

  /** A value below 2^(7k) takes at most k bytes; so a U32 takes at most five. */
  lemma {:induction false} LebLength(v: nat, k: nat)
    requires k > 0 && v < Pow2(7 * k)
    ensures |Leb(v)| <= k
  {
    if v >= 0x80 {
      assert k > 1 by { Pow2Values(); }
      assert Pow2(7 * k) == 0x80 * Pow2(7 * (k - 1)) by {
        Pow2Values();
        Pow2Add(7, 7 * (k - 1));
      }
      LebLength(v / 0x80, k - 1);
    }
  }

  lemma U32Length(v: u32)
    ensures |Leb(v)| <= 5
  {
    Pow2Values();
    Pow2Add(32, 3);
    LebLength(v, 5);
  }

  // ---------------------------------------------------------------------
  // Packets
  // ---------------------------------------------------------------------

  /** One packet: event id, payload bytes, and the time since the packet stored before it. */
  datatype Packet = Packet(id: nat, payload: seq<u8>, delta: u32)

  /** The one- or two-byte form of ids and lengths, truncated to bytes as the C code does. */
  function Short(v: nat): seq<u8> {
    if v > 127 then [v % 0x80 + 0x80, v / 0x80 % 0x100] else [v]
  }

  lemma ShortIsLeb(v: nat)
    requires v < 0x4000
    ensures Short(v) == Leb(v) && |Short(v)| <= 2
  {
    if v >= 0x80 { assert Leb(v / 0x80) == [v / 0x80]; }
  }

  /** A header number is read back, taking just its own bytes, exactly if it is below 2^14. */
  lemma ShortExact(v: nat, rest: seq<u8>)
    ensures ReadLeb(Short(v) + rest) == (v, |Short(v)|) <==> v < 0x4000
  {
    var s := Short(v) + rest;
    if v < 0x4000 {
      ShortIsLeb(v);
      LebRoundTrip(v, rest);
    } else {
      var lo: nat, hi: nat := v % 0x80, v / 0x80 % 0x100;
      assert s[1..] == [hi] + rest && s[0] == lo + 0x80;
      if hi < 0x80 {
        assert ReadLeb(s[1..]) == (hi, 1);
        assert ReadLeb(s) == (lo + 0x80 * hi, 2);
      } else {
        assert s[1..][1..] == rest;
      }
    }
  }

  /** The example of the source: overflow, 32 packets dropped, 64 ticks later. */
  lemma OverflowExample()
    ensures Encode(Packet(1, Leb(0x20), 0x40)) == [0x01, 0x20, 0x40]
  {
  }

  /** Id, length, data and time: here id 200, one byte of data, 5 ticks. */
  lemma LongExample()
    ensures Encode(Packet(200, [0x07], 5)) == [0xC8, 0x01, 0x01, 0x07, 0x05]
  {
  }

  /** Low groups of seven bits come first. */
  lemma LebExample()
    ensures Leb(300) == [0xAC, 0x02]
  {
    assert Leb(2) == [2];
  }

  function Header(id: nat, length: nat): (h: seq<u8>)
    ensures 0 < |h| <= 4
  {
    if id < 24 then [id] else Short(id) + Short(length)
  }

  function Encode(p: Packet): (s: seq<u8>)
    ensures s != []
  {
    Header(p.id, |p.payload|) + p.payload + Leb(p.delta)
  }

  // ---------------------------------------------------------------------
  // Strings
  // ---------------------------------------------------------------------

  /** A count byte, or 255 and sixteen bits of the count. */
  function StrCount(n: nat): seq<u8> {
    if n < 255 then [n] else [255, n % 0x100, n / 0x100 % 0x100]
  }

  function StrBytes(text: seq<u8>): seq<u8> { StrCount(|text|) + text }

  datatype Text = NoText | Text(text: seq<u8>, size: nat)

  function Word(lo: nat, hi: nat): nat { lo + 0x100 * hi }

  /** The string at the front of `s`. */
  function ReadStr(s: seq<u8>): Text {
    if s == [] || (s[0] == 255 && |s| < 3) then NoText
    else
      var at := if s[0] < 255 then 1 else 3;
      var n: nat := if s[0] < 255 then s[0] else Word(s[1], s[2]);
      if at + n > |s| then NoText else Text(s[at..at + n], at + n)
  }

  /** A string is read back whole exactly when its length fits the sixteen bits kept of it. */
  lemma StrRoundTrip(text: seq<u8>, rest: seq<u8>)
    ensures ReadStr(StrBytes(text) + rest) == Text(text, |StrBytes(text)|) <==> |text| < 0x1_0000
    ensures |text| >= 0x1_0000 ==> ReadStr(StrBytes(text) + rest).NoText? || ReadStr(StrBytes(text) + rest).text != text
  {
    var s := StrBytes(text) + rest;
    if |text| < 255 {
      assert s[0] == |text| && s[1..1 + |text|] == text;
    } else {
      assert s[0] == 255 && s[1] == |text| % 0x100 && s[2] == |text| / 0x100 % 0x100;
      LowWord(|text|);
      if |text| < 0x1_0000 { assert s[3..3 + |text|] == text; }
    }
  }

  lemma LowWord(n: nat)
    ensures Word(n % 0x100, n / 0x100 % 0x100) == n % 0x1_0000
  {
    var q := n / 0x100;
    assert n == 0x1_0000 * (q / 0x100) + Word(n % 0x100, q % 0x100);
    DivModUnique(n, 0x1_0000, q / 0x100, Word(n % 0x100, q % 0x100));
  }

  /** The C string at the front of `s`. */
  function CString(s: seq<u8>): (r: seq<u8>)
    requires 0 in s
    ensures |r| < |s| && r == s[..|r|] && s[|r|] == 0 && 0 !in r
  {
    if s[0] == 0 then [] else [s[0]] + CString(s[1..])
  }

  function Cut(text: seq<u8>, limit: nat): (r: seq<u8>)
    ensures r <= text && |r| <= limit && (|r| == |text| || |r| == limit)
  {
    if |text| > limit then text[..limit] else text
  }

  /** A count byte, or 255 and the count with its low byte first. */
  lemma StrExample(text: seq<u8>)
    ensures |text| == 2 ==> StrBytes(text) == [2, text[0], text[1]]
    ensures |text| == 300 ==> StrBytes(text) == [255, 44, 1] + text
  {
  }

  /** `1 + limit` bytes are promised to be enough; they are unless 255 or more characters come near the limit. */
  lemma StrLimit(text: seq<u8>, limit: nat)
    ensures |StrBytes(Cut(text, limit))| <= 1 + limit <==> |Cut(text, limit)| < 255 || |text| + 2 <= limit
  {
  }

  // ---------------------------------------------------------------------
  // Payloads
  // ---------------------------------------------------------------------

  /** What a payload is made of. */
  datatype Kind = NumKind | StrKind

  datatype Value = Num(n: u32) | Str(text: seq<u8>)

  /** The kinds of value the host knows for each of the ids below 24. */
  type Schema = nat -> seq<Kind>

  function KindOf(v: Value): Kind { if v.Num? then NumKind else StrKind }

  function KindsOf(values: seq<Value>): seq<Kind> {
    seq(|values|, i requires 0 <= i < |values| => KindOf(values[i]))
  }

  function EncodeValue(v: Value): seq<u8> {
    match v
    case Num(n) => Leb(n)
    case Str(text) => StrBytes(text)
  }

  function EncodeValues(values: seq<Value>): seq<u8> {
    if values == [] then [] else EncodeValue(values[0]) + EncodeValues(values[1..])
  }

  /** No string is too long for its count. */
  predicate Whole(values: seq<Value>) { forall i :: 0 <= i < |values| ==> Fits16(values[i]) }

  predicate Fits16(v: Value) { v.Str? ==> |v.text| < 0x1_0000 }

  datatype Field = NoField | Field(value: Value, size: nat)

  /** The value at the front of `s`. */
  function ReadValue(kind: Kind, s: seq<u8>): (f: Field)
    ensures f.Field? ==> f.size <= |s|
  {
    match kind
    case NumKind =>
      var (v, n) := ReadLeb(s);
      if n == 0 || v >= 0x1_0000_0000 then NoField else Field(Num(v), n)
    case StrKind =>
      var t := ReadStr(s);
      if t.NoText? then NoField else Field(Str(t.text), t.size)
  }

  datatype Fields = NoFields | Fields(values: seq<Value>, size: nat)

  function ReadValues(kinds: seq<Kind>, s: seq<u8>): (f: Fields)
    ensures f.Fields? ==> f.size <= |s|
    decreases |kinds|
  {
    if kinds == [] then Fields([], 0)
    else
      var v := ReadValue(kinds[0], s);
      if v.NoField? then NoFields
      else
        var rest := ReadValues(kinds[1..], s[v.size..]);
        if rest.NoFields? then NoFields else Fields([v.value] + rest.values, v.size + rest.size)
  }

  lemma ValueRoundTrip(v: Value, rest: seq<u8>)
    ensures ReadValue(KindOf(v), EncodeValue(v) + rest) == Field(v, |EncodeValue(v)|)
      <==> Fits16(v)
    ensures !Fits16(v) ==>
      var f := ReadValue(KindOf(v), EncodeValue(v) + rest); f.NoField? || f.value != v
  {
    hide Leb, ReadLeb, StrBytes, ReadStr;
    match v
    case Num(n) => LebRoundTrip(n, rest);
    case Str(text) => StrRoundTrip(text, rest);
  }

  /** The host reads the values back, and takes just their bytes, exactly if no string is too long. */
  lemma {:induction false} ValuesRoundTrip(values: seq<Value>, rest: seq<u8>)
    ensures ReadValues(KindsOf(values), EncodeValues(values) + rest) == Fields(values, |EncodeValues(values)|)
      <==> Whole(values)
    decreases |values|
  {
    hide EncodeValue, ReadValue, Whole, Fits16;
    if values == [] {
      assert Whole(values) by { NoneBroken(values); }
    } else {
      var first, tail := EncodeValue(values[0]), EncodeValues(values[1..]) + rest;
      var s := EncodeValues(values) + rest;
      assert s == first + tail && s[|first|..] == tail;
      assert KindsOf(values)[1..] == KindsOf(values[1..]);
      ValueRoundTrip(values[0], tail);
      ValuesRoundTrip(values[1..], rest);
      WholeSplit(values);
      var f := ReadValues(KindsOf(values), s);
      if f == Fields(values, |EncodeValues(values)|) {
        assert ReadValue(KindOf(values[0]), s).value == values[0];
        assert f.values[1..] == values[1..];
      }
    }
  }

  lemma NoneBroken(values: seq<Value>)
    requires values == []
    ensures Whole(values)
  {
  }

  lemma WholeSplit(values: seq<Value>)
    requires values != []
    ensures Whole(values) <==> Fits16(values[0]) && Whole(values[1..])
  {
    hide Fits16;
    var tail := values[1..];
    if Whole(values) {
      forall i | 0 <= i < |tail| ensures Fits16(tail[i]) { assert Fits16(values[i + 1]); }
    }
    if Fits16(values[0]) && Whole(tail) {
      forall i | 0 <= i < |values| ensures Fits16(values[i]) {
        if i > 0 { assert Fits16(tail[i - 1]); }
      }
    }
  }

  /**
   A packet the host can read: the ids below 24 carry values of the kinds it knows
   for them, the others an id and a length of at most 14 bits. Id 0 is what sync
   bytes look like.
   */
  ghost predicate Readable(schema: Schema, p: Packet) {
    && 0 < p.id < 0x4000
    && (p.id < 24 ==> exists values: seq<Value> ::
      KindsOf(values) == schema(p.id) && Whole(values) && p.payload == EncodeValues(values))
    && (p.id >= 24 ==> |p.payload| < 0x4000)
  }

  /** What a caller may hand over for the host to read; the time stamp does not matter. */
  ghost predicate Sendable(schema: Schema, id: nat, payload: seq<u8>) { Readable(schema, Packet(id, payload, 0)) }

  lemma SentReadable(schema: Schema, id: nat, payload: seq<u8>, delta: u32)
    requires Sendable(schema, id, payload)
    ensures Readable(schema, Packet(id, payload, delta))
  {
    if id < 24 {
      var values: seq<Value> :| KindsOf(values) == schema(id) && Whole(values) && payload == EncodeValues(values);
      ValuesReadable(schema, id, values, delta);
    }
  }

  /** Every payload of whole values of the kinds known for its id is readable. */
  lemma ValuesReadable(schema: Schema, id: nat, values: seq<Value>, delta: u32)
    requires 0 < id < 24 && KindsOf(values) == schema(id) && Whole(values)
    ensures Readable(schema, Packet(id, EncodeValues(values), delta))
  {
    var p := Packet(id, EncodeValues(values), delta);
    assert KindsOf(values) == schema(p.id) && Whole(values) && p.payload == EncodeValues(values);
  }

  datatype Decoded = Failed | Done(packet: Packet, size: nat)

  /** The packet at the front of `s`. */
  function Decode(schema: Schema, s: seq<u8>): (d: Decoded)
    ensures d.Done? ==> 0 < d.size <= |s|
  {
    var (id, a) := ReadLeb(s);
    if a == 0 then Failed
    else if id < 24 then
      var f := ReadValues(schema(id), s[a..]);
      if f.Fields? then Finish(s, id, a, f.size) else Failed
    else
      var (length, b) := ReadLeb(s[a..]);
      if b == 0 then Failed else Finish(s, id, a + b, length)
  }

  /** Payload of `n` bytes from `at` on, then the time stamp. */
  function Finish(s: seq<u8>, id: nat, at: nat, n: nat): (d: Decoded)
    requires 0 < at <= |s|
    ensures d.Done? ==> 0 < d.size <= |s|
  {
    if at + n > |s| then Failed
    else
      var (delta, c) := ReadLeb(s[at + n..]);
      if c == 0 || delta >= 0x1_0000_0000 then Failed
      else Done(Packet(id, s[at..at + n], delta), at + n + c)
  }

  lemma FinishRoundTrip(h: seq<u8>, p: Packet, rest: seq<u8>)
    requires |h| > 0
    ensures Finish(h + p.payload + Leb(p.delta) + rest, p.id, |h|, |p.payload|)
         == Done(p, |h| + |p.payload| + |Leb(p.delta)|)
  {
    var s := h + p.payload + Leb(p.delta) + rest;
    assert s[|h|..|h| + |p.payload|] == p.payload;
    assert s[|h| + |p.payload|..] == Leb(p.delta) + rest;
    LebRoundTrip(p.delta, rest);
  }

  /** Every readable packet decodes back, whatever follows it, and leaves exactly that. */
  lemma PacketRoundTrip(schema: Schema, p: Packet, rest: seq<u8>)
    requires Readable(schema, p)
    ensures Decode(schema, Encode(p) + rest) == Done(p, |Encode(p)|)
  {
    hide Leb, ReadLeb, ReadValues, EncodeValues, KindsOf, Finish, Short;
    var h := Header(p.id, |p.payload|);
    var s := Encode(p) + rest;
    var tail := p.payload + Leb(p.delta) + rest;
    assert s == h + tail && s == h + p.payload + Leb(p.delta) + rest;
    FinishRoundTrip(h, p, rest);
    ShortIsLeb(p.id);
    if p.id < 24 {
      assert Leb(p.id) == [p.id] by { SmallLeb(p.id); }
      LebRoundTrip(p.id, tail);
      assert s[|h|..] == tail;
      var values: seq<Value> :| KindsOf(values) == schema(p.id) && Whole(values) && p.payload == EncodeValues(values);
      ValuesRoundTrip(values, Leb(p.delta) + rest);
      assert tail == p.payload + (Leb(p.delta) + rest);
    } else {
      ShortIsLeb(|p.payload|);
      LebRoundTrip(p.id, Leb(|p.payload|) + tail);
      assert s == Leb(p.id) + (Leb(|p.payload|) + tail);
      assert s[|Leb(p.id)|..] == Leb(|p.payload|) + tail;
      LebRoundTrip(|p.payload|, tail);
    }
  }

  lemma SmallLeb(v: nat)
    requires v < 0x80
    ensures Leb(v) == [v]
  {
  }

  // ---------------------------------------------------------------------
  // The stream
  // ---------------------------------------------------------------------

  /**
   What happens to a recorder: sync bytes and packets that the ring stored, or
   refused because it was full, and the switches on and off.
   */
  datatype Event =
    | Started
    | Stopped
    | Sync
    | SyncLost
    | Stored(packet: Packet, clock: u32)
    | Lost

  /** `_abSync` */
  function SyncBytes(): seq<u8> { seq(10, _ => 0) }

  lemma SyncIs()
    ensures SyncBytes() == [0, 0, 0, 0, 0, 0, 0, 0, 0, 0]
  {
  }

  function EventBytes(e: Event): seq<u8> {
    match e
    case Sync => SyncBytes()
    case Stored(p, _) => Encode(p)
    case _ => []
  }

  function StreamBytes(log: seq<Event>): seq<u8> {
    if log == [] then [] else EventBytes(log[0]) + StreamBytes(log[1..])
  }

  function Packets(log: seq<Event>): seq<Packet> {
    if log == [] then []
    else (if log[0].Stored? then [log[0].packet] else []) + Packets(log[1..])
  }

  function Clocks(log: seq<Event>): seq<u32> {
    if log == [] then []
    else (if log[0].Stored? then [log[0].clock] else []) + Clocks(log[1..])
  }

  ghost predicate AllReadable(schema: Schema, log: seq<Event>) {
    forall e <- log :: e.Stored? ==> Readable(schema, e.packet)
  }

  lemma {:induction false} PacketsReadable(schema: Schema, log: seq<Event>)
    requires AllReadable(schema, log)
    ensures forall p <- Packets(log) :: Readable(schema, p)
    decreases |log|
  {
    hide Readable;
    if log != [] {
      assert log[0] in log && forall e <- log[1..] :: e in log;
      PacketsReadable(schema, log[1..]);
    }
  }

  lemma {:induction false} StreamAppend(log: seq<Event>, e: Event)
    ensures StreamBytes(log + [e]) == StreamBytes(log) + EventBytes(e)
    decreases |log|
  {
    hide EventBytes;
    if log == [] {
      assert (log + [e])[1..] == [];
    } else {
      assert (log + [e])[1..] == log[1..] + [e];
      StreamAppend(log[1..], e);
    }
  }

  /** The host: zero bytes are skipped, everything else is packets, up to the first that makes no sense. */
  function DecodeStream(schema: Schema, s: seq<u8>): seq<Packet>
    decreases |s|
  {
    if s == [] then []
    else if s[0] == 0 then DecodeStream(schema, s[1..])
    else
      var d := Decode(schema, s);
      if d.Failed? then [] else [d.packet] + DecodeStream(schema, s[d.size..])
  }

  lemma {:induction false} SkipZeros(schema: Schema, k: nat, rest: seq<u8>)
    ensures DecodeStream(schema, seq(k, _ => 0) + rest) == DecodeStream(schema, rest)
    decreases k
  {
    var z: seq<u8> := seq(k, _ => 0);
    if k == 0 {
      assert z + rest == rest;
    } else {
      SkipZeros(schema, k - 1, rest);
      assert (z + rest)[1..] == seq(k - 1, _ => 0) + rest;
    }
  }

  /** An id above 0 never starts with the byte 0. */
  lemma FirstByte(p: Packet)
    requires 0 < p.id < 0x4000
    ensures Encode(p)[0] != 0
  {
  }

  /** The host reads back exactly the packets that were stored, in order. */
  lemma {:induction false} StreamRoundTrip(schema: Schema, log: seq<Event>)
    requires forall p <- Packets(log) :: Readable(schema, p)
    ensures DecodeStream(schema, StreamBytes(log)) == Packets(log)
    decreases |log|
  {
    hide Decode, Encode, Readable;
    if log != [] {
      var rest := StreamBytes(log[1..]);
      assert forall p <- Packets(log[1..]) :: p in Packets(log);
      StreamRoundTrip(schema, log[1..]);
      if log[0].Sync? {
        SkipZeros(schema, 10, rest);
      } else if log[0].Stored? {
        var p := log[0].packet;
        assert p == Packets(log)[0];
        assert p in Packets(log);
        PacketRoundTrip(schema, p, rest);
        assert 0 < p.id < 0x4000 by { ReadableId(schema, p); }
        FirstByte(p);
        assert (Encode(p) + rest)[|Encode(p)|..] == rest;
      } else {
        assert EventBytes(log[0]) + rest == rest;
      }
    }
  }

  lemma ReadableId(schema: Schema, p: Packet)
    requires Readable(schema, p)
    ensures 0 < p.id < 0x4000
  {
  }
}

/** What every run of the recorder keeps, told of its history of events. */
module SysViewRuns {
  import opened Words
  import opened SysViewFormat

  const OFF: u8 := 0
  const ON: u8 := 1
  const DROPPING: u8 := 2
  const OVERFLOW: nat := 1

  /** Everything a recorder does not decide: the ring's answer to each offer, and each reading of the clock. */
  datatype Env = Env(ring: nat -> bool, clock: nat -> u32)

  /**
   What a history determines: the state, the last clock stored, calls lost, times
   dropping began, and how often the ring was asked and the clock was read.
   */
  datatype View = View(state: u8, clock: u32, lost: nat, entries: nat, offers: nat, readings: nat)

  function Step(v: View, e: Event): View {
    match e
    case Started => v.(state := ON)
    case Stopped => v.(state := OFF)
    case Sync => v.(offers := v.offers + 1)
    case SyncLost => v.(offers := v.offers + 1)
    case Stored(_, t) => v.(state := ON, clock := t, offers := v.offers + 1, readings := v.readings + 1)
    case Lost =>
      v.(state := DROPPING, lost := v.lost + 1, entries := v.entries + (if v.state == ON then 1 else 0),
         offers := v.offers + 1, readings := v.readings + 1)
  }

  function After(v: View, log: seq<Event>): View
    decreases |log|
  {
    if log == [] then v else After(Step(v, log[0]), log[1..])
  }

  /** `DropCount`: the calls lost, but for the one that began each dropping. */
  function Dropped(v: View): u32 { (v.lost - v.entries) % 0x1_0000_0000 }

  /** Initialisation reads the clock once. */
  function Begin(env: Env): View { View(OFF, env.clock(0), 0, 0, 0, 1) }

  /** `e` may happen in `v`: each offer has the ring's next answer, and each packet stored the next clock reading. */
  predicate Allowed(env: Env, v: View, e: Event) {
    match e
    case Started => v.state == OFF
    case Stopped => true
    case Sync => v.state == ON && env.ring(v.offers)
    case SyncLost => v.state == ON && !env.ring(v.offers)
    case Stored(p, t) =>
      && v.state != OFF && env.ring(v.offers) && t == env.clock(v.readings)
      && (v.clock + p.delta) % 0x1_0000_0000 == t
      && (v.state == DROPPING ==> p.id == OVERFLOW && p.payload == Leb(Dropped(v)))
    case Lost => v.state != OFF && !env.ring(v.offers)
  }

  ghost predicate Lawful(env: Env, v: View, log: seq<Event>) {
    forall i :: 0 <= i < |log| ==> Allowed(env, After(v, log[..i]), log[i])
  }

  lemma {:induction false} AfterAppend(v: View, log: seq<Event>, e: Event)
    ensures After(v, log + [e]) == Step(After(v, log), e)
    decreases |log|
  {
    hide Step;
    if log == [] {
      assert (log + [e])[1..] == [];
    } else {
      assert (log + [e])[1..] == log[1..] + [e];
      AfterAppend(Step(v, log[0]), log[1..], e);
    }
  }

  lemma AfterNext(v: View, log: seq<Event>, k: nat)
    requires k < |log|
    ensures After(v, log[..k + 1]) == Step(After(v, log[..k]), log[k])
  {
    assert log[..k + 1] == log[..k] + [log[k]];
    AfterAppend(v, log[..k], log[k]);
  }

  lemma LawfulAppend(env: Env, v: View, log: seq<Event>, e: Event)
    requires Lawful(env, v, log) && Allowed(env, After(v, log), e)
    ensures Lawful(env, v, log + [e])
  {
    hide After, Allowed;
    var all := log + [e];
    forall i | 0 <= i < |all| ensures Allowed(env, After(v, all[..i]), all[i]) {
      assert all[..i] == log[..i];
      assert i == |log| ==> log[..i] == log;
    }
  }

  lemma LawfulTail(env: Env, v: View, log: seq<Event>)
    requires log != [] && Lawful(env, v, log)
    ensures Allowed(env, v, log[0]) && Lawful(env, Step(v, log[0]), log[1..])
  {
    hide Allowed, Step;
    var w := Step(v, log[0]);
    assert log[..0] == [];
    assert After(v, log[..0]) == v;
    forall i | 0 <= i < |log| - 1 ensures Allowed(env, After(w, log[1..][..i]), log[1..][i]) {
      assert Allowed(env, After(v, log[..i + 1]), log[i + 1]);
      assert log[..i + 1][1..] == log[1..][..i] && log[..i + 1][0] == log[0];
    }
  }

  // ---------------------------------------------------------------------
  // Time
  // ---------------------------------------------------------------------

  /** The host's clocks: deltas added up from the time of initialisation. */
  function HostClocks(t: u32, packets: seq<Packet>): (r: seq<u32>)
    ensures |r| == |packets|
    decreases |packets|
  {
    if packets == [] then []
    else
      var u: u32 := (t + packets[0].delta) % 0x1_0000_0000;
      [u] + HostClocks(u, packets[1..])
  }

  function Total(packets: seq<Packet>): nat {
    if packets == [] then 0 else packets[0].delta + Total(packets[1..])
  }

  lemma {:induction false} HostClocksAre(t: u32, packets: seq<Packet>, k: nat)
    requires k < |packets|
    ensures HostClocks(t, packets)[k] == (t + Total(packets[..k + 1])) % 0x1_0000_0000
    decreases |packets|
  {
    var u: u32 := (t + packets[0].delta) % 0x1_0000_0000;
    assert packets[..k + 1][1..] == packets[1..][..k];
    if k > 0 {
      HostClocksAre(u, packets[1..], k - 1);
      var rest := Total(packets[1..][..k]);
      ModSum(t + packets[0].delta, rest);
    } else {
      assert packets[1..][..0] == [];
    }
  }

  lemma ModSum(x: nat, y: nat)
    ensures (x % 0x1_0000_0000 + y) % 0x1_0000_0000 == (x + y) % 0x1_0000_0000
  {
  }

  /** However many packets are lost in between, the deltas lead to every stored packet's own clock reading. */
  lemma {:induction false} ClocksRecovered(env: Env, v: View, log: seq<Event>)
    requires Lawful(env, v, log)
    ensures HostClocks(v.clock, Packets(log)) == Clocks(log)
    decreases |log|
  {
    hide Leb, Lawful, Dropped;
    if log != [] {
      LawfulTail(env, v, log);
      ClocksRecovered(env, Step(v, log[0]), log[1..]);
      if log[0].Stored? {
        assert Packets(log)[1..] == Packets(log[1..]);
      } else {
        assert Packets(log) == Packets(log[1..]) && Clocks(log) == Clocks(log[1..]);
      }
    }
  }

  /**
   The host needs nothing but the bytes and the time of initialisation: every
   packet that was stored, and when.
   */
  lemma HostReadsTheRun(schema: Schema, env: Env, log: seq<Event>)
    requires Lawful(env, Begin(env), log)
    requires forall p <- Packets(log) :: Readable(schema, p)
    ensures DecodeStream(schema, StreamBytes(log)) == Packets(log)
    ensures HostClocks(env.clock(0), DecodeStream(schema, StreamBytes(log))) == Clocks(log)
  {
    StreamRoundTrip(schema, log);
    ClocksRecovered(env, Begin(env), log);
  }

  // ---------------------------------------------------------------------
  // What the ring and the clock said
  // ---------------------------------------------------------------------

  /** The ring's answers in a history: every packet and every sync is one offer. */
  function Answers(log: seq<Event>): seq<bool> {
    if log == [] then []
    else match log[0]
      case Sync => [true] + Answers(log[1..])
      case Stored(_, _) => [true] + Answers(log[1..])
      case SyncLost => [false] + Answers(log[1..])
      case Lost => [false] + Answers(log[1..])
      case _ => Answers(log[1..])
  }

  /** How many of the events are packets, stored or lost. */
  function Attempts(log: seq<Event>): nat {
    if log == [] then 0 else Attempts(log[1..]) + (if log[0].Stored? || log[0].Lost? then 1 else 0)
  }

  /** Nothing is counted as lost that the ring would have taken, and nothing is stored that it refused. */
  lemma {:induction false} RingAnswers(env: Env, v: View, log: seq<Event>, k: nat)
    requires Lawful(env, v, log) && k < |Answers(log)|
    ensures Answers(log)[k] == env.ring(v.offers + k)
    decreases |log|
  {
    hide Leb, Lawful, Dropped;
    LawfulTail(env, v, log);
    var w := Step(v, log[0]);
    if w.offers == v.offers {
      RingAnswers(env, w, log[1..], k);
    } else if k > 0 {
      RingAnswers(env, w, log[1..], k - 1);
    }
  }

  lemma {:induction false} OffersCounted(v: View, log: seq<Event>)
    ensures After(v, log).offers == v.offers + |Answers(log)|
    ensures After(v, log).readings == v.readings + Attempts(log)
    decreases |log|
  {
    if log != [] { OffersCounted(Step(v, log[0]), log[1..]); }
  }

  /** Every packet is stored with the clock as it was read for it, one reading a packet. */
  lemma ReadForIt(env: Env, log: seq<Event>, i: nat)
    requires Lawful(env, Begin(env), log) && i < |log| && log[i].Stored?
    ensures log[i].clock == env.clock(1 + Attempts(log[..i]))
  {
    hide After, Leb, Dropped;
    OffersCounted(Begin(env), log[..i]);
    assert Allowed(env, After(Begin(env), log[..i]), log[i]);
  }

  // ---------------------------------------------------------------------
  // Losses
  // ---------------------------------------------------------------------

  lemma {:induction false} StaysDropping(env: Env, v: View, log: seq<Event>, i: nat, k: nat)
    requires Lawful(env, v, log) && i < k <= |log| && log[i] == Lost
    requires forall m :: i < m < k ==> !log[m].Stored? && !log[m].Stopped?
    ensures After(v, log[..k]).state == DROPPING
    decreases k
  {
    hide After, Leb;
    AfterNext(v, log, k - 1);
    if k - 1 > i {
      StaysDropping(env, v, log, i, k - 1);
      assert Allowed(env, After(v, log[..k - 1]), log[k - 1]);
    }
  }

  /**
   Between a start and a stop, the first packet stored after any refusal is an
   overflow packet, and it says how many calls had been lost by then, not counting
   the one that began each dropping.
   */
  lemma OverflowComesFirst(env: Env, v: View, log: seq<Event>, i: nat, j: nat)
    requires Lawful(env, v, log) && i < j < |log| && log[i] == Lost && log[j].Stored?
    requires forall m :: i < m < j ==> !log[m].Stored? && !log[m].Stopped?
    ensures log[j].packet.id == OVERFLOW && log[j].packet.payload == Leb(Dropped(After(v, log[..j])))
  {
    hide After, Leb, Dropped;
    StaysDropping(env, v, log, i, j);
    assert Allowed(env, After(v, log[..j]), log[j]);
  }

  function CountLost(log: seq<Event>): nat {
    if log == [] then 0 else CountLost(log[1..]) + (if log[0].Lost? then 1 else 0)
  }

  /** A refusal begins a dropping if the recorder was not already dropping, whatever it did before. */
  function CountEntries(dropping: bool, log: seq<Event>): nat
    decreases |log|
  {
    if log == [] then 0
    else match log[0]
      case Lost => CountEntries(true, log[1..]) + (if dropping then 0 else 1)
      case Sync => CountEntries(dropping, log[1..])
      case SyncLost => CountEntries(dropping, log[1..])
      case _ => CountEntries(false, log[1..])
  }

  lemma {:induction false} LossesCounted(env: Env, v: View, log: seq<Event>)
    requires Lawful(env, v, log) && v.state <= DROPPING
    ensures After(v, log).lost == v.lost + CountLost(log)
    ensures After(v, log).entries == v.entries + CountEntries(v.state == DROPPING, log)
    decreases |log|
  {
    hide Leb, Lawful, Dropped;
    if log != [] {
      LawfulTail(env, v, log);
      LossesCounted(env, Step(v, log[0]), log[1..]);
    }
  }

  /** Calls lost to a full ring are what DropCount grew by, plus the droppings that began. */
  lemma LossesBalanced(env: Env, v: View, log: seq<Event>)
    requires Lawful(env, v, log) && v.state <= DROPPING
    ensures CountLost(log) % 0x1_0000_0000
         == (Dropped(After(v, log)) - Dropped(v) + CountEntries(v.state == DROPPING, log)) % 0x1_0000_0000
  {
    hide Dropped, After, CountLost, CountEntries, Lawful;
    LossesCounted(env, v, log);
    Balance(v, After(v, log), CountLost(log), CountEntries(v.state == DROPPING, log));
  }

  lemma Balance(v: View, w: View, lost: nat, entries: nat)
    requires w.lost == v.lost + lost && w.entries == v.entries + entries
    ensures lost % 0x1_0000_0000 == (Dropped(w) - Dropped(v) + entries) % 0x1_0000_0000
  {
    var x, y := w.lost - w.entries, v.lost - v.entries;
    assert x == y + lost - entries;
    var q := x / 0x1_0000_0000 - y / 0x1_0000_0000;
    assert Dropped(w) - Dropped(v) + entries == lost + 0x1_0000_0000 * -q;
    ModAdd(lost, 0x1_0000_0000, -q);
  }
}

/** The recorder itself: packets built in place, and the off / on / dropping state. */
module SysViewRecorder {
  import opened Words
  import opened SysViewFormat
  import opened SysViewRuns

  const RESERVED: nat := 4
  const QUANTA_U32: nat := 5

  lemma LebStep(v: nat)
    ensures v < 0x80 ==> Leb(v) == [v]
    ensures v >= 0x80 ==> Leb(v) == [v % 0x80 + 0x80] + Leb(v / 0x80)
  {
  }

  /** Writing the byte behind `at..next` extends it by that byte. */
  method Put(buf: array<u8>, at: nat, next: nat, byte: u8)
    requires at <= next < buf.Length
    modifies buf
    ensures buf[at..next + 1] == old(buf[at..next]) + [byte]
    ensures buf[..at] == old(buf[..at])
    ensures buf[next + 1..] == old(buf[next + 1..])
  {
    buf[next] := byte;
  }

  /** `ENCODE_U32`: at most five bytes at `at`. */
  method EncodeU32(buf: array<u8>, at: nat, value: u32) returns (next: nat)
    requires at + QUANTA_U32 <= buf.Length
    modifies buf
    ensures at < next <= at + QUANTA_U32
    ensures buf[at..next] == Leb(value)
    ensures buf[..at] == old(buf[..at])
    ensures buf[next..] == old(buf[next..])
  {
    hide Leb;
    var data: u32 := value;
    next := at;
    U32Length(value);
    while data > 0x7F
      invariant at <= next && next - at + |Leb(data)| == |Leb(value)|
      invariant buf[at..next] + Leb(data) == Leb(value)
      invariant buf[..at] == old(buf[..at])
      invariant buf[next..] == old(buf[next..])
    {
      ghost var done := buf[at..next];
      ghost var rest := old(buf[next..]);
      LebStep(data);
      var byte: u8 := data % 0x80 + 0x80;
      assert done + Leb(data) == (done + [byte]) + Leb(data / 0x80);
      assert buf[next + 1..] == rest[1..];
      Put(buf, at, next, byte);
      next := next + 1;
      data := data / 0x80;
    }
    LebStep(data);
    ghost var rest := old(buf[next..]);
    assert buf[next + 1..] == rest[1..];
    Put(buf, at, next, data);
    next := next + 1;
  }

  /** One of the two numbers of a header, backwards. */
  method PrependShort(buf: array<u8>, start: nat, v: nat) returns (first: nat)
    requires 2 <= start <= buf.Length
    modifies buf
    ensures start - 2 <= first < start
    ensures buf[first..start] == Short(v)
    ensures buf[start..] == old(buf[start..])
  {
    first := start;
    if v > 127 {
      first := first - 1;
      buf[first] := v / 0x80 % 0x100;
      first := first - 1;
      buf[first] := v % 0x80 + 0x80;
    } else {
      first := first - 1;
      buf[first] := v;
    }
  }

  /** Writes `id`, or `id` and the length, backwards in front of the payload. */
  method PrependHeader(buf: array<u8>, start: nat, id: nat, n: nat) returns (first: nat)
    requires RESERVED <= start <= buf.Length
    modifies buf
    ensures start - RESERVED <= first < start
    ensures buf[first..start] == Header(id, n)
    ensures buf[start..] == old(buf[start..])
  {
    hide Short;
    first := start;
    if id < 24 {
      first := first - 1;
      buf[first] := id;
    } else {
      first := PrependShort(buf, start, n);
      ghost var middle := first;
      ghost var behind := buf[middle..];
      assert behind[..start - middle] == Short(n) && behind[start - middle..] == old(buf[start..]);
      first := PrependShort(buf, first, id);
      assert buf[middle..] == behind;
      assert buf[first..start] == buf[first..middle] + buf[middle..][..start - middle];
      assert buf[start..] == buf[middle..][start - middle..];
    }
  }

  /** `_EncodeStr`: the count, and no more than `limit` characters of the C string `text`. */
  method EncodeStr(buf: array<u8>, at: nat, text: seq<u8>, limit: nat) returns (next: nat)
    requires 0 in text
    requires at + |StrBytes(Cut(CString(text), limit))| <= buf.Length
    modifies buf
    ensures at < next <= buf.Length
    ensures buf[at..next] == StrBytes(Cut(CString(text), limit))
    ensures buf[..at] == old(buf[..at])
    ensures buf[next..] == old(buf[next..])
  {
    hide CString, Cut;
    var len := CutLength(text, limit);
    ghost var before := buf[..];
    next := PutCount(buf, at, len);
    ghost var from, head := next, buf[..next];
    assert buf[..at] == head[..at] && buf[at..from] == head[at..];
    ghost var behind := buf[from + len..];
    assert behind == before[from + len..] by {
      assert buf[from..][len..] == behind && before[from..][len..] == before[from + len..];
    }
    CopyText(buf, next, text, len);
    next := next + len;
    InPlace(buf[..], head, at, next);
  }

  /** The loop over the text, and the limit. */
  method CutLength(text: seq<u8>, limit: nat) returns (len: nat)
    requires 0 in text
    ensures len <= |text| && text[..len] == Cut(CString(text), limit)
  {
    ghost var whole := CString(text);
    len := 0;
    while text[len] != 0
      invariant len <= |whole|
      decreases |whole| - len
    {
      len := len + 1;
    }
    if len > limit { len := limit; }
  }

  lemma InPlace(after: seq<u8>, head: seq<u8>, at: nat, next: nat)
    requires at <= |head| <= next <= |after| && after[..|head|] == head
    ensures after[at..next] == head[at..] + after[|head|..next] && after[..at] == head[..at]
  {
    assert after[at..next] == after[..|head|][at..] + after[|head|..next];
  }

  method PutCount(buf: array<u8>, at: nat, len: nat) returns (next: nat)
    requires at + |StrCount(len)| <= buf.Length
    modifies buf
    ensures next == at + |StrCount(len)| && buf[at..next] == StrCount(len)
    ensures buf[..at] == old(buf[..at])
    ensures buf[next..] == old(buf[next..])
  {
    next := at;
    if len < 255 {
      buf[next] := len;
      next := next + 1;
    } else {
      buf[next] := 255;
      next := next + 1;
      buf[next] := len % 0x100;
      next := next + 1;
      buf[next] := len / 0x100 % 0x100;
      next := next + 1;
    }
  }

  method CopyText(buf: array<u8>, from: nat, text: seq<u8>, len: nat)
    requires len <= |text| && from + len <= buf.Length
    modifies buf
    ensures buf[from..from + len] == text[..len]
    ensures buf[..from] == old(buf[..from])
    ensures buf[from + len..] == old(buf[from + len..])
  {
    var n := 0;
    while n < len
      invariant n <= len
      invariant forall k :: 0 <= k < n ==> buf[from + k] == text[k]
      invariant forall k :: 0 <= k < from || from + n <= k < buf.Length ==> buf[k] == old(buf[k])
    {
      buf[from + n] := text[n];
      n := n + 1;
    }
  }

  /** The overflow packet's eleven bytes are always enough. */
  method BuildOverflow(packet: array<u8>, count: u32, delta: u32) returns (end: nat)
    requires packet.Length == 11
    modifies packet
    ensures end <= 11 && packet[0..end] == Encode(Packet(OVERFLOW, Leb(count), delta))
  {
    hide Leb;
    packet[0] := OVERFLOW;
    var at := EncodeU32(packet, 1, count);
    ghost var head := packet[..at];
    assert head == [OVERFLOW] + Leb(count) by {
      assert head[0] == packet[..1][0];
      assert head[1..] == packet[1..at];
    }
    end := EncodeU32(packet, at, delta);
    assert packet[0..end] == head + packet[at..end];
  }

  /** Header in front and delta behind the payload at `start..end`, which stays as it is. */
  method BuildPacket(buf: array<u8>, start: nat, end: nat, id: nat, delta: u32) returns (first: nat, next: nat)
    requires RESERVED <= start <= end && end + QUANTA_U32 <= buf.Length
    modifies buf
    ensures start - RESERVED <= first < start && end < next <= end + QUANTA_U32
    ensures buf[first..next] == Encode(Packet(id, old(buf[start..end]), delta))
  {
    hide Leb, Header;
    first := PrependHeader(buf, start, id, end - start);
    assert buf[start..end] == old(buf[start..end]) by {
      assert buf[start..end] == buf[start..][..end - start];
      assert old(buf[start..end]) == old(buf[start..])[..end - start];
    }
    ghost var front := buf[first..end];
    assert front == buf[first..start] + buf[start..end];
    ghost var all := buf[..end];
    assert all[first..] == front;
    next := EncodeU32(buf, end, delta);
    assert buf[first..next] == buf[..end][first..] + buf[end..next];
  }

  /** The payload of a packet with four U32 values, behind the reserve. */
  method EncodeFour(a: u32, b: u32, c: u32, d: u32) returns (buf: array<u8>, end: nat)
    ensures fresh(buf) && RESERVED <= end && end + QUANTA_U32 <= buf.Length
    ensures buf[RESERVED..end] == EncodeValues([Num(a), Num(b), Num(c), Num(d)])
  {
    hide Leb;
    buf := new u8[RESERVED + 4 * QUANTA_U32 + QUANTA_U32];
    end := EncodeU32(buf, RESERVED, a);
    end := EncodeNext(buf, end, b, Leb(a));
    end := EncodeNext(buf, end, c, Leb(a) + Leb(b));
    end := EncodeNext(buf, end, d, Leb(a) + Leb(b) + Leb(c));
    FourFields(a, b, c, d);
  }

  method EncodeNext(buf: array<u8>, at: nat, value: u32, ghost done: seq<u8>) returns (next: nat)
    requires RESERVED <= at && at + QUANTA_U32 <= buf.Length && buf[RESERVED..at] == done
    modifies buf
    ensures at < next <= at + QUANTA_U32
    ensures buf[RESERVED..next] == done + Leb(value)
  {
    hide Leb;
    next := EncodeU32(buf, at, value);
    assert buf[RESERVED..at] == done by {
      assert buf[RESERVED..at] == buf[..at][RESERVED..] && old(buf[RESERVED..at]) == old(buf[..at])[RESERVED..];
    }
    assert buf[RESERVED..next] == buf[RESERVED..at] + buf[at..next];
  }

  lemma FourFields(a: u32, b: u32, c: u32, d: u32)
    ensures EncodeValues([Num(a), Num(b), Num(c), Num(d)]) == Leb(a) + Leb(b) + Leb(c) + Leb(d)
  {
    hide EncodeValues, EncodeValue, Leb;
    assert EncodeValues([]) == [] by { NoValues(); }
    EncodeSnoc([], Num(a));
    EncodeSnoc([Num(a)], Num(b));
    EncodeSnoc([Num(a), Num(b)], Num(c));
    EncodeSnoc([Num(a), Num(b), Num(c)], Num(d));
    assert [] + [Num(a)] == [Num(a)] && [Num(a)] + [Num(b)] == [Num(a), Num(b)];
    assert [Num(a), Num(b)] + [Num(c)] == [Num(a), Num(b), Num(c)];
    assert [Num(a), Num(b), Num(c)] + [Num(d)] == [Num(a), Num(b), Num(c), Num(d)];
    NumIs(a);
    NumIs(b);
    NumIs(c);
    NumIs(d);
    assert [] + Leb(a) == Leb(a);
  }

  lemma NumIs(n: u32)
    ensures EncodeValue(Num(n)) == Leb(n)
  {
  }

  lemma NoValues()
    ensures EncodeValues([]) == []
  {
  }

  /** One more value is encoded behind the others. */
  lemma {:induction false} EncodeSnoc(values: seq<Value>, v: Value)
    ensures EncodeValues(values + [v]) == EncodeValues(values) + EncodeValue(v)
    decreases |values|
  {
    hide EncodeValue;
    if values == [] {
      assert (values + [v])[1..] == [];
    } else {
      assert (values + [v])[1..] == values[1..] + [v];
      EncodeSnoc(values[1..], v);
    }
  }

  /** `DisabledEvents & (1u << EventId)` */
  predicate Muted(disabled: u32, id: nat) { id < 32 && And(disabled, Pow2(id)) != 0 }

  /** An event is disabled if it is one of the first 32 and its bit is set; all others never are. */
  lemma MutedExact(disabled: u32, id: nat)
    ensures Muted(disabled, id) <==> id < 32 && disabled / Pow2(id) % 2 == 1
    ensures !Muted(0, id)
  {
    AndPower(disabled, id);
    AndPower(0, id);
  }

  lemma ClearedBit(was: u32, mask: u32, k: nat)
    requires k < 32
    ensures And(was, 0xFFFF_FFFF - mask) / Pow2(k) % 2 == 1 <==> was / Pow2(k) % 2 == 1 && mask / Pow2(k) % 2 == 0
  {
    hide And;
    assert Pow2(32) == 0x1_0000_0000 by { Pow2Values(); }
    hide Pow2;
    AndBits(was, 0xFFFF_FFFF - mask, k);
    NotBits(mask, 32, k);
    ShrIsDiv(And(was, 0xFFFF_FFFF - mask), k);
    ShrIsDiv(was, k);
    ShrIsDiv(mask, k);
  }

  lemma SetBit(was: u32, mask: u32, k: nat)
    ensures Or(was, mask) / Pow2(k) % 2 == 1 <==> was / Pow2(k) % 2 == 1 || mask / Pow2(k) % 2 == 1
  {
    hide Or, Pow2;
    OrBits(was, mask, k);
    ShrIsDiv(Or(was, mask), k);
    ShrIsDiv(was, k);
    ShrIsDiv(mask, k);
  }

  lemma OrWord(x: u32, y: u32)
    ensures Or(x, y) < 0x1_0000_0000
  {
    hide Or;
    assert Pow2(32) == 0x1_0000_0000 by { Pow2Values(); }
    OrBound(x, y, 32);
  }

  /** What the ring below said to a packet. */
  datatype Answer = NotAsked | Taken | Refused

  /** What the ring said to the overflow packet and to the packet of one call, and what the call added to the history. */
  datatype Sent = Sent(overflow: Answer, packet: Answer, events: seq<Event>)

  /** A packet offered to the ring in `v`. */
  function Offered(env: Env, v: View, id: nat, payload: seq<u8>): Event {
    var t := env.clock(v.readings);
    if env.ring(v.offers) then Stored(Packet(id, payload, Sub32(t, v.clock)), t) else Lost
  }

  /** What one sent packet adds to the history of a recorder in state `v`. */
  function Outcome(env: Env, v: View, muted: bool, id: nat, payload: seq<u8>): Sent {
    if v.state == OFF then Sent(NotAsked, NotAsked, [])
    else if v.state == ON then Recorded(env, v, muted, id, payload, NotAsked, [])
    else
      var e := Offered(env, v, OVERFLOW, Leb(Dropped(v)));
      if e == Lost then Sent(Refused, NotAsked, [Lost]) else Recorded(env, Step(v, e), muted, id, payload, Taken, [e])
  }

  /** The packet itself, after the overflow packet if there was one. */
  function Recorded(env: Env, v: View, muted: bool, id: nat, payload: seq<u8>, overflow: Answer, before: seq<Event>): Sent {
    if muted then Sent(overflow, NotAsked, before)
    else
      var e := Offered(env, v, id, payload);
      Sent(overflow, if e == Lost then Refused else Taken, before + [e])
  }

  /** The packet alone. */
  lemma RecordedIs(env: Env, v: View, muted: bool, id: nat, payload: seq<u8>)
    ensures var e := Offered(env, v, id, payload);
      Recorded(env, v, muted, id, payload, NotAsked, [])
      == if muted then Sent(NotAsked, NotAsked, []) else Sent(NotAsked, if e == Lost then Refused else Taken, [e])
  {
  }

  /** An offer of a recorder that is on may happen, whatever the ring says. */
  lemma OfferStep(env: Env, v: View, id: nat, payload: seq<u8>)
    requires v.state == ON
    ensures var e := Offered(env, v, id, payload); var w := Step(v, e);
      && Allowed(env, v, e) && w.offers == v.offers + 1 && w.readings == v.readings + 1
      && w.state == (if e == Lost then DROPPING else ON) && w.clock == if e == Lost then v.clock else env.clock(v.readings)
  {
    DeltaAdds(v.clock, env.clock(v.readings));
  }

  lemma RecordedAfter(env: Env, v: View, muted: bool, id: nat, payload: seq<u8>, overflow: Answer, before: seq<Event>)
    ensures var s := Recorded(env, v, muted, id, payload, NotAsked, []);
      Recorded(env, v, muted, id, payload, overflow, before) == Sent(overflow, s.packet, before + s.events)
  {
  }

  /** What becomes of one packet, case by case. */
  lemma OutcomeIs(env: Env, v: View, disabled: u32, id: nat, payload: seq<u8>)
    ensures var s := Outcome(env, v, Muted(disabled, id), id, payload);
      var off := id < 32 && disabled / Pow2(id) % 2 == 1;
      var t, u := env.clock(v.readings), env.clock(v.readings + 1);
      && (v.state == OFF ==> s.packet == NotAsked && s.events == [])
      && (v.state == ON && off ==> s.packet == NotAsked && s.events == [])
      && (v.state == ON && !off ==>
            s.packet != NotAsked
            && s.events == [if env.ring(v.offers) then Stored(Packet(id, payload, Sub32(t, v.clock)), t) else Lost])
      && (v.state == DROPPING && !env.ring(v.offers) ==> s.packet == NotAsked && s.events == [Lost])
      && (v.state == DROPPING && env.ring(v.offers) && off ==>
            s.packet == NotAsked
            && s.events == [Stored(Packet(1, Leb(Dropped(v)), Sub32(t, v.clock)), t)])
      && (v.state == DROPPING && env.ring(v.offers) && !off ==>
            s.packet != NotAsked
            && s.events == [Stored(Packet(1, Leb(Dropped(v)), Sub32(t, v.clock)), t),
                            if env.ring(v.offers + 1) then Stored(Packet(id, payload, Sub32(u, t)), u) else Lost])
  {
    hide Leb, Dropped;
    MutedExact(disabled, id);
    hide Muted;
  }

  /** A call is counted as lost exactly if the ring refused one of its packets. */
  lemma LostExact(env: Env, v: View, muted: bool, id: nat, payload: seq<u8>)
    requires v.state <= DROPPING
    ensures var s := Outcome(env, v, muted, id, payload);
      Lost in s.events <==> s.overflow == Refused || s.packet == Refused
  {
  }

  /**
   A packet that is disabled is never asked for, and is counted as lost all the same
   exactly if the recorder is dropping and the ring refuses the overflow packet.
   */
  lemma DisabledLost(env: Env, v: View, id: nat, payload: seq<u8>)
    requires v.state <= DROPPING
    ensures var s := Outcome(env, v, true, id, payload);
      && s.packet == NotAsked
      && (Lost in s.events <==> v.state == DROPPING && !env.ring(v.offers))
      && (s.events == [Lost] <==> v.state == DROPPING && !env.ring(v.offers))
  {
  }

  /** A history in which that happens: DropCount grows by a packet that would not have been sent. */
  lemma DisabledLostWitness(clock: nat -> u32, id: nat)
    ensures var env := Env(_ => false, clock); var log := [Started, SyncLost, Lost]; var v := After(Begin(env), log);
      && Lawful(env, Begin(env), log + [Lost])
      && Outcome(env, v, true, id, []).events == [Lost]
      && Dropped(v) == 0 && Dropped(After(Begin(env), log + [Lost])) == 1
  {
    hide Leb;
    var env := Env(_ => false, clock);
    var b := Begin(env);
    assert After(b, []) == b;
    AfterAppend(b, [], Started);
    assert [] + [Started] == [Started] && [Started] + [SyncLost] == [Started, SyncLost];
    assert [Started, SyncLost] + [Lost] == [Started, SyncLost, Lost];
    AfterAppend(b, [Started], SyncLost);
    AfterAppend(b, [Started, SyncLost], Lost);
    AfterAppend(b, [Started, SyncLost, Lost], Lost);
    LawfulAppend(env, b, [], Started);
    LawfulAppend(env, b, [Started], SyncLost);
    LawfulAppend(env, b, [Started, SyncLost], Lost);
    LawfulAppend(env, b, [Started, SyncLost, Lost], Lost);
  }

  lemma DeltaAdds(last: u32, clock: u32)
    ensures (last + Sub32(clock, last)) % 0x1_0000_0000 == clock
  {
  }

  lemma SameDropped(v: View, e: Event)
    requires e.Lost? ==> v.state == ON
    ensures Dropped(Step(v, e)) == Dropped(v)
  {
  }

  lemma OneMoreLost(v: View)
    requires v.state == DROPPING
    ensures Dropped(Step(v, Lost)) == Add32(Dropped(v), 1)
  {
  }

  /** Event ids that a header fixes. */
  datatype EventIds = EventIds(traceStart: nat, traceStop: nat, init: nat, sysDesc: nat, taskInfo: nat, stackInfo: nat)

  /** How a start begins: sync, start packet, what comes in between, init packet. */
  datatype First = First(sync: seq<Event>, start: Sent, between: seq<Event>, info: Sent)

  // ---------------------------------------------------------------------
  // Payloads the recorder builds
  // ---------------------------------------------------------------------

  /** The host reads an id as these kinds, or by its length. */
  predicate KnownAs(schema: Schema, id: nat, kinds: seq<Kind>) {
    0 < id < 0x4000 && (id < 24 ==> schema(id) == kinds)
  }

  lemma ValuesSendable(schema: Schema, id: nat, values: seq<Value>)
    requires KnownAs(schema, id, KindsOf(values)) && Whole(values) && |EncodeValues(values)| < 0x4000
    ensures Sendable(schema, id, EncodeValues(values))
  {
    hide KindsOf, Whole, EncodeValues;
    if id < 24 { ValuesReadable(schema, id, values, 0); }
  }

  lemma FourSendable(schema: Schema, id: nat, a: u32, b: u32, c: u32, d: u32)
    requires KnownAs(schema, id, [NumKind, NumKind, NumKind, NumKind])
    ensures Sendable(schema, id, EncodeValues([Num(a), Num(b), Num(c), Num(d)]))
  {
    hide KnownAs, Sendable, Leb, EncodeValues;
    FourFields(a, b, c, d);
    U32Length(a);
    U32Length(b);
    U32Length(c);
    U32Length(d);
    var values := [Num(a), Num(b), Num(c), Num(d)];
    assert KindsOf(values) == [NumKind, NumKind, NumKind, NumKind];
    ValuesSendable(schema, id, values);
  }

  lemma OneString(text: seq<u8>)
    ensures EncodeValues([Str(text)]) == StrBytes(text)
  {
    assert [Str(text)][1..] == [];
    assert StrBytes(text) + [] == StrBytes(text);
  }

  lemma StrFits(text: seq<u8>, limit: nat)
    requires 0 in text
    ensures |StrBytes(Cut(CString(text), limit))| <= 3 + |text|
    ensures |StrBytes(Cut(CString(text), limit))| <= 3 + limit
  {
  }

  lemma StrEnds(buf: seq<u8>, at: nat, end: nat, text: seq<u8>, limit: nat)
    requires 0 in text && at <= end <= |buf| && buf[at..end] == StrBytes(Cut(CString(text), limit))
    ensures end <= at + 3 + |text|
  {
    StrFits(text, limit);
    assert |buf[at..end]| == end - at;
  }

  lemma SysDescSendable(schema: Schema, id: nat, text: seq<u8>, limit: nat)
    requires 0 in text && limit < 0x4000 - 3 && KnownAs(schema, id, [StrKind])
    ensures Sendable(schema, id, EncodeValues([Str(Cut(CString(text), limit))]))
  {
    var cut := Cut(CString(text), limit);
    OneString(cut);
    StrFits(text, limit);
    var values := [Str(cut)];
    assert values[1..] == [];
    assert KindsOf(values) == [StrKind];
    hide EncodeValues, KnownAs, Sendable;
    ValuesSendable(schema, id, values);
  }

  lemma TaskFields(task: u32, prio: u32, text: seq<u8>)
    ensures EncodeValues([Num(task), Num(prio), Str(text)]) == Leb(task) + Leb(prio) + StrBytes(text)
    ensures KindsOf([Num(task), Num(prio), Str(text)]) == [NumKind, NumKind, StrKind]
  {
    hide Leb, StrBytes;
    var values := [Num(task), Num(prio), Str(text)];
    assert values[1..] == [Num(prio), Str(text)] && [Num(prio), Str(text)][1..] == [Str(text)];
    OneString(text);
    assert [Str(text)][1..] == [];
    assert KindsOf(values) == [NumKind, NumKind, StrKind];
    assert EncodeValues([Num(prio), Str(text)]) == Leb(prio) + StrBytes(text);
    assert Leb(task) + (Leb(prio) + StrBytes(text)) == Leb(task) + Leb(prio) + StrBytes(text);
  }

  lemma TaskInfoSendable(schema: Schema, id: nat, task: u32, prio: u32, name: seq<u8>)
    requires 0 in name && KnownAs(schema, id, [NumKind, NumKind, StrKind])
    ensures Sendable(schema, id, EncodeValues([Num(task), Num(prio), Str(Cut(CString(name), 32))]))
  {
    hide Leb, EncodeValues, KindsOf, KnownAs, Sendable;
    var cut := Cut(CString(name), 32);
    TaskFields(task, prio, cut);
    StrFits(name, 32);
    U32Length(task);
    U32Length(prio);
    ValuesSendable(schema, id, [Num(task), Num(prio), Str(cut)]);
  }

  /** The payload of a task's description, behind the reserve. */
  method EncodeTask(task: u32, prio: u32, name: seq<u8>) returns (buf: array<u8>, end: nat)
    requires 0 in name
    ensures fresh(buf) && RESERVED <= end && end + QUANTA_U32 <= buf.Length
    ensures buf[RESERVED..end] == EncodeValues([Num(task), Num(prio), Str(Cut(CString(name), 32))])
  {
    hide Leb, StrBytes, EncodeValues, CString;
    buf := new u8[RESERVED + 2 * QUANTA_U32 + 35 + QUANTA_U32];
    end := EncodeU32(buf, RESERVED, task);
    end := EncodeNext(buf, end, prio, Leb(task));
    ghost var at, head := end, buf[..end];
    StrFits(name, 32);
    end := EncodeStr(buf, end, name, 32);
    TaskFields(task, prio, Cut(CString(name), 32));
    assert buf[RESERVED..end] == buf[..at][RESERVED..] + buf[at..end];
    assert |buf[at..end]| == end - at;
  }

  /** Any packet of known structure. */
  method SomePacket(schema: Schema) returns (id: nat, values: seq<Value>, payload: seq<u8>)
    ensures Sendable(schema, id, payload)
  {
    var none: seq<u8> := [];
    assert 0 < 24 < 0x4000 && |none| < 0x4000;
    id, values, payload :| 0 < id < 0x4000 && |payload| < 0x4000
      && (id < 24 ==> KindsOf(values) == schema(id) && Whole(values) && payload == EncodeValues(values));
    if id < 24 { ValuesReadable(schema, id, values, 0); }
  }

  /** What the host may ask for. */
  datatype Command = StartCommand | StopCommand | OtherCommand

  /** What a look at the down channel finds. */
  datatype Ask = Quiet | Asked(command: Command)

  /** `_SYSVIEW_Globals`, with the up channel's stream and the history of the run. */
  class Recorder {
    var enableState: u8
    var recursionCnt: u8
    var lastTxTimeStamp: u32
    var dropCount: u32
    var disabledEvents: u32
    const sysFreq: u32
    const cpuFreq: u32
    const ramBase: u32
    const idShift: u32
    /** Event ids that are fixed in a header outside the source. */
    const traceStart: nat
    const traceStop: nat
    const init: nat
    const sysDesc: nat
    const taskInfo: nat
    const stackInfo: nat
    /** What the host knows of the ids below 24. */
    const schema: Schema
    /** The ring's answers and the clock's readings, one after the other, and what each look at the down channel finds. */
    const env: Env
    const host: nat -> Ask
    var offers: nat
    var readings: nat
    var looks: nat
    ghost var stream: seq<u8>
    ghost var log: seq<Event>

    ghost function Now(): View
      reads this
    {
      After(Begin(env), log)
    }

    /** The host knows the packets the recorder makes up itself. */
    ghost predicate Known()
    {
      && schema(OVERFLOW) == [NumKind]
      && Sendable(schema, traceStart, []) && Sendable(schema, traceStop, [])
      && 0 < init < 0x4000 && (init < 24 ==> schema(init) == [NumKind, NumKind, NumKind, NumKind])
    }

    /** Every packet stored so far can be read. */
    ghost predicate Clean()
      reads this
    {
      AllReadable(schema, log)
    }

    ghost predicate Valid()
      reads this
    {
      && Known()
      && Lawful(env, Begin(env), log)
      && stream == StreamBytes(log)
      && enableState == Now().state
      && lastTxTimeStamp == Now().clock
      && dropCount == Dropped(Now())
      && offers == Now().offers && readings == Now().readings
      && enableState <= DROPPING
      && recursionCnt <= 1
    }

    /** Static initialisation, then `SEGGER_SYSVIEW_Init`. */
    constructor (sysFreq: u32, cpuFreq: u32, ramBase: u32, idShift: u32, schema: Schema, ids: EventIds, env: Env, host: nat -> Ask)
      requires schema(OVERFLOW) == [NumKind] && Sendable(schema, ids.traceStart, []) && Sendable(schema, ids.traceStop, [])
      requires 0 < ids.init < 0x4000 && (ids.init < 24 ==> schema(ids.init) == [NumKind, NumKind, NumKind, NumKind])
      ensures Valid() && Clean() && log == [] && stream == [] && enableState == OFF && this.schema == schema
      ensures this.sysFreq == sysFreq && this.cpuFreq == cpuFreq && this.ramBase == ramBase && this.idShift == idShift
      ensures EventIds(traceStart, traceStop, init, sysDesc, taskInfo, stackInfo) == ids
      ensures this.env == env && this.host == host && lastTxTimeStamp == env.clock(0) && dropCount == 0 && disabledEvents == 0
    {
      this.sysFreq, this.cpuFreq, this.ramBase, this.idShift := sysFreq, cpuFreq, ramBase, idShift;
      traceStart, traceStop, init := ids.traceStart, ids.traceStop, ids.init;
      sysDesc, taskInfo, stackInfo := ids.sysDesc, ids.taskInfo, ids.stackInfo;
      this.schema := schema;
      this.env, this.host := env, host;
      offers, readings, looks := 0, 1, 0;
      enableState, recursionCnt, lastTxTimeStamp, dropCount, disabledEvents := OFF, 0, env.clock(0), 0, 0;
      stream, log := [], [];
    }

    /** `SEGGER_SYSVIEW_EnableEvents` clears the bits of the mask, and no others. */
    method EnableEvents(mask: u32)
      modifies this`disabledEvents
      ensures forall k: nat :: k < 32 ==>
        (disabledEvents / Pow2(k) % 2 == 1 <==> old(disabledEvents) / Pow2(k) % 2 == 1 && mask / Pow2(k) % 2 == 0)
    {
      hide And, Pow2;
      var was := disabledEvents;
      AndBound(was, 0xFFFF_FFFF - mask);
      disabledEvents := And(was, 0xFFFF_FFFF - mask);
      forall k: nat | k < 32
        ensures disabledEvents / Pow2(k) % 2 == 1 <==> was / Pow2(k) % 2 == 1 && mask / Pow2(k) % 2 == 0
      {
        ClearedBit(was, mask, k);
      }
    }

    /** `SEGGER_SYSVIEW_DisableEvents` sets them. */
    method DisableEvents(mask: u32)
      modifies this`disabledEvents
      ensures forall k: nat :: k < 32 ==>
        (disabledEvents / Pow2(k) % 2 == 1 <==> old(disabledEvents) / Pow2(k) % 2 == 1 || mask / Pow2(k) % 2 == 1)
    {
      hide Or, Pow2;
      var was := disabledEvents;
      OrWord(was, mask);
      disabledEvents := Or(was, mask);
      forall k: nat | k < 32
        ensures disabledEvents / Pow2(k) % 2 == 1 <==> was / Pow2(k) % 2 == 1 || mask / Pow2(k) % 2 == 1
      {
        SetBit(was, mask, k);
      }
    }

    /** The ring below takes all of the bytes or none of them. */
    method WriteSkip(buf: array<u8>, from: nat, to: nat) returns (stored: bool)
      requires from <= to <= buf.Length
      modifies this`stream, this`offers
      ensures stored == env.ring(old(offers)) && offers == old(offers) + 1
      ensures stream == if stored then old(stream) + buf[from..to] else old(stream)
    {
      stored := env.ring(offers);
      offers := offers + 1;
      if stored { stream := stream + buf[from..to]; }
    }

    /** `SEGGER_SYSVIEW_GET_TIMESTAMP` */
    method Timestamp() returns (t: u32)
      modifies this`readings
      ensures t == env.clock(old(readings)) && readings == old(readings) + 1
    {
      t := env.clock(readings);
      readings := readings + 1;
    }

    ghost method Happens(e: Event)
      requires Lawful(env, Begin(env), log) && Allowed(env, Now(), e)
      modifies this`log
      ensures log == old(log) + [e] && Lawful(env, Begin(env), log)
      ensures Now() == Step(old(Now()), e)
      ensures StreamBytes(log) == StreamBytes(old(log)) + EventBytes(e)
      ensures old(Clean()) && (e.Stored? ==> Readable(schema, e.packet)) ==> Clean()
    {
      LawfulAppend(env, Begin(env), log, e);
      AfterAppend(Begin(env), log, e);
      StreamAppend(log, e);
      log := log + [e];
    }

    method TrySendOverflowPacket() returns (status: bool)
      requires Valid() && enableState == DROPPING
      modifies this`enableState, this`lastTxTimeStamp, this`dropCount, this`stream, this`log, this`offers, this`readings
      ensures Valid() && (old(Clean()) ==> Clean())
      ensures enableState == if status then ON else DROPPING
      ensures !status ==> log == old(log) + [Lost] && dropCount == Add32(old(dropCount), 1)
      ensures status ==> dropCount == old(dropCount)
      ensures status ==> log == old(log) + [Stored(Packet(OVERFLOW, Leb(dropCount), Sub32(lastTxTimeStamp, old(lastTxTimeStamp))), lastTxTimeStamp)]
      ensures status ==> lastTxTimeStamp == env.clock(old(readings))
      ensures status == env.ring(old(offers))
      ensures |log| == |old(log)| + 1 && Now() == Step(old(Now()), log[|old(log)|])
    {
      hide Leb, Lawful, After, Encode, StreamBytes, AllReadable, Readable, Sendable, Dropped;
      var packet := new u8[11];
      var clock := Timestamp();
      var delta: u32 := Sub32(clock, lastTxTimeStamp);
      var end := BuildOverflow(packet, dropCount, delta);
      ghost var p := Packet(OVERFLOW, Leb(dropCount), delta);
      status := WriteSkip(packet, 0, end);
      if status {
        DeltaAdds(lastTxTimeStamp, clock);
        OverflowReadable(schema, dropCount, delta);
        SameDropped(Now(), Stored(p, clock));
        Happens(Stored(p, clock));
        lastTxTimeStamp := clock;
        enableState := enableState - 1;
      } else {
        OneMoreLost(Now());
        Happens(Lost);
        dropCount := Add32(dropCount, 1);
        assert stream + EventBytes(Lost) == stream;
      }
    }

    /** The part of `_SendPacket` that stores the packet: lines 675-724. */
    method Store(buf: array<u8>, start: nat, end: nat, id: nat) returns (answer: Answer)
      requires Valid() && enableState == ON
      requires RESERVED <= start <= end && end + QUANTA_U32 <= buf.Length
      modifies this`enableState, this`lastTxTimeStamp, this`stream, this`log, this`offers, this`readings, buf
      ensures Valid() && enableState != OFF
      ensures old(Clean()) && Sendable(schema, id, old(buf[start..end])) ==> Clean()
      ensures old(log) <= log
      ensures Sent(NotAsked, answer, log[|old(log)|..])
           == Recorded(env, old(Now()), Muted(disabledEvents, id), id, old(buf[start..end]), NotAsked, [])
    {
      hide Leb, Lawful, After, Encode, StreamBytes, Muted, AllReadable, Readable, Sendable, Dropped, Allowed, Recorded, Step;
      RecordedIs(env, Now(), Muted(disabledEvents, id), id, buf[start..end]);
      if Muted(disabledEvents, id) { return NotAsked; }
      ghost var payload := buf[start..end];
      var clock := Timestamp();
      var delta: u32 := Sub32(clock, lastTxTimeStamp);
      ghost var v := Now();
      OfferStep(env, v, id, buf[start..end]);
      var first, next := BuildPacket(buf, start, end, id, delta);
      ghost var p := Packet(id, payload, delta);
      var stored := WriteSkip(buf, first, next);
      if stored {
        answer := Taken;
        if Sendable(schema, id, payload) { SentReadable(schema, id, payload, delta); }
        SameDropped(Now(), Stored(p, clock));
        Happens(Stored(p, clock));
        lastTxTimeStamp := clock;
      } else {
        answer := Refused;
        SameDropped(Now(), Lost);
        Happens(Lost);
        enableState := enableState + 1;
        assert stream + EventBytes(Lost) == stream;
      }
    }

    /** `_SendPacket`, up to the check for incoming commands. */
    method Transmit(buf: array<u8>, start: nat, end: nat, id: nat) returns (overflow: Answer, packet: Answer)
      requires Valid()
      requires RESERVED <= start <= end && end + QUANTA_U32 <= buf.Length
      modifies this`enableState, this`lastTxTimeStamp, this`dropCount, this`stream, this`log, this`offers, this`readings, buf
      ensures Valid()
      ensures old(Clean()) && Sendable(schema, id, old(buf[start..end])) ==> Clean()
      ensures old(log) <= log
      ensures Sent(overflow, packet, log[|old(log)|..])
           == Outcome(env, old(Now()), Muted(disabledEvents, id), id, old(buf[start..end]))
      ensures enableState == OFF <==> old(enableState) == OFF
    {
      hide Leb, Lawful, After, Muted, AllReadable, Sendable, Dropped, StreamBytes;
      overflow, packet := NotAsked, NotAsked;
      if enableState == OFF { return; }
      if enableState == DROPPING {
        var status := TrySendOverflowPacket();
        overflow := if status then Taken else Refused;
        if enableState != ON { return; }
      }
      ghost var mid, v := log, Now();
      ghost var payload := buf[start..end];
      packet := Store(buf, start, end, id);
      RecordedAfter(env, v, Muted(disabledEvents, id), id, payload, overflow, mid[|old(log)|..]);
      assert log[|old(log)|..] == mid[|old(log)|..] + log[|mid|..];
    }

    /**
     `_SendPacket`. `sent` is what the ring said and what this packet added to the
     history; a host command handled on the way out may add more, but not while one
     is being handled.
     */
    method SendPacket(buf: array<u8>, start: nat, end: nat, id: nat) returns (ghost sent: Sent)
      requires Valid()
      requires RESERVED <= start <= end && end + QUANTA_U32 <= buf.Length
      modifies this`enableState, this`recursionCnt, this`lastTxTimeStamp, this`dropCount, this`stream, this`log, this`offers, this`readings, this`looks, buf
      ensures Valid() && recursionCnt == old(recursionCnt)
      ensures old(Clean()) && Sendable(schema, id, old(buf[start..end])) ==> Clean()
      ensures old(log) + sent.events <= log
      ensures sent == Outcome(env, old(Now()), Muted(disabledEvents, id), id, old(buf[start..end]))
      ensures var off := id < 32 && disabledEvents / Pow2(id) % 2 == 1;
        var t, u := env.clock(old(readings)), env.clock(old(readings) + 1);
        var mine := if env.ring(old(offers)) then Stored(Packet(id, old(buf[start..end]), Sub32(t, old(lastTxTimeStamp))), t) else Lost;
        var overflow := Stored(Packet(1, Leb(old(dropCount)), Sub32(t, old(lastTxTimeStamp))), t);
        var next := if env.ring(old(offers) + 1) then Stored(Packet(id, old(buf[start..end]), Sub32(u, t)), u) else Lost;
        && (old(enableState) == OFF ==> sent.packet == NotAsked && sent.events == [])
        && (old(enableState) == ON && off ==> sent.packet == NotAsked && sent.events == [])
        && (old(enableState) == ON && !off ==> sent.packet != NotAsked && sent.events == [mine])
        && (old(enableState) == DROPPING && !env.ring(old(offers)) ==> sent.packet == NotAsked && sent.events == [Lost])
        && (old(enableState) == DROPPING && env.ring(old(offers)) && off ==> sent.packet == NotAsked && sent.events == [overflow])
        && (old(enableState) == DROPPING && env.ring(old(offers)) && !off ==> sent.packet != NotAsked && sent.events == [overflow, next])
      ensures old(recursionCnt) == 1 || host(old(looks)) == Quiet ==>
        log == old(log) + sent.events && (enableState == OFF <==> old(enableState) == OFF)
      ensures old(recursionCnt) == 0 && host(old(looks)) == Asked(StartCommand) ==> enableState != OFF
      ensures old(recursionCnt) == 0 && host(old(looks)) == Asked(StopCommand) ==> enableState == OFF
      decreases 1 - recursionCnt, 0
    {
      hide Outcome, Muted, Lawful, After, StreamBytes, Dropped, AllReadable, Sendable, Leb, Pow2;
      OutcomeIs(env, Now(), disabledEvents, id, buf[start..end]);
      var overflow, packet := Transmit(buf, start, end, id);
      sent := Sent(overflow, packet, log[|old(log)|..]);
      assert log == old(log) + sent.events;
      var ask := host(looks);
      looks := looks + 1;
      if ask.Asked? && recursionCnt == 0 {
        recursionCnt := 1;
        HandleIncomingPacket(ask.command);
        recursionCnt := 0;
      }
    }

    /** A start or stop command, or one that the target answers with some packets, or none. */
    method HandleIncomingPacket(command: Command)
      requires Valid() && recursionCnt == 1
      modifies this`enableState, this`recursionCnt, this`lastTxTimeStamp, this`dropCount, this`stream, this`log, this`offers, this`readings, this`looks
      ensures Valid() && recursionCnt == 1 && old(log) <= log && (old(Clean()) ==> Clean())
      ensures command == StartCommand ==> enableState != OFF
      ensures command == StopCommand ==> enableState == OFF
      ensures command == OtherCommand ==> (enableState == OFF <==> old(enableState) == OFF)
      ensures command == StartCommand && old(enableState) == OFF ==> old(log) + [Started] <= log
      ensures command == StopCommand && old(enableState) != OFF ==> |log| > |old(log)| && log[|log| - 1] == Stopped
      ensures command != OtherCommand && (command == StartCommand <==> old(enableState) != OFF) ==> log == old(log)
      decreases 1 - recursionCnt, 4
    {
      hide Outcome, Muted, Recorded, Lawful, After, StreamBytes, Dropped, AllReadable, Sendable;
      match command
      case StartCommand =>
        ghost var first := Start();
      case StopCommand =>
        ghost var sent, between := Stop();
      case OtherCommand =>
        RecordMore();
    }

    /** `SEGGER_SYSVIEW_RecordVoid` and its like: one packet from a buffer of its own. */
    method Record(id: nat, payload: seq<u8>) returns (ghost sent: Sent)
      requires Valid()
      modifies this`enableState, this`recursionCnt, this`lastTxTimeStamp, this`dropCount, this`stream, this`log, this`offers, this`readings, this`looks
      ensures Valid() && recursionCnt == old(recursionCnt)
      ensures old(log) + sent.events <= log
      ensures old(Clean()) && Sendable(schema, id, payload) ==> Clean()
      ensures sent == Outcome(env, old(Now()), Muted(disabledEvents, id), id, payload)
      ensures old(recursionCnt) == 1 ==> log == old(log) + sent.events && (enableState == OFF <==> old(enableState) == OFF)
      decreases 1 - recursionCnt, 1
    {
      hide Outcome, Muted, Lawful, After, StreamBytes, Dropped, AllReadable, Sendable;
      var n := |payload|;
      var buf := new u8[RESERVED + n + QUANTA_U32](i => if RESERVED <= i < RESERVED + n then payload[i - RESERVED] else 0);
      assert buf[RESERVED..RESERVED + n] == payload;
      sent := SendPacket(buf, RESERVED, RESERVED + n, id);
    }

    method RecordU32x4(id: nat, a: u32, b: u32, c: u32, d: u32) returns (ghost sent: Sent)
      requires Valid()
      modifies this`enableState, this`recursionCnt, this`lastTxTimeStamp, this`dropCount, this`stream, this`log, this`offers, this`readings, this`looks
      ensures Valid() && recursionCnt == old(recursionCnt)
      ensures old(log) + sent.events <= log
      ensures old(Clean()) && Sendable(schema, id, EncodeValues([Num(a), Num(b), Num(c), Num(d)])) ==> Clean()
      ensures sent == Outcome(env, old(Now()), Muted(disabledEvents, id), id, EncodeValues([Num(a), Num(b), Num(c), Num(d)]))
      ensures old(recursionCnt) == 1 ==> log == old(log) + sent.events && (enableState == OFF <==> old(enableState) == OFF)
      decreases 1 - recursionCnt, 1
    {
      hide Outcome, Muted, Lawful, After, StreamBytes, Dropped, Leb, AllReadable, Sendable;
      var buf, end := EncodeFour(a, b, c, d);
      sent := SendPacket(buf, RESERVED, end, id);
    }

    /** One string: a line of the system description. */
    method SendSysDesc(text: seq<u8>, limit: nat) returns (ghost sent: Sent)
      requires Valid() && 0 in text
      modifies this`enableState, this`recursionCnt, this`lastTxTimeStamp, this`dropCount, this`stream, this`log, this`offers, this`readings, this`looks
      ensures Valid() && recursionCnt == old(recursionCnt)
      ensures old(Clean()) && limit < 0x4000 - 3 && KnownAs(schema, sysDesc, [StrKind]) ==> Clean()
      ensures old(log) + sent.events <= log
      ensures sent == Outcome(env, old(Now()), Muted(disabledEvents, sysDesc), sysDesc, EncodeValues([Str(Cut(CString(text), limit))]))
      ensures old(recursionCnt) == 1 ==> log == old(log) + sent.events && (enableState == OFF <==> old(enableState) == OFF)
      decreases 1 - recursionCnt, 1
    {
      hide Outcome, Muted, Lawful, After, StreamBytes, Dropped, AllReadable, Sendable, KnownAs, Leb;
      ghost var values := [Str(Cut(CString(text), limit))];
      var buf := new u8[RESERVED + 3 + |text| + QUANTA_U32];
      StrFits(text, limit);
      var end := EncodeStr(buf, RESERVED, text, limit);
      OneString(Cut(CString(text), limit));
      StrEnds(buf[..], RESERVED, end, text, limit);
      if limit < 0x4000 - 3 && KnownAs(schema, sysDesc, [StrKind]) { SysDescSendable(schema, sysDesc, text, limit); }
      sent := SendPacket(buf, RESERVED, end, sysDesc);
    }

    predicate TasksKnown() {
      && KnownAs(schema, taskInfo, [NumKind, NumKind, StrKind])
      && KnownAs(schema, stackInfo, [NumKind, NumKind, NumKind, NumKind])
    }

    /** Two numbers and a name; then the stack of the task as four numbers. */
    method SendTaskInfo(task: u32, prio: u32, name: seq<u8>, stackBase: u32, stackSize: u32)
      returns (ghost info: Sent, ghost between: seq<Event>, ghost stack: Sent)
      requires Valid() && 0 in name
      modifies this`enableState, this`recursionCnt, this`lastTxTimeStamp, this`dropCount, this`stream, this`log, this`offers, this`readings, this`looks
      ensures Valid() && recursionCnt == old(recursionCnt)
      ensures old(Clean()) && TasksKnown() ==> Clean()
      ensures old(log) + info.events + between + stack.events <= log
      ensures info == Outcome(env, old(Now()), Muted(disabledEvents, taskInfo), taskInfo,
                      EncodeValues([Num(task), Num(prio), Str(Cut(CString(name), 32))]))
      ensures stack == Outcome(env, After(Begin(env), old(log) + info.events + between), Muted(disabledEvents, stackInfo), stackInfo,
                      EncodeValues([Num(task), Num(stackBase), Num(stackSize), Num(0)]))
      ensures old(recursionCnt) == 1 ==> between == [] && log == old(log) + info.events + stack.events
      decreases 1 - recursionCnt, 2
    {
      hide Outcome, Muted, Lawful, After, StreamBytes, Dropped, AllReadable, Sendable, KnownAs, Leb, EncodeValues;
      var buf, end := EncodeTask(task, prio, name);
      if TasksKnown() {
        TaskInfoSendable(schema, taskInfo, task, prio, name);
        FourSendable(schema, stackInfo, task, stackBase, stackSize, 0);
      }
      info := SendPacket(buf, RESERVED, end, taskInfo);
      ghost var sofar := old(log) + info.events;
      between := log[|sofar|..];
      assert log == sofar + between;
      stack := RecordU32x4(stackInfo, task, stackBase, stackSize, 0);
    }

    /**
     Any number of further packets of known structure: the callback's system
     description, the task list and so on.
     */
    method RecordMore()
      requires Valid()
      modifies this`enableState, this`recursionCnt, this`lastTxTimeStamp, this`dropCount, this`stream, this`log, this`offers, this`readings, this`looks
      ensures Valid() && recursionCnt == old(recursionCnt) && old(log) <= log && (old(Clean()) ==> Clean())
      ensures old(recursionCnt) == 1 ==> (enableState == OFF <==> old(enableState) == OFF)
      decreases 1 - recursionCnt, 2
    {
      hide Outcome, Muted, Lawful, After, StreamBytes, Dropped, AllReadable, Sendable;
      var more: nat :| true;
      for i := 0 to more
        invariant Valid() && recursionCnt == old(recursionCnt) && old(log) <= log && (old(Clean()) ==> Clean())
        invariant old(recursionCnt) == 1 ==> (enableState == OFF <==> old(enableState) == OFF)
      {
        var id, values, payload := SomePacket(schema);
        ghost var sent := Record(id, payload);
      }
    }

    /**
     The sync bytes if the ring had room for them, the start packet, the init packet,
     and between and after them what host commands and callbacks cause.
     */
    method Start() returns (ghost first: First)
      requires Valid()
      modifies this`enableState, this`recursionCnt, this`lastTxTimeStamp, this`dropCount, this`stream, this`log, this`offers, this`readings, this`looks
      ensures Valid() && recursionCnt == old(recursionCnt) && old(log) <= log && (old(Clean()) ==> Clean())
      ensures old(enableState) != OFF ==> log == old(log)
      ensures old(enableState) == OFF ==> var on := old(log) + [Started] + first.sync;
        && first.sync == [if env.ring(old(offers)) then Sync else SyncLost]
        && first.start == Outcome(env, After(Begin(env), on), Muted(disabledEvents, traceStart), traceStart, [])
        && first.info == Outcome(env, After(Begin(env), on + first.start.events + first.between), Muted(disabledEvents, init), init,
                   EncodeValues([Num(sysFreq), Num(cpuFreq), Num(ramBase), Num(idShift)]))
        && on + first.start.events + first.between + first.info.events <= log
        && (old(recursionCnt) == 1 ==> first.between == [])
      ensures old(enableState) == OFF ==> old(log) + [Started] <= log
      ensures old(recursionCnt) == 1 ==> enableState != OFF
      decreases 1 - recursionCnt, 3
    {
      hide Outcome, Muted, Lawful, After, StreamBytes, Dropped, AllReadable, Sendable, EncodeValues;
      first := First([], Sent(NotAsked, NotAsked, []), [], Sent(NotAsked, NotAsked, []));
      if enableState == OFF {
        ghost var sync := SwitchOn();
        ghost var start := Record(traceStart, []);
        ghost var sofar := old(log) + [Started] + sync + start.events;
        ghost var between := log[|sofar|..];
        assert log == sofar + between;
        FourSendable(schema, init, sysFreq, cpuFreq, ramBase, idShift);
        ghost var info := RecordU32x4(init, sysFreq, cpuFreq, ramBase, idShift);
        first := First(sync, start, between, info);
        ghost var done := log;
        RecordMore();
        PrefixChain(old(log) + [Started], sync, start.events, between, info.events, done, log);
      }
    }

    /** The state change and the sync bytes of a start. */
    method SwitchOn() returns (ghost sync: seq<Event>)
      requires Valid() && enableState == OFF
      modifies this`enableState, this`stream, this`log, this`offers, this`readings
      ensures Valid() && enableState == ON && (old(Clean()) ==> Clean())
      ensures sync == [if env.ring(old(offers)) then Sync else SyncLost] && log == old(log) + [Started] + sync
    {
      hide Lawful, After, StreamBytes, Leb, AllReadable, Sendable;
      enableState := ON;
      Happens(Started);
      assert stream + EventBytes(Started) == stream;
      var bytes := new u8[10](_ => 0);
      var stored := WriteSkip(bytes, 0, 10);
      if stored {
        assert bytes[0..10] == SyncBytes();
        Happens(Sync);
        sync := [Sync];
      } else {
        Happens(SyncLost);
        sync := [SyncLost];
        assert stream + EventBytes(SyncLost) == stream;
      }
    }

    /** The stop packet, whatever a host command does after it, and off. */
    method Stop() returns (ghost sent: Sent, ghost between: seq<Event>)
      requires Valid()
      modifies this`enableState, this`recursionCnt, this`lastTxTimeStamp, this`dropCount, this`stream, this`log, this`offers, this`readings, this`looks
      ensures Valid() && recursionCnt == old(recursionCnt) && old(log) <= log && (old(Clean()) ==> Clean())
      ensures enableState == OFF
      ensures old(enableState) == OFF ==> log == old(log)
      ensures old(enableState) != OFF ==>
        && log == old(log) + sent.events + between + [Stopped]
        && sent == Outcome(env, old(Now()), Muted(disabledEvents, traceStop), traceStop, [])
        && (old(recursionCnt) == 1 ==> between == [])
      decreases 1 - recursionCnt, 3
    {
      hide Outcome, Muted, Lawful, After, StreamBytes, Leb, AllReadable, Sendable, Dropped;
      sent, between := Sent(NotAsked, NotAsked, []), [];
      if enableState != OFF {
        var buf := new u8[RESERVED + QUANTA_U32](_ => 0);
        assert buf[RESERVED..RESERVED] == [];
        sent := SendPacket(buf, RESERVED, RESERVED, traceStop);
        ghost var sofar := old(log) + sent.events;
        between := log[|sofar|..];
        assert log == sofar + between;
        enableState := OFF;
        SameDropped(Now(), Stopped);
        Happens(Stopped);
        assert stream + EventBytes(Stopped) == stream;
      }
    }
  }

  lemma PrefixChain(a: seq<Event>, sync: seq<Event>, start: seq<Event>, between: seq<Event>, info: seq<Event>,
                    done: seq<Event>, log: seq<Event>)
    requires a + sync + start + between + info <= done <= log
    ensures a + sync + start + between + info <= log && a <= log
  {
    var all := a + sync + start + between + info;
    assert all[..|a|] == a;
    assert log[..|all|] == all;
    assert log[..|a|] == all[..|a|];
  }

  /**
   In every reachable state the bytes sent so far tell the host every stored packet
   and its clock reading, as long as its callers kept to the structures it knows.
   */
  lemma StreamTellsTheRun(r: Recorder)
    requires r.Valid() && r.Clean()
    ensures DecodeStream(r.schema, r.stream) == Packets(r.log)
    ensures HostClocks(r.env.clock(0), DecodeStream(r.schema, r.stream)) == Clocks(r.log)
  {
    PacketsReadable(r.schema, r.log);
    HostReadsTheRun(r.schema, r.env, r.log);
  }

  /** In every reachable state DropCount is the number of calls lost, less the droppings that began. */
  lemma DropCountTells(r: Recorder)
    requires r.Valid()
    ensures CountLost(r.log) % 0x1_0000_0000 == (r.dropCount + CountEntries(false, r.log)) % 0x1_0000_0000
    ensures r.enableState == OFF || r.enableState == ON || r.enableState == DROPPING
  {
    LossesBalanced(r.env, Begin(r.env), r.log);
  }

  /**
   In every reachable state each offer to the ring was answered as the ring answers
   it, and each packet stored has the clock that was read for it.
   */
  lemma RunIsTheRings(r: Recorder, i: nat, k: nat)
    requires r.Valid() && i < |r.log| && k < |Answers(r.log)|
    ensures |Answers(r.log)| == r.offers && Answers(r.log)[k] == r.env.ring(k)
    ensures r.log[i].Stored? ==> r.log[i].clock == r.env.clock(1 + Attempts(r.log[..i]))
  {
    hide After, Lawful, Leb;
    OffersCounted(Begin(r.env), r.log);
    RingAnswers(r.env, Begin(r.env), r.log, k);
    if r.log[i].Stored? { ReadForIt(r.env, r.log, i); }
  }

  /** The overflow packet is one the host can read: a single number. */
  lemma OverflowReadable(schema: Schema, count: u32, delta: u32)
    requires schema(OVERFLOW) == [NumKind]
    ensures Readable(schema, Packet(OVERFLOW, Leb(count), delta))
  {
    hide Leb;
    var values := [Num(count)];
    assert values[1..] == [];
    assert EncodeValues(values) == Leb(count) + [];
    ValuesReadable(schema, OVERFLOW, values, delta);
  }
}
