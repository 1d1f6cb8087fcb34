/**
 The terminal multiplexer on RTT channel 0 (SystemView/SEGGER_RTT.c): sixteen
 terminals share one stream, and 0xFF followed by an identifier byte switches
 between them.
 */
module RttDemux {
  import opened Words

  const TERMINALS: nat := 16
  const ESCAPE: u8 := 0xFF

  /** `_aTerminalId`: the characters '0'..'9' and 'A'..'F'. */
  function TerminalId(t: nat): u8
    requires t < TERMINALS
  {
    if t < 10 then 0x30 + t else 0x37 + t
  }

  predicate IsTerminalId(b: u8) { 0x30 <= b <= 0x39 || 0x41 <= b <= 0x46 }

  /** The terminal an identifier byte names. */
  function TerminalOf(b: u8): (t: nat)
    requires IsTerminalId(b)
    ensures t < TERMINALS
  {
    if b < 0x41 then b - 0x30 else b - 0x37
  }

  /** The host's view: the selected terminal, a pending escape, and the text of each terminal. */
  datatype View = View(selected: nat, escaped: bool, logs: seq<seq<u8>>)

  predicate GoodView(v: View) { v.selected < TERMINALS && |v.logs| == TERMINALS }

  function StartView(): View { View(0, false, seq(TERMINALS, _ => [])) }

  function Receive(v: View, b: u8): (r: View)
    requires GoodView(v)
    ensures GoodView(r)
  {
    if v.escaped then v.(escaped := false, selected := if IsTerminalId(b) then TerminalOf(b) else v.selected)
    else if b == ESCAPE then v.(escaped := true)
    else v.(logs := v.logs[v.selected := v.logs[v.selected] + [b]])
  }

  function Demux(v: View, stream: seq<u8>): (r: View)
    requires GoodView(v)
    ensures GoodView(r)
    decreases |stream|
  {
    if stream == [] then v else Demux(Receive(v, stream[0]), stream[1..])
  }

  function Add(logs: seq<seq<u8>>, t: nat, text: seq<u8>): (r: seq<seq<u8>>)
    requires t < |logs|
    ensures |r| == |logs|
  {
    logs[t := logs[t] + text]
  }

  /** Text without escapes: what `SEGGER_RTT_TerminalOut` is given. */
  predicate Plain(text: seq<u8>) { ESCAPE !in text }

  lemma {:induction false} DemuxAppend(v: View, x: seq<u8>, y: seq<u8>)
    requires GoodView(v)
    ensures Demux(v, x + y) == Demux(Demux(v, x), y)
    decreases |x|
  {
    hide Receive;
    if x == [] {
      assert x + y == y;
    } else {
      assert (x + y)[1..] == x[1..] + y;
      DemuxAppend(Receive(v, x[0]), x[1..], y);
    }
  }

  /** Plain text goes to the selected terminal, whole and in order. */
  lemma {:induction false} DemuxPlain(v: View, text: seq<u8>)
    requires GoodView(v) && !v.escaped && Plain(text)
    ensures Demux(v, text) == v.(logs := Add(v.logs, v.selected, text))
    decreases |text|
  {
    if text == [] {
      assert v.logs[v.selected] + text == v.logs[v.selected];
    } else {
      var v1 := Receive(v, text[0]);
      assert text[0] in text && forall b <- text[1..] :: b in text;
      DemuxPlain(v1, text[1..]);
      assert v.logs[v.selected] + [text[0]] + text[1..] == v.logs[v.selected] + text;
    }
  }

  // ---------------------------------------------------------------------
  // Text with escapes in it, and streams taken only in part
  // ---------------------------------------------------------------------

  function Weight(logs: seq<seq<u8>>): nat {
    if logs == [] then 0 else |logs[0]| + Weight(logs[1..])
  }

  lemma {:induction false} WeightAdd(logs: seq<seq<u8>>, t: nat, text: seq<u8>)
    requires t < |logs|
    ensures Weight(Add(logs, t, text)) == Weight(logs) + |text|
  {
    if t == 0 {
      assert Add(logs, 0, text)[1..] == logs[1..];
    } else {
      WeightAdd(logs[1..], t - 1, text);
      assert Add(logs, t, text)[1..] == Add(logs[1..], t - 1, text);
    }
  }

  lemma PlainPrefix(text: seq<u8>, n: nat)
    requires n <= |text| && Plain(text)
    ensures Plain(text[..n])
  {
  }

  /** No byte shows twice, and escapes never show. */
  lemma {:induction false} DemuxWeight(v: View, s: seq<u8>)
    requires GoodView(v)
    ensures Weight(Demux(v, s).logs) <= Weight(v.logs) + |s|
    ensures !Plain(s) ==> Weight(Demux(v, s).logs) < Weight(v.logs) + |s|
    decreases |s|
  {
    if s != [] {
      var w := Receive(v, s[0]);
      WeightAdd(v.logs, v.selected, [s[0]]);
      hide Receive;
      DemuxWeight(w, s[1..]);
      assert Plain(s[1..]) && s[0] != ESCAPE ==> Plain(s);
    }
  }

  /** Text reaches its terminal whole exactly if it has no escape in it. */
  lemma PlainExact(v: View, text: seq<u8>)
    requires GoodView(v) && !v.escaped
    ensures Demux(v, text) == v.(logs := Add(v.logs, v.selected, text)) <==> Plain(text)
  {
    if Plain(text) {
      DemuxPlain(v, text);
    } else {
      DemuxWeight(v, text);
      WeightAdd(v.logs, v.selected, text);
    }
  }

  /** What the terminals show only ever grows. */
  lemma {:induction false} DemuxGrows(v: View, s: seq<u8>)
    requires GoodView(v)
    ensures forall t :: 0 <= t < TERMINALS ==> v.logs[t] <= Demux(v, s).logs[t]
    decreases |s|
  {
    if s != [] {
      var w := Receive(v, s[0]);
      assert forall t :: 0 <= t < TERMINALS ==> v.logs[t] <= w.logs[t];
      hide Receive;
      DemuxGrows(w, s[1..]);
    }
  }

  /** A host that has taken part of a stream shows a beginning of every terminal's text. */
  lemma DemuxPart(v: View, part: seq<u8>, whole: seq<u8>)
    requires GoodView(v) && part <= whole
    ensures forall t :: 0 <= t < TERMINALS ==> Demux(v, part).logs[t] <= Demux(v, whole).logs[t]
  {
    var rest := whole[|part|..];
    assert whole == part + rest;
    DemuxAppend(v, part, rest);
    DemuxGrows(Demux(v, part), rest);
  }

  function Switch(t: nat): seq<u8>
    requires t < TERMINALS
  {
    [ESCAPE, TerminalId(t)]
  }

  /** A switch selects its terminal and nothing else. */
  lemma DemuxSwitch(v: View, t: nat)
    requires GoodView(v) && !v.escaped && t < TERMINALS
    ensures Demux(v, Switch(t)) == v.(selected := t)
  {
    var s := Switch(t);
    assert s[1..] == [TerminalId(t)] && s[1..][1..] == [];
    var v1 := Receive(v, s[0]);
    assert Demux(v1, s[1..]) == Demux(Receive(v1, s[1..][0]), s[1..][1..]);
  }

  /** 0xFF, and the character of the terminal. */
  lemma SwitchBytes(t: nat)
    requires t < 16
    ensures TERMINALS == 16 && Switch(t) == [0xFF, "0123456789ABCDEF"[t] as int]
  {
  }

  /** The bytes of one `SEGGER_RTT_TerminalOut`: out, the text, and back. */
  function Excursion(t: nat, text: seq<u8>, back: nat): seq<u8>
    requires t < TERMINALS && back < TERMINALS
  {
    Switch(t) + text + Switch(back)
  }

  lemma ExcursionParts(was: seq<u8>, t: nat, text: seq<u8>, back: nat)
    requires t < TERMINALS && back < TERMINALS
    ensures was + Excursion(t, text, back) == was + Switch(t) + text + Switch(back)
  {
  }

  lemma SwitchLength(t: nat)
    requires t < TERMINALS
    ensures |Switch(t)| == 2
  {
  }

  /** An excursion adds the text to its terminal and returns to the active one. */
  lemma DemuxExcursion(v: View, t: nat, text: seq<u8>)
    requires GoodView(v) && !v.escaped && t < TERMINALS && Plain(text)
    ensures Demux(v, Excursion(t, text, v.selected)) == v.(logs := Add(v.logs, t, text))
  {
    DemuxAppend(v, Switch(t) + text, Switch(v.selected));
    DemuxAppend(v, Switch(t), text);
    DemuxSwitch(v, t);
    var v1 := v.(selected := t);
    DemuxPlain(v1, text);
    DemuxSwitch(v1.(logs := Add(v.logs, t, text)), v.selected);
  }
}

module RttTerminal {
  import opened Words
  import opened Rings
  import opened RttContents
  import opened RttRing
  import opened RttDemux

  /** Channel 0 and `_ActiveTerminal`. */
  class Channel {
    const ring: Ring
    const mode: Mode
    var active: nat
    /** The text each terminal has been given so far. */
    ghost var logs: seq<seq<u8>>

    ghost predicate Ready()
      reads this, ring, ring.buf
    {
      ring.Valid() && active < TERMINALS && |logs| == TERMINALS
    }

    /** Demultiplexing everything accepted gives each terminal its text and selects the active one. */
    ghost predicate Demuxed()
      reads this, ring
    {
      Demux(StartView(), ring.accepted) == View(active, false, logs)
    }

    constructor (size: nat, mode: Mode)
      requires 0 < size < 0x1_0000_0000
      ensures Ready() && Demuxed() && fresh(ring) && fresh(ring.buf)
      ensures ring.buf.Length == size && ring.accepted == [] && this.mode == mode && active == 0
    {
      ring := new Ring(size);
      this.mode := mode;
      active := 0;
      logs := seq(TERMINALS, _ => []);
    }

    /** `SEGGER_RTT_SetTerminal`; `done` is false when a blocking write was cut off. */
    method SetTerminal(id: u8, rounds: nat, eager: bool := false) returns (r: int, done: bool)
      requires Ready() && rounds >= 2
      modifies this`active, ring`wrOff, ring`rdOff, ring`accepted, ring`taken, ring.buf
      ensures Ready() && logs == old(logs)
      ensures done && old(Demuxed()) ==> Demuxed()
      ensures mode != Block || old(ring.Room()) >= 2 || (eager && ring.buf.Length > 1) ==> done
      ensures r == (if id < TERMINALS && (mode == Block || old(ring.Room()) >= 2) then 0 else -1)
      ensures active == if r == 0 then id else old(active)
      ensures done ==> ring.accepted == old(ring.accepted) + if r == 0 then Switch(id) else []
    {
      hide Demux, Switch;
      r, done := 0, true;
      assert ring.accepted + [] == ring.accepted;
      if id < TERMINALS {
        var ac := Switch(id);
        SwitchLength(id);
        ghost var v := View(active, false, logs);
        DemuxAppend(StartView(), ring.accepted, ac);
        DemuxSwitch(v, id);
        if mode == Block {
          active := id;
          var n;
          n, done := ring.WriteBlocking(ac, rounds, eager);
          assert done ==> ac[..n] == ac;
        } else {
          var avail := ring.GetAvailWriteSpace();
          if avail >= 2 {
            active := id;
            ring.WriteNoCheck(ac);
          } else {
            r := -1;
          }
        }
      } else {
        r := -1;
      }
    }

    /** Switch to `t`, write `text`, switch back: three blocking writes. */
    method Visit(t: nat, text: seq<u8>, rounds: nat, eager: bool) returns (written: nat, done: bool)
      requires Ready() && t < TERMINALS && rounds >= 2
      modifies this`logs, ring`wrOff, ring`rdOff, ring`accepted, ring`taken, ring.buf
      ensures Ready()
      ensures |text| + 4 <= old(ring.Room()) || (eager && ring.buf.Length > 1 && rounds >= |text|) ==> done
      ensures old(ring.accepted) <= ring.accepted <= old(ring.accepted) + Switch(t) + text + Switch(active)
      ensures !done ==> logs == old(logs)
      ensures done ==> written == |text| && logs == Add(old(logs), t, text)
      ensures done && Plain(text) && old(Demuxed()) ==> Demuxed()
      ensures done ==> ring.accepted == old(ring.accepted) + Switch(t) + text + Switch(active)
    {
      hide Demux, Switch, Excursion, Add, Plain;
      ghost var was := ring.accepted;
      DemuxAppend(StartView(), was, Excursion(t, text, active));
      if Plain(text) { DemuxExcursion(View(active, false, logs), t, text); }
      ExcursionParts(was, t, text, active);
      written, done := VisitBytes(t, text, rounds, eager);
      if done { logs := Add(logs, t, text); }
    }

    /** The bytes of it. */
    method VisitBytes(t: nat, text: seq<u8>, rounds: nat, eager: bool) returns (written: nat, done: bool)
      requires Ready() && t < TERMINALS && rounds >= 2
      modifies ring`wrOff, ring`rdOff, ring`accepted, ring`taken, ring.buf
      ensures Ready()
      ensures |text| + 4 <= old(ring.Room()) || (eager && ring.buf.Length > 1 && rounds >= |text|) ==> done
      ensures old(ring.accepted) <= ring.accepted <= old(ring.accepted) + Switch(t) + text + Switch(active)
      ensures done ==> written == |text| && ring.accepted == old(ring.accepted) + Switch(t) + text + Switch(active)
    {
      hide Switch;
      SwitchLength(t);
      SwitchLength(active);
      written := 0;
      done := Send(Switch(t), rounds, eager);
      if done {
        written := |text|;
        done := Send(text, rounds, eager);
        if done {
          done := Send(Switch(active), rounds, eager);
        }
      }
    }

    /** `_WriteBlocking`, finished or cut off. */
    method Send(data: seq<u8>, rounds: nat, eager: bool) returns (done: bool)
      requires Ready() && rounds >= 2
      modifies ring`wrOff, ring`rdOff, ring`accepted, ring`taken, ring.buf
      ensures Ready() && (|data| <= old(ring.Room()) ==> done && ring.Room() >= old(ring.Room()) - |data|)
      ensures eager && ring.buf.Length > 1 && rounds >= |data| ==> done
      ensures done ==> ring.accepted == old(ring.accepted) + data
      ensures old(ring.accepted) <= ring.accepted <= old(ring.accepted) + data
    {
      var n;
      n, done := ring.WriteBlocking(data, rounds, eager);
      assert data[..|data|] == data;
    }

    /**
     `SEGGER_RTT_TerminalOut`: the whole excursion goes into the stream or nothing
     does, and outside blocking mode it never waits for the host. With an escape in
     the text the stream is the same, but the host would see a switch in it.
     */
    method TerminalOut(id: u8, text: seq<u8>, rounds: nat, eager: bool := false) returns (status: int, done: bool)
      requires Ready() && rounds >= 2
      modifies this`logs, ring`wrOff, ring`rdOff, ring`accepted, ring`taken, ring.buf
      ensures Ready()
      ensures mode != Block || id >= TERMINALS || |text| + 4 <= old(ring.Room()) ==> done
      ensures eager && ring.buf.Length > 1 && rounds >= |text| ==> done
      ensures done && Plain(text) && old(Demuxed()) ==> Demuxed()
      ensures id >= TERMINALS || mode == OtherMode ==> status == -1
      ensures id < TERMINALS && mode == Skip ==> status == if old(ring.Room()) >= |text| + 4 then |text| else 0
      ensures id < TERMINALS && mode == Trim ==> status == if old(ring.Room()) >= 4 then Min(|text|, old(ring.Room()) - 4) else -1
      ensures id < TERMINALS && mode == Block && done ==> status == |text|
      ensures done && id < TERMINALS && ((mode == Skip && old(ring.Room()) >= |text| + 4)
                                         || (mode == Trim && old(ring.Room()) >= 4) || mode == Block) ==>
        && 0 <= status <= |text| && logs == Add(old(logs), id, text[..status])
        && ring.accepted == old(ring.accepted) + Switch(id) + text[..status] + Switch(active)
      ensures (id >= TERMINALS || mode == OtherMode || (mode == Skip && old(ring.Room()) < |text| + 4)
               || (mode == Trim && old(ring.Room()) < 4)) ==>
        logs == old(logs) && ring.accepted == old(ring.accepted)
    {
      hide Demux, Switch, Excursion, Add, Plain;
      assert text[..|text|] == text;
      done := true;
      if id < TERMINALS {
        var avail := ring.GetAvailWriteSpace();
        match mode
        case Skip =>
          if avail < |text| + 4 {
            status := 0;
          } else {
            status, done := Visit(id, text, rounds, eager);
          }
        case Trim =>
          if avail < 4 {
            status := -1;
          } else {
            var n := if |text| < avail - 4 then |text| else avail - 4;
            if Plain(text) { PlainPrefix(text, n); }
            status, done := Visit(id, text[..n], rounds, eager);
          }
        case Block =>
          status, done := Visit(id, text, rounds, eager);
        case OtherMode =>
          status := -1;
      } else {
        status := -1;
      }
    }

    /** `SEGGER_RTT_WriteNoLock` on channel 0: what is accepted belongs to the active terminal. */
    method Write(text: seq<u8>, rounds: nat, eager: bool := false) returns (status: nat, done: bool)
      requires Ready()
      modifies this`logs, ring`wrOff, ring`rdOff, ring`accepted, ring`taken, ring.buf
      ensures Ready() && status <= |text|
      ensures ring.accepted == old(ring.accepted) + text[..status]
      ensures logs == Add(old(logs), active, text[..status])
      ensures mode == Skip ==> status == if |text| <= old(ring.Room()) then |text| else 0
      ensures mode == Trim ==> status == Min(|text|, old(ring.Room()))
      ensures mode == Block && done ==> status == |text|
      ensures mode == OtherMode ==> status == 0
      ensures rounds >= 2 && |text| <= old(ring.Room()) ==> done
      ensures eager && ring.buf.Length > 1 && rounds > 0 && rounds >= |text| ==> done
      ensures Plain(text) && old(Demuxed()) ==> Demuxed()
      ensures mode != Block ==> done
    {
      status, done := ring.WriteNoLock(mode, text, rounds, eager);
      ghost var part := text[..status];
      assert part <= text && (Plain(text) ==> Plain(part));
      DemuxAppend(StartView(), old(ring.accepted), part);
      if Plain(part) { DemuxPlain(View(active, false, logs), part); }
      logs := Add(logs, active, part);
    }

    /**
     Any history of calls with plain text and host reads, up to a blocking write
     that was cut off: the host has received a prefix of the stream, and the stream
     of finished calls demultiplexes to what the calls put in, call by call. What the
     host shows by then is a beginning of it, terminal by terminal.
     */
    method History(calls: seq<Call>, rounds: nat, eager: bool := false) returns (done: bool, ghost outcomes: seq<Outcome>)
      requires Ready() && Demuxed() && rounds >= 2
      requires forall c <- calls :: Plain(c.Text())
      modifies this, ring, ring.buf
      ensures Ready() && ring.taken <= ring.accepted
      ensures mode != Block ==> done
      ensures eager && ring.buf.Length > 1 && (forall c <- calls :: rounds >= |c.Text()|) ==> done
      ensures done ==> |outcomes| == |calls| && Possible(mode, calls, outcomes) && Demuxed()
      ensures done ==> forall t :: 0 <= t < TERMINALS ==> Demux(StartView(), ring.taken).logs[t] <= logs[t]
      ensures done ==> (active, logs) == Replay(old(active), old(logs), calls, outcomes)
    {
      hide Demux, Decided, Effect, Plain, Told;
      var i := 0;
      done, outcomes := true, [];
      ghost var a, l := active, logs;
      ghost var enough := eager && ring.buf.Length > 1 && forall c <- calls :: rounds >= |c.Text()|;
      assert calls[..0] == [];
      NoCalls(mode, active, logs);
      while i < |calls| && done
        invariant 0 <= i <= |calls| && Ready() && (mode != Block || enough ==> done)
        invariant done ==> Told(mode, a, l, calls[..i], outcomes, active, logs) && Demuxed()
      {
        ghost var o;
        ghost var a', l' := active, logs;
        var c := calls[i];
        assert c in calls;
        done, o := Perform(c, rounds, eager);
        if done {
          assert calls[..i + 1] == calls[..i] + [c];
          ToldNext(mode, a, l, calls[..i], outcomes, a', l', c, o);
          outcomes := outcomes + [o];
        }
        i := i + 1;
      }
      assert calls[..|calls|] == calls;
      DemuxPart(StartView(), ring.taken, ring.accepted);
      assert done ==> Told(mode, a, l, calls, outcomes, active, logs);
      ToldMeans(mode, a, l, calls, outcomes, active, logs);
    }

    method Perform(c: Call, rounds: nat, eager: bool) returns (done: bool, ghost o: Outcome)
      requires Ready() && Demuxed() && rounds >= 2 && Plain(c.Text())
      modifies this, ring, ring.buf
      ensures Ready() && (mode != Block ==> done)
      ensures eager && ring.buf.Length > 1 && rounds >= |c.Text()| ==> done
      ensures done ==> Demuxed() && o == Decided(mode, c, old(ring.Room())) && (active, logs) == Effect(old(active), old(logs), c, o)
    {
      hide Demux;
      var status: int;
      o := Decided(mode, c, ring.Room());
      assert c.Text()[..|c.Text()|] == c.Text();
      match c
      case Set(id) =>
        status, done := SetTerminal(id, rounds, eager);
      case Out(id, text) =>
        status, done := TerminalOut(id, text, rounds, eager);
      case Put(text) =>
        status, done := Write(text, rounds, eager);
      case HostTurn =>
        ring.HostReads();
        done := true;
    }
  }

  datatype Call = Set(id: u8) | Out(id: u8, text: seq<u8>) | Put(text: seq<u8>) | HostTurn {
    function Text(): seq<u8> { if Out? || Put? then text else [] }
  }

  /** What `SEGGER_RTT_TerminalOut` lets through of `text` when `room` bytes are free. */
  function Allowed(mode: Mode, room: nat, text: seq<u8>): seq<u8> {
    match mode
    case Skip => if room < |text| + 4 then [] else text
    case Trim => if room < 4 then [] else text[..Min(|text|, room - 4)]
    case Block => text
    case OtherMode => []
  }

  /** Whether it switches terminals at all. */
  predicate Visits(mode: Mode, room: nat, text: seq<u8>) {
    match mode
    case Skip => room >= |text| + 4
    case Trim => room >= 4
    case Block => true
    case OtherMode => false
  }

  /** What `SEGGER_RTT_WriteNoLock` takes of `text`. */
  function Accepted(mode: Mode, room: nat, text: seq<u8>): seq<u8> {
    match mode
    case Skip => if room < |text| then [] else text
    case Trim => text[..Min(|text|, room)]
    case Block => text
    case OtherMode => []
  }

  /** Whether a call took effect, and the part of its text that was accepted, when `room` bytes were free. */
  datatype Outcome = Outcome(ok: bool, text: seq<u8>, room: nat)

  /** Mode and room decide what becomes of a call. */
  function Decided(mode: Mode, c: Call, room: nat): (o: Outcome)
    ensures c.Set? && o.ok ==> c.id < TERMINALS
    ensures o.room == room
    ensures mode == Skip && (c.Out? || c.Put?) ==> o.text == c.text || o.text == []
  {
    match c
    case Set(id) => Outcome(id < TERMINALS && (mode == Block || room >= 2), [], room)
    case Out(id, text) =>
      var ok := id < TERMINALS && Visits(mode, room, text);
      Outcome(ok, if ok then Allowed(mode, room, text) else [], room)
    case Put(text) => Outcome(true, Accepted(mode, room, text), room)
    case HostTurn => Outcome(true, [], room)
  }

  /** What one finished call does to the active terminal and to the terminals' texts. */
  function Effect(active: nat, logs: seq<seq<u8>>, c: Call, o: Outcome): (r: (nat, seq<seq<u8>>))
    requires active < TERMINALS && |logs| == TERMINALS
    ensures r.0 < TERMINALS && |r.1| == TERMINALS
  {
    match c
    case Set(id) => (if o.ok && id < TERMINALS then id else active, logs)
    case Out(id, _) => (active, if o.ok && id < TERMINALS then Add(logs, id, o.text) else logs)
    case Put(_) => (active, Add(logs, active, o.text))
    case HostTurn => (active, logs)
  }

  /** Every outcome is the one that mode and room decide. */
  predicate Possible(mode: Mode, calls: seq<Call>, outcomes: seq<Outcome>)
    requires |calls| == |outcomes|
  {
    forall i :: 0 <= i < |calls| ==> outcomes[i] == Decided(mode, calls[i], outcomes[i].room)
  }

  function Replay(active: nat, logs: seq<seq<u8>>, calls: seq<Call>, outcomes: seq<Outcome>): (r: (nat, seq<seq<u8>>))
    requires active < TERMINALS && |logs| == TERMINALS
    requires |calls| == |outcomes|
    ensures r.0 < TERMINALS && |r.1| == TERMINALS
    decreases |calls|
  {
    if calls == [] then (active, logs)
    else
      var (a, l) := Effect(active, logs, calls[0], outcomes[0]);
      Replay(a, l, calls[1..], outcomes[1..])
  }

  /** The calls and their outcomes lead from `active` and `logs` to `active'` and `logs'`. */
  predicate Told(mode: Mode, active: nat, logs: seq<seq<u8>>, calls: seq<Call>, outcomes: seq<Outcome>,
                 active': nat, logs': seq<seq<u8>>)
  {
    && active < TERMINALS && |logs| == TERMINALS && |calls| == |outcomes|
    && Possible(mode, calls, outcomes) && (active', logs') == Replay(active, logs, calls, outcomes)
  }

  lemma ToldMeans(mode: Mode, active: nat, logs: seq<seq<u8>>, calls: seq<Call>, outcomes: seq<Outcome>,
                  active': nat, logs': seq<seq<u8>>)
    ensures Told(mode, active, logs, calls, outcomes, active', logs') ==>
      && active < TERMINALS && |logs| == TERMINALS && |calls| == |outcomes|
      && Possible(mode, calls, outcomes) && (active', logs') == Replay(active, logs, calls, outcomes)
  {
  }

  lemma NoCalls(mode: Mode, active: nat, logs: seq<seq<u8>>)
    requires active < TERMINALS && |logs| == TERMINALS
    ensures Told(mode, active, logs, [], [], active, logs)
  {
  }

  lemma ToldNext(mode: Mode, active: nat, logs: seq<seq<u8>>, calls: seq<Call>, outcomes: seq<Outcome>,
                 active': nat, logs': seq<seq<u8>>, c: Call, o: Outcome)
    requires Told(mode, active, logs, calls, outcomes, active', logs') && o == Decided(mode, c, o.room)
    requires active' < TERMINALS && |logs'| == TERMINALS
    ensures var (a, l) := Effect(active', logs', c, o); Told(mode, active, logs, calls + [c], outcomes + [o], a, l)
  {
    hide Decided, Effect, Replay;
    ReplaySnoc(mode, active, logs, calls, outcomes, c, o);
  }

  lemma {:induction false} ReplaySnoc(mode: Mode, active: nat, logs: seq<seq<u8>>, calls: seq<Call>, outcomes: seq<Outcome>,
                                      c: Call, o: Outcome)
    requires active < TERMINALS && |logs| == TERMINALS
    requires |calls| == |outcomes| && Possible(mode, calls, outcomes) && o == Decided(mode, c, o.room)
    ensures Possible(mode, calls + [c], outcomes + [o])
    ensures var (a, l) := Replay(active, logs, calls, outcomes);
      Replay(active, logs, calls + [c], outcomes + [o]) == Effect(a, l, c, o)
    decreases |calls|
  {
    var cs, os := calls + [c], outcomes + [o];
    if calls == [] {
      assert cs[1..] == [] && os[1..] == [];
    } else {
      assert cs[1..] == calls[1..] + [c] && os[1..] == outcomes[1..] + [o];
      var (a, l) := Effect(active, logs, calls[0], outcomes[0]);
      ReplaySnoc(mode, a, l, calls[1..], outcomes[1..], c, o);
    }
  }
}
