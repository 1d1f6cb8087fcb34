/**
 The table of outstanding AT requests (XBee/xbee_atcmd.c) as values: slots, the
 handles that name them, and what a history of releases does to handles.
 */
module AtSlots {
  import opened Words

  /** `xbee_dev_t`, as far as requests use it. */
  class Device {
    var frameId: u8

    constructor () { frameId := 0; }

    /** `xbee_next_frame_id`: 1 to 255 and then 1 again. */
    method NextFrameId() returns (id: u8)
      modifies this
      ensures id == frameId == NextId(old(frameId)) == if old(frameId) == 255 then 1 else old(frameId) + 1
    {
      frameId := (frameId + 1) % 0x100;
      if frameId == 0 { frameId := 1; }
      id := frameId;
    }
  }

  function NextId(id: u8): (r: u8)
    ensures r > 0
  {
    if id == 255 then 1 else id + 1
  }

  /** The id `k` calls later. */
  function IdAfter(id: u8, k: nat): u8 {
    if k == 0 then id else NextId(IdAfter(id, k - 1))
  }

  /** Frame ids run through 1 to 255 in a circle, so none comes back before 255 more. */
  lemma {:induction false} IdsCycle(id: u8, k: nat)
    requires id > 0
    ensures IdAfter(id, k) == (id - 1 + k) % 255 + 1
    ensures IdAfter(id, k) == id <==> k % 255 == 0
    decreases k
  {
    if k > 0 {
      IdsCycle(id, k - 1);
      NextInCircle(id - 1 + (k - 1));
    }
    SameInCircle(id, k);
  }

  lemma NextInCircle(x: nat)
    ensures (x + 1) % 255 == if x % 255 == 254 then 0 else x % 255 + 1
  {
  }

  lemma SameInCircle(id: u8, k: nat)
    requires id > 0
    ensures (id - 1 + k) % 255 + 1 == id <==> k % 255 == 0
  {
  }

  /** The seconds timer at one moment: its value, which timeouts are over, and the timeout a number of seconds away. */
  datatype Time = Time(seconds: u32, due: u32 -> bool, after: nat -> u32)

  /** The serially attached module, or a remote one. */
  datatype Target = Local | Remote(ieee: nat, network: u16)

  /** One entry of the request table; free if it has no device. */
  datatype Slot = Slot(device: Device?, sequence: u8, timeout: u32, frameId: u8, command: u16, target: Target,
                       queue: bool, reuseHandle: bool, callback: bool, context: nat)
  {
    predicate Live() { device != null }
  }

  function Zeroed(): Slot { Slot(null, 0, 0, 0, 0, Local, false, false, false, 0) }

  function Freed(s: Slot): Slot { s.(device := null, sequence := (s.sequence + 1) % 0x100) }

  /** A new request keeps nothing of the slot but its sequence number. */
  function Fresh(s: Slot, device: Device, command: u16, now: Time): Slot {
    Slot(device, s.sequence, now.after(2), 0, command, Local, false, false, false, 0)
  }

  function Handle(index: nat, sequence: u8): (h: nat) { index * 0x100 + sequence }

  datatype Found = Missing | At(index: nat)

  /** `_xbee_cmd_handle_to_address` */
  function Resolve(slots: seq<Slot>, handle: int): (f: Found)
    ensures f.At? ==> f.index < |slots|
  {
    if handle < 0 || handle >= |slots| * 0x100 then Missing
    else if slots[handle / 0x100].sequence != handle % 0x100 then Missing
    else At(handle / 0x100)
  }

  /** The high byte of a handle is its slot, the low byte the slot's sequence number. */
  lemma ResolveIs(slots: seq<Slot>, handle: int, i: nat)
    ensures Resolve(slots, handle) == At(i)
      <==> 0 <= handle && i == handle / 0x100 < |slots| && slots[i].sequence == handle % 0x100
  {
  }

  // ---------------------------------------------------------------------
  // Handles over a run
  // ---------------------------------------------------------------------

  /** A handle that was given out: its slot, and how often that had been released by then. */
  datatype Issue = Issue(index: nat, born: nat) {
    function GetHandle(): nat { Handle(index, born % 0x100) }
  }

  /** What every run keeps between the slots and its history. */
  ghost predicate Consistent(slots: seq<Slot>, releases: seq<nat>, issued: seq<Issue>) {
    && |releases| == |slots|
    && (forall i :: 0 <= i < |slots| ==> slots[i].sequence == releases[i] % 0x100)
    && (forall k :: 0 <= k < |issued| ==> issued[k].index < |slots| && issued[k].born <= releases[issued[k].index])
    && (forall i :: 0 <= i < |slots| && slots[i].Live() ==> Issue(i, releases[i]) in issued)
    && (forall i :: 0 <= i < |slots| && !slots[i].Live() ==> Issue(i, releases[i]) !in issued)
    && (forall j, k :: 0 <= j < k < |issued| && issued[j].index == issued[k].index ==> issued[j].born < issued[k].born)
  }

  lemma HandleParts(index: nat, sequence: u8)
    ensures Handle(index, sequence) / 0x100 == index && Handle(index, sequence) % 0x100 == sequence
  {
  }

  /** Two releases counts look alike in eight bits exactly if they differ by a multiple of 256. */
  lemma SameSequence(a: nat, b: nat)
    ensures a % 0x100 == b % 0x100 <==> (b - a) % 0x100 == 0
  {
  }

  /** A handle resolves to its own slot or to nothing, and to the slot exactly after a multiple of 256 releases. */
  lemma ResolvesExactly(slots: seq<Slot>, releases: seq<nat>, issued: seq<Issue>, k: nat)
    requires Consistent(slots, releases, issued) && k < |issued|
    ensures var e := issued[k];
      Resolve(slots, e.GetHandle()) == if (releases[e.index] - e.born) % 0x100 == 0 then At(e.index) else Missing
  {
    var e := issued[k];
    HandleParts(e.index, e.born % 0x100);
    SameSequence(e.born, releases[e.index]);
  }

  /** `f` is what the history of every request that was given `handle` says of it. */
  ghost predicate Follows(f: Found, releases: seq<nat>, issued: seq<Issue>, handle: int) {
    forall k :: 0 <= k < |issued| && issued[k].GetHandle() == handle ==>
      && issued[k].index < |releases|
      && f == if (releases[issued[k].index] - issued[k].born) % 0x100 == 0 then At(issued[k].index) else Missing
  }

  lemma ResolvesAll(slots: seq<Slot>, releases: seq<nat>, issued: seq<Issue>, handle: int)
    requires Consistent(slots, releases, issued)
    ensures Follows(Resolve(slots, handle), releases, issued, handle)
  {
    forall k | 0 <= k < |issued| && issued[k].GetHandle() == handle
      ensures issued[k].index < |releases|
      ensures Resolve(slots, handle) == if (releases[issued[k].index] - issued[k].born) % 0x100 == 0 then At(issued[k].index) else Missing
    {
      ResolvesExactly(slots, releases, issued, k);
    }
  }

  /** So it resolves until its slot is released, and then not before the 256th release. */
  lemma ResolvesUntilReleased(slots: seq<Slot>, releases: seq<nat>, issued: seq<Issue>, k: nat)
    requires Consistent(slots, releases, issued) && k < |issued|
    ensures var e := issued[k]; var since := releases[e.index] - e.born;
      && (since == 0 ==> Resolve(slots, e.GetHandle()) == At(e.index))
      && (0 < since < 256 ==> Resolve(slots, e.GetHandle()) == Missing)
      && (since == 256 ==> Resolve(slots, e.GetHandle()) == At(e.index))
  {
    ResolvesExactly(slots, releases, issued, k);
  }

  /** The request that was given out as `e` is still in its slot. */
  predicate Holds(slots: seq<Slot>, releases: seq<nat>, e: Issue)
    requires |slots| == |releases| && e.index < |slots|
  {
    slots[e.index].Live() && releases[e.index] == e.born
  }

  /**
   A handle is looked up without asking for its request: it names a slot that does
   not hold that request exactly after 256 releases, or a further multiple, and that
   slot is then free exactly if no request was made in it since the last of them.
   */
  lemma HandleMisleads(slots: seq<Slot>, releases: seq<nat>, issued: seq<Issue>, k: nat)
    requires Consistent(slots, releases, issued) && k < |issued|
    ensures var e := issued[k]; var since := releases[e.index] - e.born;
      && (Holds(slots, releases, e) <==> since == 0)
      && (Resolve(slots, e.GetHandle()).At? && !Holds(slots, releases, e) <==> since > 0 && since % 0x100 == 0)
      && (!slots[e.index].Live() <==> Issue(e.index, releases[e.index]) !in issued)
  {
    var e := issued[k];
    ResolvesExactly(slots, releases, issued, k);
    assert e == Issue(e.index, e.born) && e in issued;
  }

  /** Two requests ever made share a handle only if they had the same slot, a multiple of 256 releases apart. */
  lemma HandlesRepeatRarely(slots: seq<Slot>, releases: seq<nat>, issued: seq<Issue>, j: nat, k: nat)
    requires Consistent(slots, releases, issued) && j < k < |issued|
    ensures issued[j].GetHandle() == issued[k].GetHandle()
      <==> issued[j].index == issued[k].index && (issued[k].born - issued[j].born) % 0x100 == 0
    ensures issued[j].GetHandle() == issued[k].GetHandle() ==> issued[k].born - issued[j].born >= 256
  {
    var d, e := issued[j], issued[k];
    HandleParts(d.index, d.born % 0x100);
    HandleParts(e.index, e.born % 0x100);
    SameSequence(d.born, e.born);
  }

  /** No two live requests share a handle, and each one's handle finds it. */
  lemma LiveHandlesDistinct(slots: seq<Slot>, releases: seq<nat>, issued: seq<Issue>, i: nat, j: nat)
    requires Consistent(slots, releases, issued) && i < |slots| && j < |slots| && slots[i].Live() && slots[j].Live()
    ensures Handle(i, slots[i].sequence) == Handle(j, slots[j].sequence) ==> i == j
    ensures Resolve(slots, Handle(i, slots[i].sequence)) == At(i)
    ensures Issue(i, releases[i]) in issued && Issue(i, releases[i]).GetHandle() == Handle(i, slots[i].sequence)
  {
    HandleParts(i, slots[i].sequence);
    HandleParts(j, slots[j].sequence);
  }

  lemma KeepOnRelease(slots: seq<Slot>, releases: seq<nat>, issued: seq<Issue>, i: nat)
    requires Consistent(slots, releases, issued) && i < |slots|
    ensures Consistent(slots[i := Freed(slots[i])], releases[i := releases[i] + 1], issued)
  {
    var r, s := releases[i := releases[i] + 1], slots[i := Freed(slots[i])];
    NextSequence(releases[i]);
    assert s[i].sequence == r[i] % 0x100 && !s[i].Live();
    hide Freed;
    forall k | 0 <= k < |issued| ensures issued[k].born <= r[issued[k].index] && issued[k] != Issue(i, r[i]) {
    }
    forall j | 0 <= j < |s| && s[j].Live() ensures Issue(j, r[j]) in issued {
    }
  }

  /** A slot keeps its sequence number and its request, if it had one, or was released once. */
  predicate SlotStep(before: Slot, after: Slot) {
    || (after.sequence == before.sequence && (before.Live() ==> after.device == before.device))
    || after.sequence == (before.sequence + 1) % 0x100
  }

  /** The counters say exactly which slots were released, each once at most. */
  ghost predicate Counts(before: seq<Slot>, after: seq<Slot>, releases: seq<nat>, releases': seq<nat>) {
    && |before| == |after| == |releases| == |releases'|
    && forall i :: 0 <= i < |before| ==>
      && SlotStep(before[i], after[i])
      && releases'[i] == releases[i] + (if before[i].sequence == after[i].sequence then 0 else 1)
  }

  lemma CountNone(before: seq<Slot>, after: seq<Slot>, releases: seq<nat>)
    requires |before| == |after| == |releases|
    requires forall i :: 0 <= i < |before| ==> before[i].sequence == after[i].sequence && before[i].device == after[i].device
    ensures Counts(before, after, releases, releases)
  {
  }

  /** One more slot released, or not, that had not been before. */
  lemma CountOne(before: seq<Slot>, mid: seq<Slot>, after: seq<Slot>, r: seq<nat>, s: seq<nat>, i: nat)
    requires Counts(before, mid, r, s) && i < |mid| && mid[i].sequence == before[i].sequence
    requires |after| == |mid| && after == mid[i := after[i]]
    ensures after[i] == mid[i] ==> Counts(before, after, r, s)
    ensures after[i].sequence == (mid[i].sequence + 1) % 0x100 ==> Counts(before, after, r, s[i := s[i] + 1])
  {
  }

  /** Releasing a slot that nothing else has happened to but changes in place. */
  lemma CountRelease(before: seq<Slot>, mid: seq<Slot>, releases: seq<nat>, i: nat)
    requires |before| == |mid| == |releases| && i < |mid|
    requires forall j :: 0 <= j < |mid| ==> before[j].sequence == mid[j].sequence && before[j].device == mid[j].device
    ensures Counts(before, mid[i := Freed(mid[i])], releases, releases[i := releases[i] + 1])
  {
  }

  /** A new request in the table does not count as a release. */
  lemma CountFresh(before: seq<Slot>, mid: seq<Slot>, r: seq<nat>, s: seq<nat>, i: nat, device: Device, command: u16, now: Time)
    requires Counts(before, mid, r, s) && i < |mid| && !mid[i].Live()
    ensures Counts(before, mid[i := Fresh(mid[i], device, command, now)], r, s)
  {
  }

  lemma NextSequence(releases: nat)
    ensures (releases % 0x100 + 1) % 0x100 == (releases + 1) % 0x100
  {
  }

  lemma KeepOnCreate(slots: seq<Slot>, releases: seq<nat>, issued: seq<Issue>, i: nat, s: Slot)
    requires Consistent(slots, releases, issued) && i < |slots| && !slots[i].Live()
    requires s.Live() && s.sequence == slots[i].sequence
    ensures Consistent(slots[i := s], releases, issued + [Issue(i, releases[i])])
  {
    forall k | 0 <= k < |issued| && issued[k].index == i ensures issued[k].born < releases[i] {
      assert issued[k] == Issue(i, issued[k].born) && issued[k] in issued;
    }
  }

  lemma KeepOnChange(slots: seq<Slot>, releases: seq<nat>, issued: seq<Issue>, i: nat, s: Slot)
    requires Consistent(slots, releases, issued) && i < |slots|
    requires s.device == slots[i].device && s.sequence == slots[i].sequence
    ensures Consistent(slots[i := s], releases, issued)
  {
  }

  // ---------------------------------------------------------------------
  // Searches and expiry
  // ---------------------------------------------------------------------

  /** The first slot that satisfies `p`, for the scans from the front of the table. */
  function First(p: Slot -> bool, slots: seq<Slot>, from: nat): (f: Found)
    requires from <= |slots|
    ensures f.At? ==> from <= f.index < |slots| && p(slots[f.index])
    ensures forall i :: from <= i < (if f.At? then f.index else |slots|) ==> !p(slots[i])
    decreases |slots| - from
  {
    if from == |slots| then Missing else if p(slots[from]) then At(from) else First(p, slots, from + 1)
  }

  function FirstFree(slots: seq<Slot>): Found { First((s: Slot) => !s.Live(), slots, 0) }

  /** The device, the frame id, the command and local or remote: all must match. */
  predicate Matches(s: Slot, device: Device, frameId: u8, command: u16, remote: bool) {
    s.device == device && s.frameId == frameId && s.command == command && s.target.Remote? == remote
  }

  function FirstMatch(slots: seq<Slot>, device: Device, frameId: u8, command: u16, remote: bool): (f: Found)
    ensures f.At? ==> f.index < |slots| && Matches(slots[f.index], device, frameId, command, remote)
  {
    First((s: Slot) => Matches(s, device, frameId, command, remote), slots, 0)
  }

  /** No slot matches, exactly if the search finds none; and it finds the only one there is. */
  lemma MatchFound(slots: seq<Slot>, device: Device, frameId: u8, command: u16, remote: bool, i: nat)
    requires i < |slots| && Matches(slots[i], device, frameId, command, remote)
    ensures FirstMatch(slots, device, frameId, command, remote).At?
    ensures (forall j :: 0 <= j < |slots| && j != i ==> !Matches(slots[j], device, frameId, command, remote))
      ==> FirstMatch(slots, device, frameId, command, remote) == At(i)
  {
  }

  predicate Expired(s: Slot, now: Time) { s.Live() && now.due(s.timeout) }

  /** One slot after a tick: expired requests go, unless a callback keeps them. */
  function TickSlot(s: Slot, now: Time, keep: bool): Slot {
    if Expired(s, now) && !(s.callback && keep) then Freed(s) else s
  }

  function TickSlots(slots: seq<Slot>, now: Time, keep: nat -> bool, upto: nat): (r: seq<Slot>)
    requires upto <= |slots|
    ensures |r| == |slots|
    ensures forall i :: 0 <= i < |r| ==> r[i] == if i < upto then TickSlot(slots[i], now, keep(i)) else slots[i]
  {
    seq(|slots|, i requires 0 <= i < |slots| => if i < upto then TickSlot(slots[i], now, keep(i)) else slots[i])
  }

  function CountExpired(slots: seq<Slot>, now: Time, upto: nat): nat
    requires upto <= |slots|
  {
    if upto == 0 then 0 else CountExpired(slots, now, upto - 1) + (if Expired(slots[upto - 1], now) then 1 else 0)
  }

  /** A callback that was made, and whether it was told of a timeout. */
  datatype Call = Call(handle: nat, timeout: bool, device: Device?, context: nat, command: u16)

  function CallFor(i: nat, s: Slot, now: Time): seq<Call> {
    if Expired(s, now) && s.callback then [Call(Handle(i, s.sequence), true, s.device, s.context, s.command)] else []
  }

  function TickCalls(slots: seq<Slot>, now: Time, upto: nat): seq<Call>
    requires upto <= |slots|
  {
    if upto == 0 then [] else TickCalls(slots, now, upto - 1) + CallFor(upto - 1, slots[upto - 1], now)
  }

  /** The first `upto` slots with a live request whose time is over, and among them those with a callback. */
  function Due(slots: seq<Slot>, now: Time, called: bool, upto: nat): seq<nat>
    requires upto <= |slots|
  {
    if upto == 0 then []
    else
      Due(slots, now, called, upto - 1) +
      (if Expired(slots[upto - 1], now) && (called ==> slots[upto - 1].callback) then [upto - 1] else [])
  }

  /** Slot numbers in table order, each once. */
  predicate Rising(s: seq<nat>) { forall i, j :: 0 <= i < j < |s| ==> s[i] < s[j] }

  lemma DueIs(slots: seq<Slot>, now: Time, called: bool, upto: nat)
    requires upto <= |slots|
    ensures var d := Due(slots, now, called, upto);
      && Rising(d)
      && (forall i :: i in d <==> 0 <= i < upto && slots[i].device != null && now.due(slots[i].timeout) && (called ==> slots[i].callback))
  {
    DueMembers(slots, now, called, upto);
    DueRises(slots, now, called, upto);
  }

  lemma {:induction false} DueMembers(slots: seq<Slot>, now: Time, called: bool, upto: nat)
    requires upto <= |slots|
    ensures forall i ::
      i in Due(slots, now, called, upto) <==>
      0 <= i < upto && slots[i].device != null && now.due(slots[i].timeout) && (called ==> slots[i].callback)
    decreases upto
  {
    if upto > 0 { DueMembers(slots, now, called, upto - 1); }
  }

  lemma {:induction false} DueRises(slots: seq<Slot>, now: Time, called: bool, upto: nat)
    requires upto <= |slots|
    ensures Rising(Due(slots, now, called, upto))
    ensures forall k :: 0 <= k < |Due(slots, now, called, upto)| ==> Due(slots, now, called, upto)[k] < upto
    decreases upto
  {
    hide Expired;
    if upto > 0 { DueRises(slots, now, called, upto - 1); }
  }

  lemma {:induction false} DueCounts(slots: seq<Slot>, now: Time, upto: nat)
    requires upto <= |slots|
    ensures CountExpired(slots, now, upto) == |Due(slots, now, false, upto)|
    decreases upto
  {
    if upto > 0 { DueCounts(slots, now, upto - 1); }
  }

  lemma {:induction false} DueCalls(slots: seq<Slot>, now: Time, upto: nat)
    requires upto <= |slots|
    ensures var d, c := Due(slots, now, true, upto), TickCalls(slots, now, upto);
      && |c| == |d|
      && (forall k :: 0 <= k < |d| ==> d[k] < upto)
      && forall k :: 0 <= k < |d| ==>
        var s := slots[d[k]]; c[k] == Call(d[k] * 0x100 + s.sequence, true, s.device, s.context, s.command)
    decreases upto
  {
    if upto > 0 { DueCalls(slots, now, upto - 1); }
  }

}

/** What happens to a handle over a whole run of the table. */
module AtRuns {
  import opened Words
  import opened AtSlots

  predicate Evolves(a: seq<Slot>, b: seq<Slot>) {
    |a| == |b| && forall i :: 0 <= i < |a| ==> SlotStep(a[i], b[i])
  }

  /** The tables before and after each of the calls of a run. */
  ghost predicate IsRun(states: seq<seq<Slot>>) {
    states != [] && forall k :: 0 <= k < |states| - 1 ==> Evolves(states[k], states[k + 1])
  }

  lemma RunTail(states: seq<seq<Slot>>)
    requires IsRun(states) && |states| > 1
    ensures IsRun(states[1..]) && |states[1]| == |states[0]| && Evolves(states[0], states[1])
  {
    var rest := states[1..];
    forall k | 0 <= k < |rest| - 1 ensures Evolves(rest[k], rest[k + 1]) {
      assert Evolves(states[k + 1], states[k + 2]);
    }
    assert Evolves(states[0], states[0 + 1]);
  }

  lemma OneState(s: seq<Slot>)
    ensures IsRun([s])
  {
  }

  lemma RunSnoc(states: seq<seq<Slot>>, next: seq<Slot>)
    requires IsRun(states) && Evolves(states[|states| - 1], next)
    ensures IsRun(states + [next])
  {
    var all := states + [next];
    forall k | 0 <= k < |all| - 1 ensures Evolves(all[k], all[k + 1]) {
      if k < |states| - 1 { assert Evolves(states[k], states[k + 1]); }
    }
  }

  /** How often slot `i` was released, seen from its sequence numbers. */
  ghost function Releases(states: seq<seq<Slot>>, i: nat): nat
    requires IsRun(states) && i < |states[0]|
    decreases |states|
  {
    if |states| == 1 then 0
    else
      RunTail(states);
      Releases(states[1..], i) + (if states[0][i].sequence == states[1][i].sequence then 0 else 1)
  }

  /** One more call adds a release exactly if the sequence number moved on. */
  lemma {:induction false} ReleasesSnoc(states: seq<seq<Slot>>, next: seq<Slot>, i: nat)
    requires IsRun(states) && IsRun(states + [next]) && i < |states[0]| == |states[|states| - 1]| == |next|
    ensures Releases(states + [next], i)
         == Releases(states, i) + (if states[|states| - 1][i].sequence == next[i].sequence then 0 else 1)
    decreases |states|
  {
    var all := states + [next];
    RunTail(all);
    if |states| == 1 {
      assert all[1..] == [next];
    } else {
      RunTail(states);
      assert all[1..] == states[1..] + [next];
      ReleasesSnoc(states[1..], next, i);
    }
  }

  /** The release counters went from `base` to `now` over the run. */
  ghost predicate Counted(states: seq<seq<Slot>>, base: seq<nat>, now: seq<nat>) {
    && IsRun(states) && |base| == |now| == |states[0]|
    && forall i :: 0 <= i < |base| ==> now[i] == base[i] + Releases(states, i)
  }

  lemma CountedStart(s: seq<Slot>, base: seq<nat>)
    requires |s| == |base|
    ensures Counted([s], base, base)
  {
    OneState(s);
  }

  lemma CountedNext(states: seq<seq<Slot>>, base: seq<nat>, now: seq<nat>, next: seq<Slot>, then': seq<nat>)
    requires Counted(states, base, now) && Counts(states[|states| - 1], next, now, then')
    ensures Counted(states + [next], base, then')
  {
    hide Releases;
    CountsEvolve(states[|states| - 1], next, now, then');
    RunSnoc(states, next);
    var all := states + [next];
    SizeKept(states, |states| - 1);
    forall i | 0 <= i < |base| ensures then'[i] == base[i] + Releases(all, i) {
      ReleasesSnoc(states, next, i);
    }
  }

  lemma {:induction false} SizeKept(states: seq<seq<Slot>>, k: nat)
    requires IsRun(states) && k < |states|
    ensures |states[k]| == |states[0]|
  {
    if k > 0 {
      SizeKept(states, k - 1);
      assert Evolves(states[k - 1], states[k - 1 + 1]);
    }
  }

  /** Eight bits of sequence number count the releases, whatever the calls were. */
  lemma {:induction false} SequenceOverRun(states: seq<seq<Slot>>, i: nat)
    requires IsRun(states) && i < |states[0]| == |states[|states| - 1]|
    ensures states[|states| - 1][i].sequence == (states[0][i].sequence + Releases(states, i)) % 0x100
    decreases |states|
  {
    if |states| > 1 {
      RunTail(states);
      SequenceOverRun(states[1..], i);
      AddMod(states[0][i].sequence, Releases(states[1..], i));
    }
  }

  lemma AddMod(s: nat, r: nat)
    ensures ((s + 1) % 0x100 + r) % 0x100 == (s + (r + 1)) % 0x100
  {
  }

  /**
   A handle taken at the start of any run is good at its end exactly if its slot was
   released a multiple of 256 times in between; else it names nothing.
   */
  lemma HandleOverRun(states: seq<seq<Slot>>, i: nat)
    requires IsRun(states) && i < |states[0]|
    ensures Resolve(states[|states| - 1], Handle(i, states[0][i].sequence))
         == if Releases(states, i) % 0x100 == 0 then At(i) else Missing
  {
    hide Releases;
    SizeKept(states, |states| - 1);
    SequenceOverRun(states, i);
    var s, r := states[0][i].sequence, Releases(states, i);
    HandleParts(i, s);
    WholeTurns(s, r);
  }

  lemma WholeTurns(s: u8, r: nat)
    ensures (s + r) % 0x100 == s <==> r % 0x100 == 0
  {
  }

  /** A request that is not released stays, and stays with its device. */
  lemma {:induction false} RequestKept(states: seq<seq<Slot>>, i: nat)
    requires IsRun(states) && i < |states[0]| == |states[|states| - 1]|
    requires states[0][i].Live() && Releases(states, i) == 0
    ensures states[|states| - 1][i].device == states[0][i].device
    ensures Resolve(states[|states| - 1], Handle(i, states[0][i].sequence)) == At(i)
    decreases |states|
  {
    HandleOverRun(states, i);
    if |states| > 1 {
      RunTail(states);
      RequestKept(states[1..], i);
    }
  }

  lemma CountsEvolve(a: seq<Slot>, b: seq<Slot>, r: seq<nat>, s: seq<nat>)
    requires Counts(a, b, r, s)
    ensures Evolves(a, b)
  {
  }
}

/** The request table, its operations and its history. */
module AtTable {
  import opened Words
  import opened AtSlots
  import opened AtRuns

  const LOCAL_AT_RESPONSE: u8 := 0x88
  const REMOTE_AT_RESPONSE: u8 := 0x97

  datatype Status = Done | Invalid | NoSpace | Busy | MsgSize

  /** A frame handed to the device. */
  datatype Request = Request(device: Device?, frameId: u8, command: u16, target: Target, queue: bool)

  class Table {
    const slots: array<Slot>
    var lastTime: u8
    /** 0 until the first create; 2 while one looks for room a second time. */
    var initialized: nat
    /** Seconds a sent request waits for its response. */
    const localTimeout: nat
    const remoteTimeout: nat
    /** Every device there is. */
    ghost const devices: set<Device>
    /** How often each slot was released, what handles were given out, the callbacks made and the frames sent. */
    ghost var releases: seq<nat>
    ghost var issued: seq<Issue>
    ghost var calls: seq<Call>
    ghost var sent: seq<Request>

    ghost predicate Sound()
      reads this, slots
    {
      && 0 < slots.Length <= 0x80
      && Consistent(slots[..], releases, issued)
      && (initialized == 0 ==> issued == [])
      && initialized <= 2
      && (forall i :: 0 <= i < slots.Length && slots[i].Live() ==> slots[i].device in devices)
    }

    /** Between calls. */
    ghost predicate Valid()
      reads this, slots
    {
      Sound() && initialized <= 1
    }

    constructor (size: nat, localTimeout: nat, remoteTimeout: nat, ghost devices: set<Device>)
      requires 0 < size <= 0x80
      ensures Valid() && issued == [] && fresh(slots) && slots.Length == size && this.devices == devices
      ensures initialized == 0 && slots[..] == seq(size, _ => Zeroed()) && releases == seq(size, _ => 0)
      ensures lastTime == 0 && calls == [] && sent == []
      ensures this.localTimeout == localTimeout && this.remoteTimeout == remoteTimeout
    {
      slots := new Slot[size](_ => Zeroed());
      lastTime, initialized := 0, 0;
      this.localTimeout, this.remoteTimeout, this.devices := localTimeout, remoteTimeout, devices;
      releases := seq(size, _ => 0);
      issued, calls, sent := [], [], [];
    }

    /** `_xbee_cmd_handle_to_address` */
    method HandleToAddress(handle: int) returns (f: Found)
      requires Sound()
      ensures f == Resolve(slots[..], handle)
      ensures f.At? <==> 0 <= handle && handle / 0x100 < slots.Length && slots[handle / 0x100].sequence == handle % 0x100
      ensures f.At? ==> f.index == handle / 0x100
      ensures Follows(f, releases, issued, handle)
    {
      hide Consistent;
      ResolvesAll(slots[..], releases, issued, handle);
      if handle < 0 || handle >= slots.Length * 0x100 { return Missing; }
      if slots[handle / 0x100].sequence != handle % 0x100 { return Missing; }
      return At(handle / 0x100);
    }

    /** `_xbee_cmd_release_request` */
    method ReleaseRequest(i: nat)
      requires Sound() && i < slots.Length
      modifies this`releases, slots
      ensures Sound()
      ensures slots[..] == old(slots[..])[i := Freed(old(slots[i]))]
      ensures slots[i] == old(slots[i]).(device := null, sequence := (old(slots[i]).sequence + 1) % 0x100)
      ensures releases == old(releases)[i := old(releases[i]) + 1]
      ensures Counts(old(slots[..]), slots[..], old(releases), releases)
    {
      hide Consistent, Counts, Freed;
      ghost var was := slots[..];
      ConsistentSizes(was, releases, issued);
      CountRelease(was, was, releases, i);
      KeepOnRelease(was, releases, issued, i);
      FreedIs(slots[i]);
      slots[i] := slots[i].(device := null, sequence := (slots[i].sequence + 1) % 0x100);
      assert slots[..] == was[i := Freed(was[i])];
      releases := releases[i := releases[i] + 1];
    }

    /** Changes a request in place, but not whose it is. */
    method Change(i: nat, s: Slot)
      requires Sound() && i < slots.Length
      requires s.device == slots[i].device && s.sequence == slots[i].sequence
      modifies slots
      ensures Sound()
      ensures slots[..] == old(slots[..])[i := s]
    {
      KeepOnChange(slots[..], releases, issued, i, s);
      slots[i] := s;
    }

    /** `xbee_cmd_release_handle` */
    method ReleaseHandle(handle: int) returns (r: Status)
      requires Valid()
      modifies this`releases, slots
      ensures Valid()
      ensures match Resolve(old(slots[..]), handle)
        case Missing => r == Invalid && slots[..] == old(slots[..]) && releases == old(releases)
        case At(i) => r == Done && slots[..] == old(slots[..])[i := Freed(old(slots[..])[i])]
      ensures Counts(old(slots[..]), slots[..], old(releases), releases)
    {
      hide Consistent, Freed, Counts;
      ConsistentSizes(slots[..], releases, issued);
      CountNone(slots[..], slots[..], releases);
      var f := HandleToAddress(handle);
      if f.Missing? { return Invalid; }
      ReleaseRequest(f.index);
      return Done;
    }

    method SetCommand(handle: int, command: u16) returns (r: Status)
      requires Valid()
      modifies slots
      ensures Valid()
      ensures match Resolve(old(slots[..]), handle)
        case Missing => r == Invalid && slots[..] == old(slots[..])
        case At(i) => r == Done && slots[..] == old(slots[..])[i := old(slots[..])[i].(command := command)]
    {
      hide Consistent;
      var f := HandleToAddress(handle);
      if f.Missing? { return Invalid; }
      Change(f.index, slots[f.index].(command := command));
      return Done;
    }

    method SetCallback(handle: int, callback: bool, context: nat) returns (r: Status)
      requires Valid()
      modifies slots
      ensures Valid()
      ensures match Resolve(old(slots[..]), handle)
        case Missing => r == Invalid && slots[..] == old(slots[..])
        case At(i) => r == Done && slots[..] == old(slots[..])[i := old(slots[..])[i].(callback := callback, context := context)]
    {
      hide Consistent;
      var f := HandleToAddress(handle);
      if f.Missing? { return Invalid; }
      Change(f.index, slots[f.index].(callback := callback, context := context));
      return Done;
    }

    /** A target address makes a request remote, none makes it local. */
    method SetTarget(handle: int, target: Target) returns (r: Status)
      requires Valid()
      modifies slots
      ensures Valid()
      ensures match Resolve(old(slots[..]), handle)
        case Missing => r == Invalid && slots[..] == old(slots[..])
        case At(i) => r == Done && slots[..] == old(slots[..])[i := old(slots[..])[i].(target := target)]
    {
      hide Consistent;
      var f := HandleToAddress(handle);
      if f.Missing? { return Invalid; }
      Change(f.index, slots[f.index].(target := target));
      return Done;
    }

    /** The flags a user may set; the others stay. */
    method SetFlags(handle: int, queue: bool, reuseHandle: bool) returns (r: Status)
      requires Valid()
      modifies slots
      ensures Valid()
      ensures match Resolve(old(slots[..]), handle)
        case Missing => r == Invalid && slots[..] == old(slots[..])
        case At(i) =>
          var s := old(slots[..])[i];
          r == Done && slots[..] == old(slots[..])[i := s.(queue := s.queue || queue, reuseHandle := s.reuseHandle || reuseHandle)]
    {
      hide Consistent;
      var f := HandleToAddress(handle);
      if f.Missing? { return Invalid; }
      var s := slots[f.index];
      Change(f.index, s.(queue := s.queue || queue, reuseHandle := s.reuseHandle || reuseHandle));
      return Done;
    }

    method ClearFlags(handle: int, queue: bool, reuseHandle: bool) returns (r: Status)
      requires Valid()
      modifies slots
      ensures Valid()
      ensures match Resolve(old(slots[..]), handle)
        case Missing => r == Invalid && slots[..] == old(slots[..])
        case At(i) =>
          var s := old(slots[..])[i];
          r == Done && slots[..] == old(slots[..])[i := s.(queue := s.queue && !queue, reuseHandle := s.reuseHandle && !reuseHandle)]
    {
      hide Consistent;
      var f := HandleToAddress(handle);
      if f.Missing? { return Invalid; }
      var s := slots[f.index];
      Change(f.index, s.(queue := s.queue && !queue, reuseHandle := s.reuseHandle && !reuseHandle));
      return Done;
    }

    /**
     `xbee_cmd_tick`, at most once a second: `keep` says which callbacks answer that
     they use the request again.
     */
    method Tick(now: Time, keep: nat -> bool) returns (count: nat, ghost expired: seq<nat>, ghost called: seq<nat>)
      requires Sound()
      modifies this`lastTime, this`releases, this`calls, slots
      ensures Sound() && lastTime == now.seconds % 0x100
      ensures old(lastTime) == now.seconds % 0x100 ==>
        count == 0 && slots[..] == old(slots[..]) && releases == old(releases) && calls == old(calls)
      ensures old(lastTime) != now.seconds % 0x100 ==>
        && slots[..] == TickSlots(old(slots[..]), now, keep, slots.Length)
        && calls == old(calls) + TickCalls(old(slots[..]), now, slots.Length)
      ensures old(lastTime) != now.seconds % 0x100 ==> forall i :: 0 <= i < slots.Length ==>
        var s := old(slots[i]);
        slots[i] == if s.device != null && now.due(s.timeout) && !(s.callback && keep(i))
                    then s.(device := null, sequence := (s.sequence + 1) % 0x100) else s
      ensures old(lastTime) != now.seconds % 0x100 ==>
        && count == |expired|
        && (forall j, k :: 0 <= j < k < |expired| ==> expired[j] < expired[k])
        && (forall i :: i in expired <==> 0 <= i < slots.Length && old(slots[i]).device != null && now.due(old(slots[i]).timeout))
      ensures old(lastTime) != now.seconds % 0x100 ==>
        && (forall j, k :: 0 <= j < k < |called| ==> called[j] < called[k])
        && (forall i :: i in called <==> 0 <= i < slots.Length && old(slots[i]).device != null
                                         && now.due(old(slots[i]).timeout) && old(slots[i]).callback)
        && |calls| == |old(calls)| + |called| && calls[..|old(calls)|] == old(calls)
        && (forall k :: 0 <= k < |called| ==> called[k] < slots.Length)
        && forall k :: 0 <= k < |called| ==>
          var s := old(slots[..])[called[k]];
          calls[|old(calls)| + k] == Call(called[k] * 0x100 + s.sequence, true, s.device, s.context, s.command)
      ensures Counts(old(slots[..]), slots[..], old(releases), releases)
    {
      hide Consistent, Counts, TickSlots, TickCalls, CountExpired, Due;
      ConsistentSizes(slots[..], releases, issued);
      CountNone(slots[..], slots[..], releases);
      ghost var was := slots[..];
      expired, called := Due(was, now, false, |was|), Due(was, now, true, |was|);
      count := 0;
      if lastTime == now.seconds % 0x100 { return; }
      lastTime := now.seconds % 0x100;
      DueIs(was, now, false, |was|);
      DueIs(was, now, true, |was|);
      DueCounts(was, now, |was|);
      DueCalls(was, now, |was|);
      count := Expire(now, keep);
      TickIs(was, now, keep);
    }

    /** The walk through the table in `xbee_cmd_tick`. */
    method Expire(now: Time, keep: nat -> bool) returns (count: nat)
      requires Sound()
      modifies this`releases, this`calls, slots
      ensures Sound()
      ensures slots[..] == TickSlots(old(slots[..]), now, keep, slots.Length)
      ensures count == CountExpired(old(slots[..]), now, slots.Length)
      ensures calls == old(calls) + TickCalls(old(slots[..]), now, slots.Length)
      ensures Counts(old(slots[..]), slots[..], old(releases), releases)
    {
      hide Consistent, Counts, TickSlots, TickCalls, CountExpired, TickSlot, CallFor, Expired;
      ConsistentSizes(slots[..], releases, issued);
      CountNone(slots[..], slots[..], releases);
      ghost var was := slots[..];
      TickNone(was, now, keep);
      count := 0;
      for i := 0 to slots.Length
        invariant Sound()
        invariant slots[..] == TickSlots(was, now, keep, i)
        invariant count == CountExpired(was, now, i)
        invariant calls == old(calls) + TickCalls(was, now, i)
        invariant Counts(was, slots[..], old(releases), releases)
      {
        TickNext(was, now, keep, i);
        assert slots[i] == was[i] by { assert slots[..][i] == slots[i]; }
        ghost var mid, counted := slots[..], releases;
        var expired := TickOne(i, now, keep);
        TickSequence(was[i], now, keep(i));
        CountOne(was, mid, slots[..], old(releases), counted, i);
        count := count + expired;
      }
    }

    /** One turn of the loop in `xbee_cmd_tick`. */
    method TickOne(i: nat, now: Time, keep: nat -> bool) returns (expired: nat)
      requires Sound() && i < slots.Length
      modifies this`releases, this`calls, slots
      ensures Sound()
      ensures slots[..] == old(slots[..])[i := TickSlot(old(slots[i]), now, keep(i))]
      ensures releases == if slots[i] == old(slots[i]) then old(releases) else old(releases)[i := old(releases)[i] + 1]
      ensures expired == if Expired(old(slots[i]), now) then 1 else 0
      ensures calls == old(calls) + CallFor(i, old(slots[i]), now)
    {
      hide Consistent, Freed;
      expired := 0;
      var again := false;
      if slots[i].device != null && now.due(slots[i].timeout) {
        expired := 1;
        if slots[i].callback {
          calls := calls + [Call(Handle(i, slots[i].sequence), true, slots[i].device, slots[i].context, slots[i].command)];
          again := keep(i);
        }
        if !again { ReleaseRequest(i); }
      }
    }

    /** Room for a new request: line 918 onwards. */
    method Occupy(i: nat, device: Device, command: u16, now: Time) returns (handle: nat)
      requires Sound() && i < slots.Length && !slots[i].Live() && device in devices && initialized > 0
      modifies this`issued, slots
      ensures Sound()
      ensures slots[..] == old(slots[..])[i := Fresh(old(slots[i]), device, command, now)]
      ensures issued == old(issued) + [Issue(i, releases[i])]
      ensures handle == Handle(i, old(slots[i]).sequence) == Issue(i, releases[i]).GetHandle()
    {
      handle := i * 0x100 + slots[i].sequence;
      var s := Fresh(slots[i], device, command, now);
      KeepOnCreate(slots[..], releases, issued, i, s);
      slots[i] := s;
      issued := issued + [Issue(i, releases[i])];
    }

    /** The table before the search of a create: the very first one clears it. */
    ghost function Start(): (s: seq<Slot>)
      reads this, slots
    {
      if initialized == 0 then seq(slots.Length, _ => Zeroed()) else slots[..]
    }

    method Clear()
      requires Sound() && initialized == 0
      modifies this`initialized, this`releases, slots
      ensures Sound() && initialized == 1
      ensures slots[..] == old(Start()) && releases == seq(slots.Length, _ => 0)
    {
      forall i | 0 <= i < slots.Length { slots[i] := Zeroed(); }
      initialized := 1;
      releases := seq(slots.Length, _ => 0);
    }

    /** The search of `xbee_cmd_create`, and the new request if it finds room. */
    method Search(device: Device, command: u16, now: Time) returns (r: Status, handle: nat)
      requires Sound() && device in devices && initialized > 0
      modifies this`issued, slots
      ensures Sound()
      ensures Created(old(slots[..]), FirstFree(old(slots[..])), r, handle, device, command, now, old(issued))
      ensures Counts(old(slots[..]), slots[..], releases, releases)
    {
      hide Consistent, Fresh, Counts, FirstFree;
      ghost var was := slots[..];
      ConsistentSizes(was, releases, issued);
      CountNone(was, was, releases);
      var i := 0;
      while i < slots.Length && slots[i].device != null
        invariant i <= slots.Length
        invariant forall j :: 0 <= j < i ==> slots[j].Live()
      {
        i := i + 1;
      }
      if i == slots.Length {
        NoneFree(was);
        return NoSpace, 0;
      }
      IsFirstFree(was, i);
      CountFresh(was, was, releases, releases, i, device, command, now);
      handle := Occupy(i, device, command, now);
      r := Done;
    }

    /** What a search over the table `t` leaves, for the free slot it finds or none. */
    ghost predicate Created(t: seq<Slot>, free: Found, r: Status, handle: nat, device: Device, command: u16, now: Time,
                            issued0: seq<Issue>)
      reads this, slots
    {
      match free
      case Missing => r == NoSpace && slots[..] == t && issued == issued0
      case At(i) =>
        && i < |t| == |releases|
        && r == Done && handle == Handle(i, t[i].sequence)
        && (handle > 0 <==> !(i == 0 && releases[0] % 0x100 == 0))
        && slots[..] == t[i := Fresh(t[i], device, command, now)]
        && issued == issued0 + [Issue(i, releases[i])]
    }

    /** Whether a create has to look for room a second time, and a tick can make some. */
    ghost predicate Retries(device: Device?, now: Time)
      reads this, slots
    {
      device != null && FirstFree(Start()).Missing? && initialized != 2 && lastTime != now.seconds % 0x100
    }

    /** `xbee_cmd_create` as it calls itself: `initialized` is 2 the second time. */
    method CreateOrRetry(device: Device?, command: u16, now: Time, keep: nat -> bool) returns (r: Status, handle: nat)
      requires Sound() && (device != null ==> device in devices)
      modifies this`initialized, this`lastTime, this`releases, this`issued, this`calls, slots
      ensures Sound()
      ensures initialized == if device == null || old(initialized) == 2 then old(initialized) else 1
      ensures device == null ==> r == Invalid && slots[..] == old(slots[..]) && issued == old(issued) && releases == old(releases)
      ensures device != null ==>
        var t := if old(Retries(device, now)) then TickSlots(old(Start()), now, keep, slots.Length) else old(Start());
        Created(t, FirstFree(t), r, handle, device, command, now, old(issued))
      ensures calls == old(calls) + if old(Retries(device, now)) then TickCalls(old(Start()), now, slots.Length) else []
      ensures old(initialized) != 0 ==> Counts(old(slots[..]), slots[..], old(releases), releases)
      ensures old(initialized) == 2 ==> releases == old(releases)
      ensures device != null && old(initialized) == 0 ==> releases == seq(slots.Length, _ => 0)
      decreases 2 - initialized, 0
    {
      hide Consistent, TickSlots, TickCalls, Fresh, Counts, FirstFree;
      ConsistentSizes(slots[..], releases, issued);
      CountNone(slots[..], slots[..], releases);
      if device == null { return Invalid, 0; }
      if initialized == 0 {
        Clear();
        ClearedFree(slots[..]);
      }
      assert slots[..] == old(Start());
      r, handle := Search(device, command, now);
      if r == NoSpace && initialized != 2 {
        initialized := 2;
        r, handle := SecondLook(device, command, now, keep);
        initialized := 1;
      }
    }

    /**
     `xbee_cmd_create`: the first free slot; if there is none, the first free one
     after a tick; if there is still none, no request. More than 0 is promised of a
     handle, and holds of all but those of the first slot after 0, 256, ... releases.
     */
    method Create(device: Device?, command: u16, now: Time, keep: nat -> bool) returns (r: Status, handle: nat)
      requires Valid() && (device != null ==> device in devices)
      modifies this`initialized, this`lastTime, this`releases, this`issued, this`calls, slots
      ensures Valid()
      ensures initialized == if device == null then old(initialized) else 1
      ensures device == null ==> r == Invalid && slots[..] == old(slots[..]) && issued == old(issued) && releases == old(releases)
      ensures device != null ==>
        var t := if old(Retries(device, now)) then TickSlots(old(Start()), now, keep, slots.Length) else old(Start());
        Created(t, FirstFree(t), r, handle, device, command, now, old(issued))
      ensures calls == old(calls) + if old(Retries(device, now)) then TickCalls(old(Start()), now, slots.Length) else []
      ensures old(initialized) != 0 ==> Counts(old(slots[..]), slots[..], old(releases), releases)
      ensures device != null && old(initialized) == 0 ==> releases == seq(slots.Length, _ => 0)
      ensures device != null && old(initialized) == 0 ==>
        r == Done && handle == 0 && slots[..] == OneRequest(slots.Length, device, command, now)
      ensures device != null && old(initialized) != 0 ==>
        forall i :: (0 <= i < slots.Length && old(slots[..])[i].device == null
                     && forall j :: 0 <= j < i ==> old(slots[..])[j].device != null) ==>
          var s := old(slots[..])[i];
          && r == Done && handle == i * 0x100 + s.sequence
          && slots[..] == old(slots[..])[i := Slot(device, s.sequence, now.after(2), 0, command, Local, false, false, false, 0)]
      ensures device != null && old(initialized) == 1 && (forall j :: 0 <= j < slots.Length ==> old(slots[..])[j].device != null) ==>
        if old(lastTime) == now.seconds % 0x100 then r == NoSpace && slots[..] == old(slots[..])
        else MadeRoom(old(slots[..]), slots[..], r, handle, device, command, now, keep)
    {
      hide Consistent, TickSlots, TickCalls, Counts, FirstFree, Made, MadeRoom;
      ghost var start, time0 := Start(), lastTime;
      r, handle := CreateOrRetry(device, command, now, keep);
      if device != null {
        ghost var t := if FirstFree(start).Missing? && time0 != now.seconds % 0x100 then TickSlots(start, now, keep, |start|) else start;
        CreatedMade(t, slots[..], r, handle, device, command, now);
        if old(initialized) == 0 {
          ClearedFree(start);
          MadeFirst(start, slots[..], r, handle, device, command, now);
        }
        CreateCases(start, slots[..], r, handle, device, command, now, keep, time0);
      }
    }

    /** A tick, to free up a slot, and the create once more. */
    method SecondLook(device: Device, command: u16, now: Time, keep: nat -> bool) returns (r: Status, handle: nat)
      requires Sound() && device in devices && initialized == 2 && FirstFree(slots[..]).Missing?
      modifies this`initialized, this`lastTime, this`releases, this`issued, this`calls, slots
      ensures Sound() && initialized == 2
      ensures var t := if old(lastTime) != now.seconds % 0x100 then TickSlots(old(slots[..]), now, keep, slots.Length) else old(slots[..]);
        Created(t, FirstFree(t), r, handle, device, command, now, old(issued))
      ensures calls == old(calls) + if old(lastTime) != now.seconds % 0x100 then TickCalls(old(slots[..]), now, slots.Length) else []
      ensures Counts(old(slots[..]), slots[..], old(releases), releases)
      decreases 2 - initialized, 1
    {
      hide Consistent, TickSlots, TickCalls, Fresh, Counts, FirstFree;
      ghost var was, before := slots[..], releases;
      ghost var late, called;
      var expired;
      expired, late, called := Tick(now, keep);
      ghost var mid, counted := slots[..], releases;
      FoundFree(mid);
      match FirstFree(mid) {
        case Missing =>
        case At(f) => CountFresh(was, mid, before, counted, f, device, command, now);
      }
      r, handle := CreateOrRetry(device, command, now, keep);
    }

    /**
     `xbee_cmd_send`: `answer` is what the frame writer says. Without a callback the
     frame id is 0, no response is awaited, and the request is released unless it is
     to be used again.
     */
    method Send(handle: int, now: Time, answer: Status) returns (r: Status)
      requires Valid()
      modifies this`releases, this`sent, slots, devices
      ensures Valid()
      ensures !(0 <= handle && handle / 0x100 < slots.Length && old(slots[..])[handle / 0x100].sequence == handle % 0x100) ==>
        r == Invalid && forall d <- devices :: d.frameId == old(d.frameId)
      ensures match Resolve(old(slots[..]), handle)
        case Missing => r == Invalid && slots[..] == old(slots[..]) && sent == old(sent)
        case At(i) =>
          var s := old(slots[..])[i];
          var id := if s.callback && s.Live() then NextId(old(DeviceId(s.device))) else 0;
          && (s.Live() ==> slots[..] == old(slots[..])[i := AfterSend(s, id, answer == Done, now, if s.target.Remote? then remoteTimeout else localTimeout)])
          && (s.Live() && s.callback ==> s.device.frameId == id)
          && (s.Live() ==> r == answer)
          && (s.Live() ==> sent == if answer == Done then old(sent) + [Request(s.device, id, s.command, s.target, s.queue)] else old(sent))
          && (!s.Live() ==> r == Invalid && slots[..] == old(slots[..])[i := s.(frameId := 0)] && sent == old(sent))
          && (forall d <- devices :: !(d == s.device && s.callback) ==> d.frameId == old(d.frameId))
          && (s.Live() && s.callback ==> s.device.frameId == if old(s.device.frameId) == 255 then 1 else old(s.device.frameId) + 1)
          && (s.Live() && answer != Done ==> slots[i] == s.(frameId := id))
          && (s.Live() && answer == Done && s.callback ==>
                slots[i] == s.(frameId := id, timeout := now.after(if s.target.Remote? then remoteTimeout else localTimeout)))
          && (s.Live() && answer == Done && !s.callback && s.reuseHandle ==> slots[i] == s.(frameId := 0))
          && (s.Live() && answer == Done && !s.callback && !s.reuseHandle ==>
                slots[i] == s.(frameId := 0, device := null, sequence := (s.sequence + 1) % 0x100))
      ensures Counts(old(slots[..]), slots[..], old(releases), releases)
    {
      hide Consistent, Freed, Counts;
      ConsistentSizes(slots[..], releases, issued);
      ghost var was := slots[..];
      CountNone(was, was, releases);
      var f := HandleToAddress(handle);
      if f.Missing? { return Invalid; }
      var i := f.index;
      var id := 0;
      if slots[i].callback && slots[i].device != null {
        id := slots[i].device.NextFrameId();
      }
      Change(i, slots[i].(frameId := id));
      CountNone(was, slots[..], releases);
      if slots[i].device == null { return Invalid; }
      if answer != Done { return answer; }
      sent := sent + [Request(slots[i].device, id, slots[i].command, slots[i].target, slots[i].queue)];
      if id != 0 {
        Change(i, slots[i].(timeout := now.after(if slots[i].target.Remote? then remoteTimeout else localTimeout)));
        CountNone(was, slots[..], releases);
      } else if !slots[i].reuseHandle {
        CountRelease(was, slots[..], releases, i);
        ReleaseRequest(i);
      }
      r := Done;
    }

    ghost function DeviceId(d: Device?): u8
      reads d
    {
      if d == null then 0 else d.frameId
    }

    /**
     `_xbee_cmd_handle_response`: the first request that matches in everything gets the
     response; it is released unless its callback keeps it.
     */
    method HandleResponse(device: Device, frameType: u8, frameId: u8, command: u16, now: Time, keep: bool)
      returns (r: Status, hit: Found)
      requires Valid()
      modifies this`releases, this`calls, slots
      ensures Valid()
      ensures r == if frameType == 0x88 || frameType == 0x97 then Done else Invalid
      ensures r == Invalid ==> slots[..] == old(slots[..]) && calls == old(calls)
      ensures r == Done ==>
        match FirstMatch(old(slots[..]), device, frameId, command, frameType == 0x97)
        case Missing => slots[..] == old(slots[..]) && calls == old(calls)
        case At(i) =>
          var s := old(slots[..])[i];
          && s.Live() && Issue(i, old(releases)[i]) in issued
          && Issue(i, old(releases)[i]).GetHandle() == Handle(i, s.sequence)
          && calls == old(calls) + (if s.callback then [Call(Handle(i, s.sequence), false, device, s.context, command)] else [])
          && slots[..] == old(slots[..])[i := if s.callback && keep then s.(timeout := now.after(5)) else Freed(s)]
      ensures hit.Missing? ==> slots[..] == old(slots[..]) && calls == old(calls)
      ensures hit.Missing? && r == Done ==> forall j :: 0 <= j < slots.Length ==>
        var s := old(slots[j]);
        !(s.device == device && s.frameId == frameId && s.command == command && (s.target.Remote? <==> frameType == 0x97))
      ensures hit.At? ==>
        && r == Done && hit.index < slots.Length
        && var s := old(slots[..])[hit.index];
          && s.device == device && s.frameId == frameId && s.command == command
          && (s.target.Remote? <==> frameType == 0x97)
          && calls == old(calls) +
            (if s.callback then [Call(hit.index * 0x100 + s.sequence, false, device, s.context, command)] else [])
          && slots[hit.index] == (if s.callback && keep then s.(timeout := now.after(5))
                                  else s.(device := null, sequence := (s.sequence + 1) % 0x100))
      ensures hit.At? ==> forall j :: 0 <= j < slots.Length && j != hit.index ==> slots[j] == old(slots[j])
      ensures hit.At? ==> forall j :: 0 <= j < hit.index ==>
        var s := old(slots[j]);
        !(s.device == device && s.frameId == frameId && s.command == command && (s.target.Remote? <==> frameType == 0x97))
      ensures Counts(old(slots[..]), slots[..], old(releases), releases)
    {
      hide Consistent, Freed, Counts, Matches, FirstMatch;
      hit := Missing;
      ConsistentSizes(slots[..], releases, issued);
      CountNone(slots[..], slots[..], releases);
      if frameType != LOCAL_AT_RESPONSE && frameType != REMOTE_AT_RESPONSE { return Invalid, Missing; }
      r := Done;
      var isLocal := frameType == LOCAL_AT_RESPONSE;
      hit := FindMatch(device, frameId, command, isLocal);
      if hit.At? { Respond(hit.index, device, command, now, keep); }
    }

    /** The scan for a request that matches in everything. */
    method FindMatch(device: Device, frameId: u8, command: u16, isLocal: bool) returns (f: Found)
      requires Sound()
      ensures f == FirstMatch(slots[..], device, frameId, command, !isLocal)
      ensures f.At? ==>
        && f.index < slots.Length
        && var s := slots[f.index];
          s.device == device && s.frameId == frameId && s.command == command && (s.target.Remote? <==> !isLocal)
      ensures forall j :: 0 <= j < (if f.At? then f.index else slots.Length) ==>
        var s := slots[j];
        !(s.device == device && s.frameId == frameId && s.command == command && (s.target.Remote? <==> !isLocal))
    {
      hide Consistent, FirstMatch, Matches;
      MatchesAre(slots[..], device, frameId, command, !isLocal);
      var i := 0;
      while i < slots.Length && !(
          slots[i].device == device && slots[i].frameId == frameId && isLocal == !slots[i].target.Remote? && slots[i].command == command)
        invariant i <= slots.Length
        invariant forall j :: 0 <= j < i ==> !Matches(slots[j], device, frameId, command, !isLocal)
      {
        i := i + 1;
      }
      if i == slots.Length {
        NoneMatch(slots[..], device, frameId, command, !isLocal);
        return Missing;
      }
      IsFirstMatch(slots[..], device, frameId, command, !isLocal, i);
      return At(i);
    }

    /** The callback of the request that matched, and its release or its new time-out. */
    method Respond(i: nat, device: Device, command: u16, now: Time, keep: bool)
      requires Valid() && i < slots.Length && slots[i].device == device
      modifies this`releases, this`calls, slots
      ensures Valid()
      ensures Issue(i, old(releases)[i]) in issued && Issue(i, old(releases)[i]).GetHandle() == Handle(i, old(slots[..])[i].sequence)
      ensures var s := old(slots[..])[i];
        && calls == old(calls) + (if s.callback then [Call(i * 0x100 + s.sequence, false, device, s.context, command)] else [])
        && slots[..] == old(slots[..])[i := if s.callback && keep then s.(timeout := now.after(5)) else Freed(s)]
        && slots[i] == (if s.callback && keep then s.(timeout := now.after(5))
                        else s.(device := null, sequence := (s.sequence + 1) % 0x100))
      ensures Counts(old(slots[..]), slots[..], old(releases), releases)
    {
      hide Consistent, Freed, Counts;
      ghost var was := slots[..];
      ConsistentSizes(was, releases, issued);
      LiveHandlesDistinct(was, releases, issued, i, i);
      if slots[i].callback {
        calls := calls + [Call(Handle(i, slots[i].sequence), false, device, slots[i].context, command)];
        if keep {
          Change(i, slots[i].(timeout := now.after(5)));
          CountNone(was, slots[..], releases);
          return;
        }
      }
      ReleaseRequest(i);
    }

    /** Whether a call is the first create, which clears the table. */
    predicate Clears(op: Op)
      reads this
    {
      initialized == 0 && op.CreateOp? && op.device != null
    }

    /** One call; `keep` holds the answers of the callbacks it makes. */
    method Perform(op: Op, now: Time, keep: nat -> bool)
      requires Valid() && (op.CreateOp? && op.device != null ==> op.device in devices)
      modifies this, slots, devices
      ensures Valid() && old(issued) <= issued
      ensures initialized == if old(Clears(op)) then 1 else old(initialized)
      ensures old(Clears(op)) ==> releases == seq(slots.Length, _ => 0)
      ensures !old(Clears(op)) ==> Counts(old(slots[..]), slots[..], old(releases), releases)
    {
      hide Consistent, Counts, Freed, Fresh, TickSlots;
      ConsistentSizes(slots[..], releases, issued);
      ghost var was := slots[..];
      CountNone(was, was, releases);
      var r: Status;
      match op
      case CreateOp(d, c) =>
        var h: nat;
        r, h := Create(d, c, now, keep);
      case TickOp =>
        ghost var late, called;
        var n;
        n, late, called := Tick(now, keep);
      case SendOp(h, answer) => r := Send(h, now, answer);
      case ResponseOp(d, frameType, id, c) =>
        var hit;
        r, hit := HandleResponse(d, frameType, id, c, now, keep(0));
      case ReleaseOp(h) => r := ReleaseHandle(h);
      case CommandOp(h, c) =>
        r := SetCommand(h, c);
        CountNone(was, slots[..], releases);
      case CallbackOp(h, c, x) =>
        r := SetCallback(h, c, x);
        CountNone(was, slots[..], releases);
      case TargetOp(h, target) =>
        r := SetTarget(h, target);
        CountNone(was, slots[..], releases);
      case FlagsOp(h, add, queue, reuse) =>
        if add { r := SetFlags(h, queue, reuse); } else { r := ClearFlags(h, queue, reuse); }
        CountNone(was, slots[..], releases);
    }

    /**
     Any sequence of calls, at any times, with any answers of the callbacks: first
     those before the first create, if there are any, when no handle has been given
     out; then a run, over which the release counters count what the slots show.
     */
    method Run(ops: seq<Op>, times: nat -> Time, keep: (nat, nat) -> bool)
      returns (ghost early: seq<seq<Slot>>, ghost states: seq<seq<Slot>>, ghost base: seq<nat>)
      requires Valid()
      requires forall op <- ops :: op.CreateOp? && op.device != null ==> op.device in devices
      modifies this, slots, devices
      ensures Valid() && old(issued) <= issued && |early| + |states| == |ops| + 1
      ensures states != [] && (early + states)[0] == old(slots[..]) && states[|states| - 1] == slots[..]
      ensures Counted(states, base, releases)
      ensures early == [] ==> base == old(releases) && initialized == old(initialized)
      ensures early != [] ==> IsRun(early) && old(initialized) == 0 && old(issued) == [] && base == seq(slots.Length, _ => 0)
      ensures early != [] ==> ops[|early| - 1].CreateOp? && ops[|early| - 1].device != null
    {
      hide Consistent, Counts, IsRun, Counted;
      ConsistentSizes(slots[..], releases, issued);
      early, states, base := [], [slots[..]], releases;
      CountedStart(slots[..], releases);
      for k := 0 to |ops|
        invariant Valid() && old(issued) <= issued && |early| + |states| == k + 1
        invariant states != [] && (early + states)[0] == old(slots[..]) && states[|states| - 1] == slots[..]
        invariant Counted(states, base, releases)
        invariant early == [] ==> base == old(releases) && initialized == old(initialized)
        invariant early != [] ==> IsRun(early) && old(initialized) == 0 && old(issued) == [] && base == seq(slots.Length, _ => 0)
        invariant early != [] ==> initialized == 1 && |early| <= k && ops[|early| - 1].CreateOp? && ops[|early| - 1].device != null
      {
        ghost var was, counted, clears := slots[..], releases, Clears(ops[k]);
        Perform(ops[k], times(k), (i: nat) => keep(k, i));
        if clears {
          CountedIsRun(states, base, counted);
          early, states, base := states, [slots[..]], releases;
          ConsistentSizes(slots[..], releases, issued);
          CountedStart(slots[..], releases);
        } else {
          CountedNext(states, base, counted, slots[..], releases);
          states := states + [slots[..]];
        }
      }
    }
  }

  lemma CountedIsRun(states: seq<seq<Slot>>, base: seq<nat>, now: seq<nat>)
    requires Counted(states, base, now)
    ensures IsRun(states)
  {
  }

  /** The first handle a table gives out is 0, where more than 0 is promised. */
  method FirstHandle(size: nat, device: Device, command: u16, now: Time, keep: nat -> bool) returns (handle: nat)
    requires 0 < size <= 0x80
    ensures handle == 0
  {
    var t := new Table(size, 2, 30, {device});
    assert t.slots[..][0] == Zeroed();
    IsFirstFree(t.slots[..], 0);
    var r;
    r, handle := t.Create(device, command, now, keep);
  }

  /** After 256 requests in one slot its first handle names the free slot, and then the next request in it. */
  method HandleComesBack(device: Device, command: u16, now: Time, keep: nat -> bool)
    returns (first: nat, free: Found, next: nat)
    ensures first == 0 && free == At(0) && next == 0
  {
    hide Consistent, Counts, TickSlots;
    var t := new Table(1, 2, 30, {device});
    first := RequestOnce(t, device, command, now, keep);
    var h := t.ReleaseHandle(first);
    for k := 1 to 256
      invariant t.Valid() && fresh(t) && fresh(t.slots) && t.slots.Length == 1 && device in t.devices && t.initialized == 1
      invariant !t.slots[0].Live() && t.slots[0].sequence == k % 0x100
    {
      var again := RequestOnce(t, device, command, now, keep);
      h := t.ReleaseHandle(again);
    }
    free := t.HandleToAddress(first);
    next := RequestOnce(t, device, command, now, keep);
  }

  /** A create on a table of one free slot. */
  method RequestOnce(t: Table, device: Device, command: u16, now: Time, keep: nat -> bool) returns (handle: nat)
    requires t.Valid() && t.slots.Length == 1 && device in t.devices && !t.Start()[0].Live()
    modifies t, t.slots
    ensures t.Valid() && t.initialized == 1
    ensures handle == Handle(0, old(t.Start())[0].sequence)
    ensures t.slots[0].Live() && t.slots[0].sequence == old(t.Start())[0].sequence
  {
    hide Consistent, Counts, TickSlots, TickCalls, FirstFree, MadeRoom, Table.Created, Table.Retries;
    var r;
    r, handle := t.Create(device, command, now, keep);
    assert t.slots[0] == t.slots[..][0];
  }

  /** A call into the table. */
  datatype Op =
    | CreateOp(device: Device?, command: u16)
    | TickOp
    | SendOp(handle: int, answer: Status)
    | ResponseOp(from: Device, frameType: u8, frameId: u8, command: u16)
    | ReleaseOp(handle: int)
    | CommandOp(handle: int, command: u16)
    | CallbackOp(handle: int, callback: bool, context: nat)
    | TargetOp(handle: int, target: Target)
    | FlagsOp(handle: int, add: bool, queue: bool, reuseHandle: bool)

  /** A live request after it was sent, or not. */
  function AfterSend(s: Slot, id: u8, wrote: bool, now: Time, wait: nat): Slot {
    var t := s.(frameId := id);
    if !wrote then t
    else if id != 0 then t.(timeout := now.after(wait))
    else if t.reuseHandle then t
    else Freed(t)
  }

  lemma FreedIs(s: Slot)
    ensures Freed(s) == s.(device := null, sequence := (s.sequence + 1) % 0x100)
  {
  }

  lemma ConsistentSizes(slots: seq<Slot>, releases: seq<nat>, issued: seq<Issue>)
    requires Consistent(slots, releases, issued)
    ensures |releases| == |slots|
  {
  }

  lemma MatchesAre(slots: seq<Slot>, device: Device, frameId: u8, command: u16, remote: bool)
    ensures forall j :: 0 <= j < |slots| ==>
      var s := slots[j];
      Matches(s, device, frameId, command, remote) <==>
      s.device == device && s.frameId == frameId && s.command == command && (s.target.Remote? <==> remote)
  {
  }

  lemma NoneMatch(slots: seq<Slot>, device: Device, frameId: u8, command: u16, remote: bool)
    requires forall j :: 0 <= j < |slots| ==> !Matches(slots[j], device, frameId, command, remote)
    ensures FirstMatch(slots, device, frameId, command, remote) == Missing
  {
  }

  lemma IsFirstMatch(slots: seq<Slot>, device: Device, frameId: u8, command: u16, remote: bool, i: nat)
    requires i < |slots| && Matches(slots[i], device, frameId, command, remote)
    requires forall j :: 0 <= j < i ==> !Matches(slots[j], device, frameId, command, remote)
    ensures FirstMatch(slots, device, frameId, command, remote) == At(i)
  {
  }

  lemma CreatedMade(t: seq<Slot>, after: seq<Slot>, r: Status, handle: nat, device: Device, command: u16, now: Time)
    ensures (match FirstFree(t)
             case Missing => r == NoSpace && after == t
             case At(i) => i < |t| && r == Done && handle == Handle(i, t[i].sequence) && after == t[i := Fresh(t[i], device, command, now)])
      ==> Made(t, after, r, handle, device, command, now)
  {
    hide FirstFree;
  }

  lemma MadeFirst(t: seq<Slot>, after: seq<Slot>, r: Status, handle: nat, device: Device, command: u16, now: Time)
    requires |t| > 0 && t == seq(|t|, _ => Zeroed()) && Made(t, after, r, handle, device, command, now)
    ensures r == Done && handle == 0 && after == OneRequest(|t|, device, command, now)
  {
    ClearedFree(t);
  }

  /** The cases of a create, for the table it searched. */
  lemma CreateCases(t: seq<Slot>, after: seq<Slot>, r: Status, handle: nat, device: Device, command: u16,
                    now: Time, keep: nat -> bool, lastTime: u8)
    requires if FirstFree(t).Missing? && lastTime != now.seconds % 0x100
             then Made(TickSlots(t, now, keep, |t|), after, r, handle, device, command, now)
             else Made(t, after, r, handle, device, command, now)
    ensures forall i :: 0 <= i < |t| && t[i].device == null && (forall j :: 0 <= j < i ==> t[j].device != null) ==>
      && r == Done && handle == i * 0x100 + t[i].sequence
      && after == t[i := Slot(device, t[i].sequence, now.after(2), 0, command, Local, false, false, false, 0)]
    ensures lastTime == now.seconds % 0x100 && (forall j :: 0 <= j < |t| ==> t[j].device != null) ==>
      r == NoSpace && after == t
    ensures lastTime != now.seconds % 0x100 && (forall j :: 0 <= j < |t| ==> t[j].device != null) ==>
      MadeRoom(t, after, r, handle, device, command, now, keep)
  {
    hide FirstFree, TickSlots, Made, MadeRoom;
    if forall j :: 0 <= j < |t| ==> t[j].device != null {
      NoneFree(t);
      if lastTime != now.seconds % 0x100 {
        MadeAfterTick(t, after, r, handle, device, command, now, keep);
      } else {
        MadeInRoom(t, after, r, handle, device, command, now);
      }
    } else {
      SomeFirst(t);
      var i: nat :| i < |t| && t[i].device == null && forall j :: 0 <= j < i ==> t[j].device != null;
      FindsFree(t, i);
      MadeInRoom(t, after, r, handle, device, command, now);
    }
  }

  /** A request that a tick releases. */
  predicate GivesUp(s: Slot, now: Time, keep: bool) {
    s.device != null && now.due(s.timeout) && !(s.callback && keep)
  }

  function Released(s: Slot): Slot { s.(device := null, sequence := (s.sequence + 1) % 0x100) }

  /** The table with its very first request. */
  function OneRequest(size: nat, device: Device, command: u16, now: Time): seq<Slot> {
    seq(size, i => if i == 0 then Slot(device, 0, now.after(2), 0, command, Local, false, false, false, 0)
                   else Slot(null, 0, 0, 0, 0, Local, false, false, false, 0))
  }

  /** A create on a full table that a tick may clear: the first request given up makes room; if none is, there is none. */
  ghost predicate MadeRoom(before: seq<Slot>, after: seq<Slot>, r: Status, handle: nat, device: Device, command: u16,
                           now: Time, keep: nat -> bool)
  {
    && |after| == |before|
    && (r == NoSpace <==> forall j :: 0 <= j < |before| ==> !GivesUp(before[j], now, keep(j)))
    && (forall i :: 0 <= i < |before| && GivesUp(before[i], now, keep(i)) && (forall j :: 0 <= j < i ==> !GivesUp(before[j], now, keep(j))) ==>
      var q := (before[i].sequence + 1) % 0x100;
      && r == Done && handle == i * 0x100 + q
      && after[i] == Slot(device, q, now.after(2), 0, command, Local, false, false, false, 0)
      && forall j :: 0 <= j < |before| && j != i ==>
        after[j] == if GivesUp(before[j], now, keep(j)) then Released(before[j]) else before[j])
  }

  /** What a search over `t` leaves: the request in the slot it found, or the table as it was. */
  ghost predicate Made(t: seq<Slot>, after: seq<Slot>, r: Status, handle: nat, device: Device, command: u16, now: Time) {
    match FirstFree(t)
    case Missing => r == NoSpace && after == t
    case At(i) =>
      && i < |t| && r == Done && handle == i * 0x100 + t[i].sequence
      && after == t[i := Slot(device, t[i].sequence, now.after(2), 0, command, Local, false, false, false, 0)]
  }

  /** The search finds the first free slot, if there is one. */
  lemma FindsFree(slots: seq<Slot>, i: nat)
    requires i < |slots| && slots[i].device == null && forall j :: 0 <= j < i ==> slots[j].device != null
    ensures FirstFree(slots) == At(i)
  {
    assert !slots[i].Live();
  }

  lemma MadeInRoom(t: seq<Slot>, after: seq<Slot>, r: Status, handle: nat, device: Device, command: u16, now: Time)
    requires Made(t, after, r, handle, device, command, now)
    ensures forall i :: 0 <= i < |t| && t[i].device == null && (forall j :: 0 <= j < i ==> t[j].device != null) ==>
      && r == Done && handle == i * 0x100 + t[i].sequence
      && after == t[i := Slot(device, t[i].sequence, now.after(2), 0, command, Local, false, false, false, 0)]
    ensures (forall j :: 0 <= j < |t| ==> t[j].device != null) ==> r == NoSpace && after == t
  {
    hide FirstFree;
    forall i | 0 <= i < |t| && t[i].device == null && (forall j :: 0 <= j < i ==> t[j].device != null)
      ensures FirstFree(t) == At(i)
    {
      FindsFree(t, i);
    }
    if forall j :: 0 <= j < |t| ==> t[j].device != null { NoneFree(t); }
  }

  lemma MadeAfterTick(before: seq<Slot>, after: seq<Slot>, r: Status, handle: nat, device: Device, command: u16,
                      now: Time, keep: nat -> bool)
    requires forall j :: 0 <= j < |before| ==> before[j].device != null
    requires Made(TickSlots(before, now, keep, |before|), after, r, handle, device, command, now)
    ensures MadeRoom(before, after, r, handle, device, command, now, keep)
  {
    hide Made, TickSlots, FirstFree;
    var t := TickSlots(before, now, keep, |before|);
    Ticked(before, now, keep);
    MadeInRoom(t, after, r, handle, device, command, now);
    if exists j :: 0 <= j < |t| && t[j].device == null {
      SomeFirst(t);
      var i: nat :| i < |t| && t[i].device == null && forall j :: 0 <= j < i ==> t[j].device != null;
      assert r == Done;
      RoomAt(before, t, after, r, handle, device, command, now, keep, i);
    } else {
      assert r == NoSpace && after == t;
    }
  }

  lemma Ticked(before: seq<Slot>, now: Time, keep: nat -> bool)
    requires forall j :: 0 <= j < |before| ==> before[j].device != null
    ensures var t := TickSlots(before, now, keep, |before|);
      && (forall j :: 0 <= j < |t| ==> t[j] == if GivesUp(before[j], now, keep(j)) then Released(before[j]) else before[j])
      && (forall j :: 0 <= j < |t| ==> (t[j].device == null <==> GivesUp(before[j], now, keep(j))))
  {
  }

  /** The first request given up is the one whose slot is used. */
  lemma RoomAt(before: seq<Slot>, t: seq<Slot>, after: seq<Slot>, r: Status, handle: nat, device: Device, command: u16,
               now: Time, keep: nat -> bool, i: nat)
    requires |t| == |before| && i < |t| && r == Done
    requires forall j :: 0 <= j < |t| ==> t[j] == if GivesUp(before[j], now, keep(j)) then Released(before[j]) else before[j]
    requires forall j :: 0 <= j < |t| ==> (t[j].device == null <==> GivesUp(before[j], now, keep(j)))
    requires t[i].device == null && forall j :: 0 <= j < i ==> t[j].device != null
    requires handle == i * 0x100 + t[i].sequence
    requires after == t[i := Slot(device, t[i].sequence, now.after(2), 0, command, Local, false, false, false, 0)]
    ensures MadeRoom(before, after, r, handle, device, command, now, keep)
  {
    forall k | 0 <= k < |before| && GivesUp(before[k], now, keep(k)) && (forall j :: 0 <= j < k ==> !GivesUp(before[j], now, keep(j)))
      ensures k == i
    {
      assert t[k].device == null && GivesUp(before[i], now, keep(i));
    }
    hide GivesUp;
  }

  /** Some slot is free, so some slot is the first free one. */
  lemma SomeFirst(t: seq<Slot>)
    requires exists j :: 0 <= j < |t| && t[j].device == null
    ensures exists i :: 0 <= i < |t| && t[i].device == null && forall j :: 0 <= j < i ==> t[j].device != null
  {
    var i := 0;
    while t[i].device != null
      invariant i < |t| && (exists j :: i <= j < |t| && t[j].device == null)
      invariant forall j :: 0 <= j < i ==> t[j].device != null
      decreases |t| - i
    {
      i := i + 1;
    }
  }

  lemma TickIs(was: seq<Slot>, now: Time, keep: nat -> bool)
    ensures forall i :: 0 <= i < |was| ==>
      var s := was[i];
      TickSlots(was, now, keep, |was|)[i] == if s.device != null && now.due(s.timeout) && !(s.callback && keep(i))
        then s.(device := null, sequence := (s.sequence + 1) % 0x100) else s
  {
  }

  lemma TickSequence(s: Slot, now: Time, keep: bool)
    ensures TickSlot(s, now, keep) == s || TickSlot(s, now, keep).sequence == (s.sequence + 1) % 0x100
  {
  }

  lemma TickNone(was: seq<Slot>, now: Time, keep: nat -> bool)
    ensures TickSlots(was, now, keep, 0) == was && CountExpired(was, now, 0) == 0 && TickCalls(was, now, 0) == []
  {
  }

  lemma TickNext(was: seq<Slot>, now: Time, keep: nat -> bool, i: nat)
    requires i < |was|
    ensures TickSlots(was, now, keep, i)[i] == was[i]
    ensures TickSlots(was, now, keep, i + 1) == TickSlots(was, now, keep, i)[i := TickSlot(was[i], now, keep(i))]
    ensures CountExpired(was, now, i + 1) == CountExpired(was, now, i) + (if Expired(was[i], now) then 1 else 0)
    ensures TickCalls(was, now, i + 1) == TickCalls(was, now, i) + CallFor(i, was[i], now)
  {
  }

  /** A cleared table has a free slot. */
  lemma ClearedFree(slots: seq<Slot>)
    requires |slots| > 0 && slots == seq(|slots|, _ => Zeroed())
    ensures FirstFree(slots) == At(0)
  {
    assert slots[0] == Zeroed();
    IsFirstFree(slots, 0);
  }

  lemma FoundFree(slots: seq<Slot>)
    ensures FirstFree(slots).At? ==> FirstFree(slots).index < |slots| && !slots[FirstFree(slots).index].Live()
  {
  }

  lemma NoneFree(slots: seq<Slot>)
    requires forall j :: 0 <= j < |slots| ==> slots[j].Live()
    ensures FirstFree(slots) == Missing
  {
  }

  lemma IsFirstFree(slots: seq<Slot>, i: nat)
    requires i < |slots| && !slots[i].Live() && forall j :: 0 <= j < i ==> slots[j].Live()
    ensures FirstFree(slots) == At(i)
  {
  }
}
