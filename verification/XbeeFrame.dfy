/**
 XBee API framing (XBee/xbee_device.c) as values: the frame format and a parser
 that takes one byte at a time.
 */
module XbeeProtocol {
  import opened Words

  const START: u8 := 0x7E

  function Sum(bytes: seq<u8>): nat {
    if bytes == [] then 0 else Sum(bytes[..|bytes| - 1]) + bytes[|bytes| - 1]
  }

  /** What is left of `initial` after subtracting every byte, modulo 256. */
  function Checksum(bytes: seq<u8>, initial: u8): u8 { (initial - Sum(bytes)) % 0x100 }

  /** Start marker, big-endian length, payload, checksum. The length field keeps 16 bits. */
  function Frame(payload: seq<u8>): seq<u8> {
    [START, |payload| % 0x1_0000 / 0x100, |payload| % 0x100] + payload + [Checksum(payload, 0xFF)]
  }

  function Frames(payloads: seq<seq<u8>>): seq<u8> {
    if payloads == [] then [] else Frame(payloads[0]) + Frames(payloads[1..])
  }

  datatype Rx = WaitStart | LengthMsb | LengthLsb(msb: u8) | Receiving(len: nat, got: seq<u8>)

  /** The receiver's state and the payloads dispatched so far. */
  datatype Parsed = Parsed(rx: Rx, out: seq<seq<u8>>)

  /** One received byte. `max` is the longest payload accepted. */
  function Step(max: nat, p: Parsed, b: u8): Parsed {
    match p.rx
    case WaitStart => p.(rx := if b == START then LengthMsb else WaitStart)
    case LengthMsb => p.(rx := if b == START then LengthMsb else LengthLsb(b))
    case LengthLsb(msb) =>
      var length := msb * 0x100 + b;
      if length > max || length < 2 then p.(rx := if b == START then LengthMsb else WaitStart)
      else p.(rx := Receiving(length, []))
    case Receiving(len, got) => Collect(p, len, got + [b])
  }

  /** Bytes of a frame are in; dispatch it if it is complete and sums up. */
  function Collect(p: Parsed, len: nat, got: seq<u8>): Parsed {
    if |got| < len + 1 then p.(rx := Receiving(len, got))
    else Parsed(WaitStart, if |got| == len + 1 && Checksum(got, 0xFF) == 0 then p.out + [got[..len]] else p.out)
  }

  function Parse(max: nat, p: Parsed, bytes: seq<u8>): Parsed
    decreases |bytes|
  {
    if bytes == [] then p else Parse(max, Step(max, p, bytes[0]), bytes[1..])
  }

  function Start(): Parsed { Parsed(WaitStart, []) }

  lemma {:induction false} ParseAppend(max: nat, p: Parsed, x: seq<u8>, y: seq<u8>)
    ensures Parse(max, p, x + y) == Parse(max, Parse(max, p, x), y)
    decreases |x|
  {
    hide Step;
    if x == [] {
      assert x + y == y;
    } else {
      assert (x + y)[1..] == x[1..] + y;
      ParseAppend(max, Step(max, p, x[0]), x[1..], y);
    }
  }

  lemma ParseOne(max: nat, p: Parsed, b: u8)
    ensures Parse(max, p, [b]) == Step(max, p, b)
  {
    hide Step;
    assert [b][1..] == [];
  }

  /** Chunks of a frame body may be collected at once, whatever their size. */
  lemma {:induction false} ParseBody(max: nat, out: seq<seq<u8>>, len: nat, got: seq<u8>, bytes: seq<u8>)
    requires |got| + |bytes| <= len + 1 && |got| <= len
    ensures Parse(max, Parsed(Receiving(len, got), out), bytes)
         == Collect(Parsed(Receiving(len, got), out), len, got + bytes)
    decreases |bytes|
  {
    hide Checksum;
    if bytes == [] {
      assert got + bytes == got;
    } else {
      var p := Parsed(Receiving(len, got), out);
      assert got + [bytes[0]] + bytes[1..] == got + bytes;
      if |bytes| == 1 {
        assert bytes == [bytes[0]];
        ParseOne(max, p, bytes[0]);
      } else {
        ParseBody(max, out, len, got + [bytes[0]], bytes[1..]);
      }
    }
  }

  lemma {:induction false} ParseJunk(max: nat, out: seq<seq<u8>>, junk: seq<u8>)
    requires START !in junk
    ensures Parse(max, Parsed(WaitStart, out), junk) == Parsed(WaitStart, out)
    decreases |junk|
  {
    if junk != [] {
      assert junk[0] in junk && forall b <- junk[1..] :: b in junk;
      ParseJunk(max, out, junk[1..]);
    }
  }

  // ---------------------------------------------------------------------
  // Checksums
  // ---------------------------------------------------------------------

  lemma SumSnoc(bytes: seq<u8>, b: u8)
    ensures Sum(bytes + [b]) == Sum(bytes) + b
  {
    assert (bytes + [b])[..|bytes|] == bytes;
  }

  lemma {:induction false} SumUpdate(bytes: seq<u8>, i: nat, b: u8)
    requires i < |bytes|
    ensures Sum(bytes[i := b]) == Sum(bytes) - bytes[i] + b
    decreases |bytes|
  {
    var n := |bytes| - 1;
    var c := bytes[i := b];
    if i < n {
      SumUpdate(bytes[..n], i, b);
      assert c[..n] == bytes[..n][i := b];
    } else {
      assert c[..n] == bytes[..n];
    }
  }

  lemma {:induction false} SumAppend(x: seq<u8>, y: seq<u8>)
    ensures Sum(x + y) == Sum(x) + Sum(y)
    decreases |y|
  {
    if y == [] {
      assert x + y == x;
    } else {
      assert (x + y)[..|x + y| - 1] == x + y[..|y| - 1];
      SumAppend(x, y[..|y| - 1]);
    }
  }

  /** The checksum of two blocks can be taken one block after the other. */
  lemma ChecksumAppend(x: seq<u8>, y: seq<u8>, initial: u8)
    ensures Checksum(x + y, initial) == Checksum(y, Checksum(x, initial))
  {
    SumAppend(x, y);
  }

  lemma ChecksumSnoc(bytes: seq<u8>, b: u8, initial: u8)
    ensures Checksum(bytes + [b], initial) == (Checksum(bytes, initial) - b) % 0x100
  {
    hide Sum;
    SumSnoc(bytes, b);
    var x := initial - Sum(bytes);
    ModAdd(x - b, 0x100, -(x / 0x100));
    assert x - b + 0x100 * -(x / 0x100) == x % 0x100 - b;
  }

  lemma ChecksumNone(initial: u8)
    ensures Checksum([], initial) == initial
  {
  }

  /** A body with its checksum appended sums to zero. */
  lemma ChecksumCloses(payload: seq<u8>)
    ensures Checksum(payload + [Checksum(payload, 0xFF)], 0xFF) == 0
  {
    SumSnoc(payload, Checksum(payload, 0xFF));
  }

  /** Changing any one byte of it breaks the sum. */
  lemma ChecksumBreaks(payload: seq<u8>, i: nat, b: u8)
    requires i <= |payload|
    requires b != (payload + [Checksum(payload, 0xFF)])[i]
    ensures Checksum((payload + [Checksum(payload, 0xFF)])[i := b], 0xFF) != 0
  {
    var body := payload + [Checksum(payload, 0xFF)];
    ChecksumCloses(payload);
    SumUpdate(body, i, b);
  }

  // ---------------------------------------------------------------------
  // Writer against receiver
  // ---------------------------------------------------------------------

  /** Lengths the receiver takes: in range, and with a first byte that is no start marker. */
  predicate Acceptable(max: nat, n: nat) { 2 <= n <= max && n < 0x1_0000 && n / 0x100 != START }

  /** The three header bytes of a frame of acceptable length put the receiver to work on the body. */
  lemma ParseHeader(max: nat, out: seq<seq<u8>>, n: nat)
    requires Acceptable(max, n)
    ensures Parse(max, Parsed(WaitStart, out), [START, n % 0x1_0000 / 0x100, n % 0x100])
         == Parsed(Receiving(n, []), out)
  {
    var h: seq<u8> := [START, n % 0x1_0000 / 0x100, n % 0x100];
    assert h[1..] == [n % 0x1_0000 / 0x100, n % 0x100] && h[1..][1..] == [n % 0x100] && h[1..][1..][1..] == [];
    var p := Parsed(WaitStart, out);
    var p1 := Step(max, p, h[0]);
    var p2 := Step(max, p1, h[1]);
    assert n % 0x1_0000 / 0x100 * 0x100 + n % 0x100 == n;
    assert Step(max, p2, h[2]) == Parsed(Receiving(n, []), out);
    assert Parse(max, p2, h[2..]) == Step(max, p2, h[2]) by { ParseOne(max, p2, h[2]); assert h[2..] == [h[2]]; }
    assert Parse(max, p1, h[1..]) == Parse(max, p2, h[2..]);
  }

  /** A body of the announced length is dispatched if it sums up and dropped if it does not. */
  lemma ParseFrameBody(max: nat, out: seq<seq<u8>>, n: nat, body: seq<u8>)
    requires Acceptable(max, n) && |body| == n + 1
    ensures Parse(max, Parsed(WaitStart, out), [START, n % 0x1_0000 / 0x100, n % 0x100] + body)
         == Parsed(WaitStart, if Checksum(body, 0xFF) == 0 then out + [body[..n]] else out)
  {
    hide Checksum, Parse;
    var h: seq<u8> := [START, n % 0x1_0000 / 0x100, n % 0x100];
    ParseAppend(max, Parsed(WaitStart, out), h, body);
    ParseHeader(max, out, n);
    ParseBody(max, out, n, [], body);
    assert [] + body == body;
  }

  lemma ParseFrame(max: nat, out: seq<seq<u8>>, payload: seq<u8>)
    requires Acceptable(max, |payload|)
    ensures Parse(max, Parsed(WaitStart, out), Frame(payload)) == Parsed(WaitStart, out + [payload])
  {
    hide Checksum, Parse;
    var body := payload + [Checksum(payload, 0xFF)];
    ChecksumCloses(payload);
    ParseFrameBody(max, out, |payload|, body);
    assert Frame(payload) == [START, |payload| % 0x1_0000 / 0x100, |payload| % 0x100] + body;
    assert body[..|payload|] == payload;
  }

  // ---------------------------------------------------------------------
  // Resynchronisation
  // ---------------------------------------------------------------------

  /** A length the loader refuses. */
  predicate BadLength(max: nat, n: nat) { n < 2 || n > max }

  /**
   A frame is dispatched from every state in which its start marker cannot belong to
   another frame: waiting for one, behind one, or where it completes a bad length.
   */
  lemma FrameFrom(max: nat, rx: Rx, out: seq<seq<u8>>, payload: seq<u8>)
    requires Acceptable(max, |payload|)
    requires rx.WaitStart? || rx.LengthMsb? || (rx.LengthLsb? && BadLength(max, rx.msb * 0x100 + START))
    ensures Parse(max, Parsed(rx, out), Frame(payload)) == Parsed(WaitStart, out + [payload])
  {
    hide Checksum;
    var f := Frame(payload);
    assert f[0] == START;
    assert Step(max, Parsed(rx, out), START) == Parsed(LengthMsb, out);
    assert Parse(max, Parsed(rx, out), f) == Parse(max, Parsed(LengthMsb, out), f[1..]);
    assert Parse(max, Parsed(WaitStart, out), f) == Parse(max, Parsed(LengthMsb, out), f[1..]);
    hide Parse;
    ParseFrame(max, out, payload);
  }

  lemma {:induction false} ParseMarkers(max: nat, out: seq<seq<u8>>, k: nat)
    ensures Parse(max, Parsed(WaitStart, out), seq(k, _ => START))
         == Parsed(if k == 0 then WaitStart else LengthMsb, out)
    ensures Parse(max, Parsed(LengthMsb, out), seq(k, _ => START)) == Parsed(LengthMsb, out)
    decreases k
  {
    if k > 0 {
      var s: seq<u8> := seq(k, _ => START);
      assert s[1..] == seq(k - 1, _ => START);
      ParseMarkers(max, out, k - 1);
    }
  }

  /** However many start markers come before a frame, the last one counts. */
  lemma MarkersBefore(max: nat, k: nat, payload: seq<u8>)
    requires Acceptable(max, |payload|)
    ensures Parse(max, Start(), seq(k, _ => START) + Frame(payload)) == Parsed(WaitStart, [payload])
  {
    hide Parse, Frame;
    ParseAppend(max, Start(), seq(k, _ => START), Frame(payload));
    ParseMarkers(max, [], k);
    FrameFrom(max, if k == 0 then WaitStart else LengthMsb, [], payload);
    assert [] + [payload] == [payload];
  }

  /** A length the loader refuses costs no frame, not even one whose start marker was its second byte. */
  lemma BadLengthBefore(max: nat, m: u8, payload: seq<u8>)
    requires m != START && BadLength(max, m * 0x100 + START) && Acceptable(max, |payload|)
    ensures Parse(max, Start(), [START, m] + Frame(payload)) == Parsed(WaitStart, [payload])
  {
    hide Frame;
    var h: seq<u8> := [START, m];
    assert h[1..] == [m] && h[1..][1..] == [];
    assert Parse(max, Start(), h) == Parsed(LengthLsb(m), []) by {
      ParseOne(max, Step(max, Start(), START), m);
    }
    ParseAppend(max, Start(), h, Frame(payload));
    FrameFrom(max, LengthLsb(m), [], payload);
    assert [] + [payload] == [payload];
  }

  /** Nor does one whose second byte is no start marker. */
  lemma BadHeaderBefore(max: nat, m: u8, l: u8, payload: seq<u8>)
    requires m != START && l != START && BadLength(max, m * 0x100 + l) && Acceptable(max, |payload|)
    ensures Parse(max, Start(), [START, m, l] + Frame(payload)) == Parsed(WaitStart, [payload])
  {
    hide Frame;
    var h: seq<u8> := [START, m, l];
    assert h[1..] == [m, l] && h[1..][1..] == [l];
    assert Parse(max, Start(), h) == Parsed(WaitStart, []) by {
      ParseOne(max, Parsed(LengthLsb(m), []), l);
      assert Parse(max, Parsed(LengthMsb, []), h[1..]) == Parse(max, Parsed(LengthLsb(m), []), [l]);
    }
    ParseAppend(max, Start(), h, Frame(payload));
    FrameFrom(max, WaitStart, [], payload);
    assert [] + [payload] == [payload];
  }

  /** The bytes of one frame: marker, two length bytes with the high one first, payload, checksum. */
  lemma FrameExample()
    ensures Frame([0x8A, 0x00]) == [0x7E, 0x00, 0x02, 0x8A, 0x00, 0x75]
  {
    var p: seq<u8> := [0x8A, 0x00];
    assert p[..1] == [0x8A] && p[..1][..0] == [];
    assert Sum(p) == Sum(p[..1]) + 0 && Sum(p[..1]) == 0x8A;
  }

  /** A frame with one byte of payload or checksum changed. */
  function Damaged(payload: seq<u8>, i: nat, b: u8): seq<u8>
    requires i <= |payload|
  {
    Frame(payload)[i + 3 := b]
  }

  lemma ParseDamaged(max: nat, out: seq<seq<u8>>, payload: seq<u8>, i: nat, b: u8)
    requires Acceptable(max, |payload|) && i <= |payload| && b != Frame(payload)[i + 3]
    ensures Parse(max, Parsed(WaitStart, out), Damaged(payload, i, b)) == Parsed(WaitStart, out)
  {
    hide Checksum, Parse;
    var body := payload + [Checksum(payload, 0xFF)];
    ChecksumBreaks(payload, i, b);
    ParseFrameBody(max, out, |payload|, body[i := b]);
    assert Damaged(payload, i, b) == [START, |payload| % 0x1_0000 / 0x100, |payload| % 0x100] + body[i := b];
  }

  /** Payloads the receiver takes. */
  predicate Fits(max: nat, payloads: seq<seq<u8>>) { forall p <- payloads :: Acceptable(max, |p|) }

  lemma {:induction false} ParseFrames(max: nat, out: seq<seq<u8>>, payloads: seq<seq<u8>>)
    requires Fits(max, payloads)
    ensures Parse(max, Parsed(WaitStart, out), Frames(payloads)) == Parsed(WaitStart, out + payloads)
    decreases |payloads|
  {
    hide Parse, Frame;
    if payloads == [] {
      assert Frames(payloads) == [] && out + payloads == out;
      ParseNone(max, Parsed(WaitStart, out));
    } else {
      ParseAppend(max, Parsed(WaitStart, out), Frame(payloads[0]), Frames(payloads[1..]));
      ParseFrame(max, out, payloads[0]);
      ParseFrames(max, out + [payloads[0]], payloads[1..]);
      assert out + [payloads[0]] + payloads[1..] == out + payloads;
    }
  }

  lemma ParseNone(max: nat, p: Parsed)
    ensures Parse(max, p, []) == p
  {
  }

  /**
   What is sent is dispatched, exactly and in order, behind any junk without a
   start marker; a damaged frame in between is dropped and takes nothing with it.
   */
  lemma StreamDispatched(max: nat, junk: seq<u8>, before: seq<seq<u8>>, payload: seq<u8>, i: nat, b: u8,
                         after: seq<seq<u8>>)
    requires START !in junk && Fits(max, before) && Fits(max, after)
    requires Acceptable(max, |payload|) && i <= |payload| && b != Frame(payload)[i + 3]
    ensures Parse(max, Start(), junk + Frames(before)) == Parsed(WaitStart, before)
    ensures Parse(max, Start(), junk + Frames(before) + Damaged(payload, i, b) + Frames(after))
         == Parsed(WaitStart, before + after)
  {
    hide Parse, Frames, Damaged;
    ParseAppend(max, Start(), junk, Frames(before));
    ParseJunk(max, [], junk);
    ParseFrames(max, [], before);
    assert [] + before == before;
    ParseAppend(max, Start(), junk + Frames(before), Damaged(payload, i, b));
    ParseDamaged(max, before, payload, i, b);
    ParseAppend(max, Start(), junk + Frames(before) + Damaged(payload, i, b), Frames(after));
    ParseFrames(max, before, after);
  }

  lemma {:induction false} ParseOutGrows(max: nat, p: Parsed, bytes: seq<u8>)
    ensures p.out <= Parse(max, p, bytes).out
    decreases |bytes|
  {
    hide Checksum;
    if bytes != [] {
      ParseOutGrows(max, Step(max, p, bytes[0]), bytes[1..]);
    }
  }

  /** Part of a stream never dispatches more than the whole of it. */
  lemma PrefixDispatched(max: nat, junk: seq<u8>, payloads: seq<seq<u8>>, part: seq<u8>)
    requires START !in junk && Fits(max, payloads) && part <= junk + Frames(payloads)
    ensures Parse(max, Start(), part).out <= payloads
    ensures part == junk + Frames(payloads) ==> Parse(max, Start(), part) == Parsed(WaitStart, payloads)
  {
    hide Parse, Frames;
    var all := junk + Frames(payloads);
    ParseAppend(max, Start(), junk, Frames(payloads));
    ParseJunk(max, [], junk);
    ParseFrames(max, [], payloads);
    assert [] + payloads == payloads;
    assert all == part + all[|part|..];
    ParseAppend(max, Start(), part, all[|part|..]);
    ParseOutGrows(max, Parse(max, Start(), part), all[|part|..]);
  }

  /** Only lengths the loader accepts are ever being received or dispatched. */
  predicate InRange(max: nat, p: Parsed) {
    && Fits(max, p.out)
    && (p.rx.LengthLsb? ==> p.rx.msb != START)
    && (p.rx.Receiving? ==> Acceptable(max, p.rx.len) && |p.rx.got| <= p.rx.len)
  }

  lemma {:induction false} ParseInRange(max: nat, p: Parsed, bytes: seq<u8>)
    requires InRange(max, p)
    ensures InRange(max, Parse(max, p, bytes))
    decreases |bytes|
  {
    hide Checksum;
    if bytes != [] {
      ParseInRange(max, Step(max, p, bytes[0]), bytes[1..]);
    }
  }

  /**
   The writer sends payloads of every length from 1; alone on an idle line, one
   comes out of the loader exactly when its length is from 2 to `max`, fits the
   length field and does not put a start marker there.
   */
  lemma FrameAccepted(max: nat, payload: seq<u8>)
    ensures Parse(max, Start(), Frame(payload)).out == [payload] <==> Acceptable(max, |payload|)
  {
    hide Parse, Frame;
    if Acceptable(max, |payload|) {
      ParseFrame(max, [], payload);
    } else {
      ParseInRange(max, Start(), Frame(payload));
      assert payload in [payload];
    }
  }
}

/** The device object: frame writer, receive state machine and tick. */
module XbeeDevice {
  import opened Words
  import opened XbeeProtocol

  /** Return codes of the C functions. */
  datatype Status = Ok | Invalid | NoData | Busy | MsgSize

  /** `xbee->rx.state`; `Unknown` stands for any other stored value. */
  datatype RxState = WaitingStart | LenMsb | LenLsb | RxFrame | Unknown

  /** How a part of the receive loop ends: leave the loop, fall through, or start over. */
  datatype Flow = Exit | Fall | Again

  /** `_xbee_checksum` */
  method XbeeChecksum(bytes: seq<u8>, initial: u8) returns (checksum: u8)
    ensures checksum == Checksum(bytes, initial)
  {
    hide Checksum;
    checksum := initial;
    var i: nat := 0;
    assert bytes[..0] == [];
    ChecksumNone(initial);
    while i < |bytes|
      invariant i <= |bytes| && checksum == Checksum(bytes[..i], initial)
    {
      assert bytes[..i + 1] == bytes[..i] + [bytes[i]];
      ChecksumSnoc(bytes[..i], bytes[i], initial);
      checksum := (checksum - bytes[i]) % 0x100;
      i := i + 1;
    }
    assert bytes[..i] == bytes;
  }

  class Device {
    /** `XBEE_MAX_RX_FRAME_LEN` and `XBEE_DEV_MAX_DISPATCH_PER_TICK` */
    const max: nat
    const cap: nat
    /** Serial port: received bytes not yet read, and the transmit buffer with its size. */
    var input: seq<u8>
    var tx: seq<u8>
    const txSize: nat
    /** Whether the port always hands over all it has, as far as asked for. */
    const prompt: bool
    /** `xbee->rx` */
    var state: RxState
    var bytesInFrame: nat
    var bytesRead: nat
    const frameData: array<u8>
    var inTick: bool
    /** Bytes the state machine has taken, and payloads handed to the dispatcher. */
    ghost var consumed: seq<u8>
    var dispatched: seq<seq<u8>>

    /** The receiver's state as the byte-at-a-time parser sees it. */
    ghost function Abs(): Parsed
      requires bytesRead <= frameData.Length
      reads this, frameData
    {
      Parsed(match state
             case WaitingStart => WaitStart
             case LenMsb => LengthMsb
             case LenLsb => LengthLsb(bytesInFrame / 0x100 % 0x100)
             case RxFrame => Receiving(bytesInFrame, frameData[..bytesRead])
             case Unknown => WaitStart,
             dispatched)
    }

    /** State and output are those of the parser on the bytes consumed so far. */
    ghost predicate Valid()
      reads this, frameData
    {
      && 0 < cap && 2 <= max < 0x1_0000 && frameData.Length == max + 1
      && bytesInFrame < 0x1_0000 && bytesRead <= max
      && (state == LenLsb ==> bytesInFrame % 0x100 == 0)
      && (state == RxFrame ==> 2 <= bytesInFrame <= max && bytesRead <= bytesInFrame)
      && Abs() == Parse(max, XbeeProtocol.Start(), consumed)
    }

    constructor (max: nat, cap: nat, txSize: nat, prompt: bool)
      requires 2 <= max < 0x1_0000 && cap > 0
      ensures Valid() && input == [] && tx == [] && dispatched == [] && consumed == [] && !inTick
      ensures this.max == max && this.cap == cap && this.txSize == txSize && this.prompt == prompt
    {
      this.max, this.cap, this.txSize, this.prompt := max, cap, txSize, prompt;
      input, tx, dispatched, consumed := [], [], [], [];
      state, bytesInFrame, bytesRead, inTick := WaitingStart, 0, 0, false;
      frameData := new u8[max + 1];
      new;
      ParseNone(max, XbeeProtocol.Start());
    }

    /** `k` more bytes have moved from the port into the state machine. */
    twostate predicate Moved()
      reads this, frameData
    {
      && Valid() && old(consumed) <= consumed && old(dispatched) <= dispatched
      && consumed + input == old(consumed) + old(input)
      && tx == old(tx) && inTick == old(inTick)
    }

    /** `xbee_ser_read`: up to `n` of the waiting bytes; short reads are possible at any time, unless the port is prompt. */
    method SerRead(n: nat) returns (bytes: seq<u8>)
      modifies this`input
      ensures |bytes| <= n && old(input) == bytes + input
      ensures prompt ==> |bytes| == n || input == []
    {
      var k: nat :| k <= n && k <= |input| && (prompt ==> k == n || k == |input|);
      bytes, input := input[..k], input[k..];
    }

    /** Waiting for the start marker: skip to it. */
    method ReadStart() returns (flow: Flow)
      requires Valid() && state == WaitingStart
      modifies this`input, this`state, this`consumed
      ensures Moved() && dispatched == old(dispatched)
      ensures (flow == Exit && state == WaitingStart) || (flow == Fall && state == LenMsb)
      ensures prompt && flow == Exit ==> input == []
      ensures flow == Fall ==> |input| < |old(input)|
    {
      hide Parse;
      while true
        invariant Moved() && state == WaitingStart && dispatched == old(dispatched)
        invariant |input| <= |old(input)|
        decreases |input|
      {
        var got := SerRead(1);
        if |got| != 1 {
          return Exit;
        }
        var ch := got[0];
        assert got == [ch];
        ParseAppend(max, XbeeProtocol.Start(), consumed, [ch]);
        ParseOne(max, Abs(), ch);
        Regroup(consumed, [ch], input);
        consumed := consumed + [ch];
        if ch == START {
          state := LenMsb;
          return Fall;
        }
      }
    }

    /** Waiting for the length's first byte, which can never be a start marker. */
    method ReadMsb() returns (flow: Flow)
      requires Valid() && state == LenMsb
      modifies this`input, this`state, this`consumed, this`bytesInFrame
      ensures Moved() && dispatched == old(dispatched)
      ensures flow == Fall ==> state == LenLsb
      ensures prompt && flow == Exit ==> input == []
      ensures flow != Exit ==> |input| < |old(input)|
    {
      hide Parse;
      var got := SerRead(1);
      if |got| == 0 {
        return Exit;
      }
      var ch := got[0];
      assert got == [ch];
      ParseAppend(max, XbeeProtocol.Start(), consumed, [ch]);
      ParseOne(max, Abs(), ch);
      Regroup(consumed, [ch], input);
      consumed := consumed + [ch];
      if ch == START {
        return Again;
      }
      var msb: nat := ch;
      bytesInFrame := msb * 0x100;
      state := LenLsb;
      return Fall;
    }

    /** The second length byte; a bad length may still end in a start marker. */
    method ReadLsb() returns (flow: Flow)
      requires Valid() && state == LenLsb
      modifies this`input, this`state, this`consumed, this`bytesInFrame, this`bytesRead
      ensures Moved() && dispatched == old(dispatched)
      ensures flow == Fall ==> state == RxFrame
      ensures prompt && flow == Exit ==> input == []
      ensures flow != Exit ==> |input| < |old(input)|
    {
      hide Parse;
      var got := SerRead(1);
      if |got| == 0 {
        return Exit;
      }
      var ch := got[0];
      assert got == [ch];
      ParseAppend(max, XbeeProtocol.Start(), consumed, [ch]);
      ParseOne(max, Abs(), ch);
      Regroup(consumed, [ch], input);
      consumed := consumed + [ch];
      LengthBytes(bytesInFrame, ch);
      bytesInFrame := bytesInFrame + ch;
      var length := bytesInFrame;
      if length > max || length < 2 {
        state := if ch == START then LenMsb else WaitingStart;
        return Again;
      }
      state := RxFrame;
      bytesRead := 0;
      assert frameData[..0] == [];
      return Fall;
    }

    /** Frame body and checksum: as much as the port gives; dispatch when complete and correct. */
    method ReadBody() returns (flow: Flow)
      requires Valid() && state == RxFrame
      modifies this`input, this`state, this`consumed, this`bytesRead, this`dispatched, frameData
      ensures Moved()
      ensures flow != Exit ==> |input| < |old(input)| && state == WaitingStart
      ensures prompt && flow == Exit ==> input == []
      ensures |dispatched| == |old(dispatched)| + if flow == Fall then 1 else 0
    {
      hide Parse, Checksum;
      ghost var before := frameData[..bytesRead];
      var bytesLeft := bytesInFrame - bytesRead + 1;
      var got := SerRead(bytesLeft);
      Fill(got);
      ParseAppend(max, XbeeProtocol.Start(), consumed, got);
      ParseBody(max, dispatched, bytesInFrame, before, got);
      Regroup(consumed, got, input);
      consumed := consumed + got;
      if |got| != bytesLeft {
        bytesRead := bytesRead + |got|;
        return Exit;
      }
      flow := Deliver();
    }

    /** The checksum test at the end of a frame, and the dispatch. */
    method Deliver() returns (flow: Flow)
      requires 0 < cap && 2 <= max < 0x1_0000 && frameData.Length == max + 1
      requires 2 <= bytesInFrame <= max && bytesRead <= max
      requires var body := frameData[..bytesInFrame + 1];
        Parse(max, XbeeProtocol.Start(), consumed)
        == Parsed(WaitStart, if Checksum(body, 0xFF) == 0 then dispatched + [body[..bytesInFrame]] else dispatched)
      modifies this`state, this`dispatched
      ensures Valid() && state == WaitingStart && flow != Exit
      ensures old(dispatched) <= dispatched && |dispatched| == |old(dispatched)| + if flow == Fall then 1 else 0
    {
      hide Parse, Checksum;
      state := WaitingStart;
      var sum := XbeeChecksum(frameData[..bytesInFrame + 1], 0xFF);
      if sum != 0 {
        return Again;
      }
      assert frameData[..bytesInFrame] == frameData[..bytesInFrame + 1][..bytesInFrame];
      dispatched := dispatched + [frameData[..bytesInFrame]];
      return Fall;
    }

    /** Store received bytes behind those already in the frame buffer. */
    method Fill(bytes: seq<u8>)
      requires bytesRead + |bytes| <= frameData.Length
      modifies frameData
      ensures frameData[..bytesRead + |bytes|] == old(frameData[..bytesRead]) + bytes
    {
      var i: nat := 0;
      while i < |bytes|
        invariant i <= |bytes|
        invariant frameData[..bytesRead + i] == old(frameData[..bytesRead]) + bytes[..i]
      {
        ghost var done := frameData[..bytesRead + i];
        frameData[bytesRead + i] := bytes[i];
        assert frameData[..bytesRead + i + 1] == done + [bytes[i]];
        i := i + 1;
      }
    }

    /** The default branch of the switch: any other state starts over. */
    method ResetState()
      requires Valid() && state == Unknown
      modifies this`state
      ensures Moved() && state == WaitingStart && dispatched == old(dispatched)
    {
      hide Parse;
      state := WaitingStart;
    }

    /** One pass of the `for (;;)` loop, cases falling through as in the C switch. */
    method Pass() returns (flow: Flow)
      requires Valid()
      modifies this`input, this`state, this`consumed, this`bytesInFrame, this`bytesRead, this`dispatched, frameData
      ensures Moved() && |dispatched| == |old(dispatched)| + if flow == Fall then 1 else 0
      ensures prompt && flow == Exit ==> input == []
      ensures flow != Exit ==> |input| < |old(input)| || (input == old(input) && old(state) == Unknown && state == WaitingStart)
    {
      hide Parse, Abs;
      flow := Fall;
      if state == WaitingStart {
        flow := ReadStart();
      }
      if flow == Fall && state == LenMsb {
        flow := ReadMsb();
      }
      if flow == Fall && state == LenLsb {
        flow := ReadLsb();
      }
      if flow == Fall {
        if state == RxFrame {
          flow := ReadBody();
        } else {
          ResetState();
          flow := Again;
        }
      }
    }

    /**
     `_xbee_frame_load`: whatever the reads return and wherever the dispatch cap cuts
     it off, state and output stay those of the parser on the bytes consumed. Short
     reads and the cap are the only things that stop it.
     */
    method FrameLoad() returns (n: nat)
      requires Valid()
      modifies this`input, this`state, this`consumed, this`bytesInFrame, this`bytesRead, this`dispatched, frameData
      ensures Moved() && n <= cap && |dispatched| == |old(dispatched)| + n
      ensures prompt && n < cap ==> input == [] && consumed == old(consumed) + old(input)
    {
      hide Parse, Abs;
      n := 0;
      while true
        invariant Moved() && n < cap && |dispatched| == |old(dispatched)| + n
        decreases |input|, state == Unknown
      {
        var flow := Pass();
        if flow == Exit {
          return;
        }
        if flow == Fall {
          n := n + 1;
          if n == cap {
            return;
          }
        }
      }
    }

    /** `xbee_dev_tick`: refuses to run inside itself. */
    method Tick() returns (status: Status, n: nat)
      requires Valid()
      modifies this`input, this`state, this`consumed, this`bytesInFrame, this`bytesRead, this`dispatched, this`inTick,
               frameData
      ensures Moved()
      ensures status == if old(inTick) then Busy else Ok
      ensures n <= cap && |dispatched| == |old(dispatched)| + n
      ensures status == Busy ==> n == 0 && consumed == old(consumed)
      ensures status == Ok && prompt && n < cap ==> input == [] && consumed == old(consumed) + old(input)
    {
      if inTick {
        return Busy, 0;
      }
      inTick := true;
      n := FrameLoad();
      inTick := false;
      status := Ok;
    }

    /**
     `xbee_frame_write`: header and data, each optional, go out as one frame or not
     at all. `cts` is the modem's signal, absent if it cannot be read.
     */
    method FrameWrite(header: Option<seq<u8>>, data: Option<seq<u8>>, useFlowControl: bool, cts: Option<bool>)
      returns (status: Status)
      requires Valid() && |tx| <= txSize
      modifies this`tx
      ensures |tx| <= txSize
      ensures var payload := Bytes(header) + Bytes(data); var size := |payload| + 4;
        && status == (if useFlowControl && cts.None? then Invalid
                      else if payload == [] then NoData
                      else if size > txSize then MsgSize
                      else if (useFlowControl && cts == Some(false)) || |old(tx)| + size > txSize then Busy
                      else Ok)
        && tx == if status == Ok then old(tx) + Frame(payload) else old(tx)
    {
      hide Checksum;
      var signal := if useFlowControl then cts else Some(true);
      if signal.None? {
        return Invalid;
      }
      var h, d := Bytes(header), Bytes(data);
      if |h| == 0 && |d| == 0 {
        return NoData;
      }
      var free, used := txSize - |tx|, |tx|;
      var frameSize: int := |h| + |d| + 3 + 1;
      if !signal.value || free < frameSize {
        return if frameSize - free > used then MsgSize else Busy;
      }
      Send(h, d);
      return Ok;
    }

    /** The sending half of `xbee_frame_write`, with the checksum carried from header to data. */
    method Send(h: seq<u8>, d: seq<u8>)
      modifies this`tx
      ensures tx == old(tx) + Frame(h + d)
    {
      hide Checksum, Frame;
      ghost var was := tx;
      var checksum: u8 := 0xFF;
      var length: nat := (|h| + |d|) % 0x1_0000;
      tx := tx + [START, length / 0x100, length % 0x100];
      ChecksumNone(checksum);
      ChecksumAppend(h, d, checksum);
      FrameParts(was, h, d);
      if |h| > 0 {
        tx := tx + h;
        checksum := XbeeChecksum(h, checksum);
      }
      if |d| > 0 {
        tx := tx + d;
        checksum := XbeeChecksum(d, checksum);
      }
      tx := tx + [checksum];
    }
  }

  /** A frame piece by piece; pieces that are empty need not be added. */
  lemma FrameParts(was: seq<u8>, h: seq<u8>, d: seq<u8>)
    ensures var length := (|h| + |d|) % 0x1_0000; var head := was + [START, length / 0x100, length % 0x100];
      && head + h + d + [Checksum(h + d, 0xFF)] == was + Frame(h + d)
      && (h == [] ==> head + h == head && h + d == d) && (d == [] ==> head + h + d == head + h && h + d == h)
  {
    hide Checksum, Frame;
    var length := (|h| + |d|) % 0x1_0000;
    FrameIs(h + d, length);
    var start: seq<u8> := [START, length / 0x100, length % 0x100];
    Pieces(was, start, h, d, [Checksum(h + d, 0xFF)]);
  }

  lemma FrameIs(payload: seq<u8>, length: nat)
    requires length == |payload| % 0x1_0000
    ensures Frame(payload) == [START, length / 0x100, length % 0x100] + payload + [Checksum(payload, 0xFF)]
  {
    hide Checksum;
    LowByte(|payload|);
  }

  lemma LowByte(n: nat)
    ensures n % 0x1_0000 % 0x100 == n % 0x100
  {
    var k := n / 0x1_0000 * 0x100;
    assert n % 0x1_0000 + 0x100 * k == n;
    ModAdd(n % 0x1_0000, 0x100, k);
  }

  lemma Pieces<T>(was: seq<T>, start: seq<T>, h: seq<T>, d: seq<T>, end: seq<T>)
    ensures (was + start) + h + d + end == was + (start + (h + d) + end)
    ensures h == [] ==> (was + start) + h == was + start && h + d == d
    ensures d == [] ==> (was + start) + h + d == (was + start) + h && h + d == h
  {
  }

  lemma LengthBytes(n: nat, ch: u8)
    requires n < 0x1_0000 && n % 0x100 == 0
    ensures n / 0x100 % 0x100 * 0x100 + ch == n + ch < 0x1_0000
  {
  }

  lemma Regroup(x: seq<u8>, y: seq<u8>, z: seq<u8>)
    ensures x + (y + z) == (x + y) + z && x <= x + y
  {
  }

  /** A null pointer or a value. */
  datatype Option<T> = None | Some(value: T)

  /** The bytes behind a pointer; a null pointer stands for none. */
  function Bytes(p: Option<seq<u8>>): seq<u8> { if p.Some? then p.value else [] }

  /** Whatever the chunks and the ticks, a receiver has dispatched a prefix of what was sent, and at the end all of it. */
  lemma Delivered(d: Device, junk: seq<u8>, payloads: seq<seq<u8>>)
    requires d.Valid() && START !in junk && Fits(d.max, payloads)
    requires d.consumed <= junk + Frames(payloads)
    ensures d.dispatched <= payloads
    ensures d.consumed == junk + Frames(payloads) ==> d.dispatched == payloads && d.state in {WaitingStart, Unknown}
  {
    hide Parse, Frames;
    PrefixDispatched(d.max, junk, payloads, d.consumed);
    assert d.Abs().out == d.dispatched;
  }

  /** A receiver that was sent start markers, however many, and then a frame has dispatched it. */
  lemma Resynchronised(d: Device, k: nat, payload: seq<u8>)
    requires d.Valid() && Acceptable(d.max, |payload|)
    requires d.consumed == seq(k, _ => START) + Frame(payload)
    ensures d.dispatched == [payload]
  {
    hide Frame, Parse;
    MarkersBefore(d.max, k, payload);
  }
}
