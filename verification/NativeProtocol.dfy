// The byte stream between the console and the microcontroller in native mode: which
// commands a stream of bytes means, however it is cut up.  firmware/src/spi.c,
// firmware/src/spi_cmd.c, docs/content/developer/mcu_protocol.md

module NativeProtocol {
  import opened Words

  const MAX_PACKET := 512

  const CMD_ECHO := 0x00
  const CMD_MODE := 0x01
  const CMD_FREQ := 0x02
  const CMD_ID := 0x03
  const CMD_INFO := 0x04
  const CMD_REG_READ := 0x08
  const CMD_REG_WRITE := 0x09
  const CMD_VERSION := 0x0F
  const CMD_EEPROM_MODE := 0x10
  const CMD_EEPROM_ERASE := 0x11
  const CMD_EEPROM_READ := 0x12
  const CMD_EEPROM_WRITE := 0x13
  const CMD_RTC_COMMAND := 0x14
  const CMD_EEPROM_GET_MODE := 0x15
  const CMD_SET_SAVE_ID := 0x16
  const CMD_GET_SAVE_ID := 0x17
  const CMD_USB_CDC_READ := 0x40
  const CMD_USB_CDC_WRITE := 0x41
  const CMD_USB_HID_WRITE := 0x42
  const CMD_USB_CDC_AVAILABLE := 0x43
  const CMD_USB_CDC_FLUSH := 0x44
  const CMD_ACCEL_POLL := 0x50
  const CMD_ACCEL_READ := 0x51

  function ArgToLen(arg: nat): nat {
    if arg == 0 then 512 else arg
  }

  /** rtc_start_command_rx */
  function RtcLength(arg: nat): nat {
    match arg % 16
    case 2 => 1
    case 4 => 7
    case 6 => 3
    case 8 => 2
    case 10 => 2
    case _ => 0
  }

  /** The payload length that a command word announces: bits 0-6 select, bits 7-15 count. */
  function RxLength(cmd: u16): nat {
    var id, arg := cmd % 0x80, cmd / 0x80;
    if id == CMD_ECHO || id == CMD_USB_CDC_WRITE || id == CMD_USB_HID_WRITE then ArgToLen(arg)
    else if id == CMD_EEPROM_WRITE then 2 * ArgToLen(arg) + 2
    else if id == CMD_EEPROM_READ || id == CMD_REG_WRITE then 2
    else if id == CMD_SET_SAVE_ID then 4
    else if id == CMD_RTC_COMMAND then RtcLength(arg)
    else 0
  }

  /** The packet buffer takes every payload that a command word can announce, except those of
      EEPROM writes of more than 255 words. */
  lemma PayloadFitsIff(cmd: u16)
    ensures RxLength(cmd) <= MAX_PACKET <==> cmd % 0x80 != CMD_EEPROM_WRITE || 1 <= cmd / 0x80 <= 255
  {
    var arg := cmd / 0x80;
    assert arg < 0x200;
    assert ArgToLen(arg) <= MAX_PACKET;
    hide ArgToLen;
    if cmd % 0x80 == CMD_EEPROM_WRITE {
      WriteLength(cmd);
    }
  }

  lemma WriteLength(cmd: u16)
    requires cmd % 0x80 == CMD_EEPROM_WRITE
    ensures RxLength(cmd) == 2 + 2 * (if cmd / 0x80 == 0 then 512 else cmd / 0x80)
  {
  }

  datatype Call = Call(cmd: u16, payload: seq<u8>)

  /** Between commands with a byte in the queue (0xFF for none), or collecting a payload. */
  datatype Mid = Idle(queue: u8) | Collect(cmd: u16, got: seq<u8>)

  datatype Scanned = Scanned(calls: seq<Call>, mid: Mid)

  const START := Scanned([], Idle(0xFF))

  function Word(low: u8, high: u8): u16 {
    low as int + 0x100 * high as int
  }

  /** What one received byte adds. */
  function Take(s: Scanned, b: u8): Scanned {
    match s.mid
    case Idle(q) =>
      if q == 0xFF then s.(mid := Idle(b))
      else if RxLength(Word(q, b)) == 0 then Scanned(s.calls + [Call(Word(q, b), [])], Idle(0xFF))
      else s.(mid := Collect(Word(q, b), []))
    case Collect(cmd, got) =>
      if |got| + 1 == RxLength(cmd) then Scanned(s.calls + [Call(cmd, got + [b])], Idle(0xFF))
      else s.(mid := Collect(cmd, got + [b]))
  }

  function Scan(s: Scanned, bytes: seq<u8>): Scanned
    decreases |bytes|
  {
    if bytes == [] then s else Scan(Take(s, bytes[0]), bytes[1..])
  }

  // ----- what a host sends -----

  /** Idle bytes, then a command word, then its payload. */
  datatype Message = Message(idle: nat, cmd: u16, payload: seq<u8>)

  /** The documented rules: 0x7F with an odd parameter is reserved to tell commands from idle
      bytes, the payload has the announced length and fits the packet buffer. */
  predicate Legal(m: Message) {
    m.cmd % 0x100 != 0xFF && |m.payload| == RxLength(m.cmd) && |m.payload| <= MAX_PACKET
  }

  function Fillers(n: nat): (r: seq<u8>)
    ensures |r| == n && forall i :: 0 <= i < n ==> r[i] == 0xFF
  {
    seq(n, _ => 0xFF)
  }

  function Sent(m: Message): seq<u8> {
    Fillers(m.idle) + [m.cmd % 0x100, m.cmd / 0x100] + m.payload
  }

  function Stream(ms: seq<Message>): seq<u8> {
    if ms == [] then [] else Sent(ms[0]) + Stream(ms[1..])
  }

  function Calls(ms: seq<Message>): (cs: seq<Call>)
    ensures |cs| == |ms| && forall i :: 0 <= i < |ms| ==> cs[i] == Call(ms[i].cmd, ms[i].payload)
  {
    seq(|ms|, i requires 0 <= i < |ms| => Call(ms[i].cmd, ms[i].payload))
  }

  // ----- scanning in pieces -----

  lemma {:induction false} ScanConcat(s: Scanned, a: seq<u8>, b: seq<u8>)
    ensures Scan(s, a + b) == Scan(Scan(s, a), b)
    decreases |a|
  {
    hide Take;
    if a == [] {
      assert a + b == b;
    } else {
      assert (a + b)[1..] == a[1..] + b;
      ScanConcat(Take(s, a[0]), a[1..], b);
    }
  }

  lemma ScanSnoc(s: Scanned, a: seq<u8>, x: u8)
    ensures Scan(s, a + [x]) == Take(Scan(s, a), x)
  {
    hide Take;
    ScanConcat(s, a, [x]);
    assert [x][1..] == [];
  }

  lemma {:induction false} ScanExtends(s: Scanned, a: seq<u8>)
    ensures s.calls <= Scan(s, a).calls
    decreases |a|
  {
    if a != [] {
      ScanExtends(Take(s, a[0]), a[1..]);
    }
  }

  lemma {:induction false} ScanFillers(cs: seq<Call>, n: nat)
    ensures Scan(Scanned(cs, Idle(0xFF)), Fillers(n)) == Scanned(cs, Idle(0xFF))
  {
    if n > 0 {
      assert Fillers(n)[1..] == Fillers(n - 1);
      ScanFillers(cs, n - 1);
    }
  }

  lemma {:induction false} ScanPayload(cs: seq<Call>, cmd: u16, got: seq<u8>, rest: seq<u8>)
    requires rest != [] && |got| + |rest| == RxLength(cmd)
    ensures Scan(Scanned(cs, Collect(cmd, got)), rest) == Scanned(cs + [Call(cmd, got + rest)], Idle(0xFF))
    decreases |rest|
  {
    hide RxLength;
    if |rest| == 1 {
      assert rest[1..] == [] && rest == [rest[0]];
    } else {
      ScanPayload(cs, cmd, got + [rest[0]], rest[1..]);
      assert got + [rest[0]] + rest[1..] == got + rest;
    }
  }

  lemma ScanTwo(s: Scanned, a: u8, b: u8)
    ensures Scan(s, [a, b]) == Take(Take(s, a), b)
  {
    hide Take;
    assert [a, b] == [a] + [b];
    ScanSnoc(s, [a], b);
    assert [a] == [] + [a];
    ScanSnoc(s, [], a);
    ScanNothing(s);
  }

  lemma ScanMessage(cs: seq<Call>, m: Message)
    requires Legal(m)
    ensures Scan(Scanned(cs, Idle(0xFF)), Sent(m)) == Scanned(cs + [Call(m.cmd, m.payload)], Idle(0xFF))
  {
    hide RxLength;
    var s := Scanned(cs, Idle(0xFF));
    var low, high := m.cmd % 0x100, m.cmd / 0x100;
    ScanFillers(cs, m.idle);
    ScanConcat(s, Fillers(m.idle), [low, high] + m.payload);
    assert Sent(m) == Fillers(m.idle) + ([low, high] + m.payload);
    ScanConcat(s, [low, high], m.payload);
    assert Word(low, high) == m.cmd;
    ScanTwo(s, low, high);
    if m.payload == [] {
      ScanNothing(Take(Take(s, low), high));
    } else {
      ScanPayload(cs, m.cmd, [], m.payload);
      assert [] + m.payload == m.payload;
    }
  }

  /** The reserved command word is not seen as a command; every other one is, exactly. */
  lemma MessageIsSeenIff(m: Message)
    requires |m.payload| == RxLength(m.cmd) && |m.payload| <= MAX_PACKET
    ensures Scan(START, Sent(m)) == Scanned([Call(m.cmd, m.payload)], Idle(0xFF)) <==> m.cmd % 0x100 != 0xFF
  {
    if m.cmd % 0x100 == 0xFF {
      assert RxLength(m.cmd) == 0;
      hide RxLength;
      var high := m.cmd / 0x100;
      assert Sent(m) == Fillers(m.idle) + [0xFF, high];
      ScanConcat(START, Fillers(m.idle), [0xFF, high]);
      ScanFillers([], m.idle);
      ScanTwo(START, 0xFF, high);
    } else {
      ScanMessage([], m);
      assert [] + [Call(m.cmd, m.payload)] == [Call(m.cmd, m.payload)];
    }
  }

  lemma {:induction false} ScanMessages(cs: seq<Call>, ms: seq<Message>)
    requires forall m :: m in ms ==> Legal(m)
    ensures Scan(Scanned(cs, Idle(0xFF)), Stream(ms)) == Scanned(cs + Calls(ms), Idle(0xFF))
    decreases |ms|
  {
    hide Take, Legal, Sent, Scan;
    if ms == [] {
      assert cs + Calls(ms) == cs;
      ScanNothing(Scanned(cs, Idle(0xFF)));
    } else {
      assert ms[0] in ms && forall m :: m in ms[1..] ==> m in ms;
      ScanConcat(Scanned(cs, Idle(0xFF)), Sent(ms[0]), Stream(ms[1..]));
      ScanMessage(cs, ms[0]);
      var call := Call(ms[0].cmd, ms[0].payload);
      ScanMessages(cs + [call], ms[1..]);
      assert cs + [call] + Calls(ms[1..]) == cs + Calls(ms);
    }
  }

  lemma ScanNothing(s: Scanned)
    ensures Scan(s, []) == s
  {
  }

  /** Main result: a stream of legal messages, with idle bytes anywhere between them, means
      exactly those commands and payloads, and every prefix of it means a prefix of them. */
  lemma StreamMeansMessages(ms: seq<Message>, k: nat)
    requires (forall m :: m in ms ==> Legal(m)) && k <= |Stream(ms)|
    ensures Scan(START, Stream(ms)) == Scanned(Calls(ms), Idle(0xFF))
    ensures Scan(START, Stream(ms)[..k]).calls <= Calls(ms)
  {
    hide Take, Legal, Sent, Scan, Stream;
    ScanMessages([], ms);
    assert [] + Calls(ms) == Calls(ms);
    var w := Stream(ms);
    assert w == w[..k] + w[k..];
    ScanConcat(START, w[..k], w[k..]);
    ScanExtends(Scan(START, w[..k]), w[k..]);
  }

  // ----- the payload buffer never overflows -----

  /** No prefix of the wire announces a payload longer than the packet buffer. */
  ghost predicate Safe(wire: seq<u8>) {
    forall k :: 0 <= k <= |wire| ==>
      var mid := Scan(START, wire[..k]).mid; mid.Collect? ==> RxLength(mid.cmd) <= MAX_PACKET
  }

  /** A payload being collected becomes the next call. */
  lemma {:induction false} CollectBecomesCall(s: Scanned, rest: seq<u8>)
    requires s.mid.Collect? && Scan(s, rest).mid.Idle?
    ensures |s.calls| < |Scan(s, rest).calls| && Scan(s, rest).calls[|s.calls|].cmd == s.mid.cmd
    decreases |rest|
  {
    hide RxLength;
    var t := Take(s, rest[0]);
    if t.mid.Collect? {
      CollectBecomesCall(t, rest[1..]);
    } else {
      ScanExtends(t, rest[1..]);
    }
  }

  /** The wire ends between commands, and every payload on it fits the packet buffer. */
  ghost predicate Whole(wire: seq<u8>) {
    var s := Scan(START, wire);
    s.mid.Idle? && forall c :: c in s.calls ==> RxLength(c.cmd) <= MAX_PACKET
  }

  lemma StreamIsWhole(ms: seq<Message>)
    requires forall m :: m in ms ==> Legal(m)
    ensures Whole(Stream(ms)) && Scan(START, Stream(ms)).calls == Calls(ms)
  {
    hide Scan, Stream, RxLength;
    StreamMeansMessages(ms, 0);
    forall c | c in Calls(ms) ensures RxLength(c.cmd) <= MAX_PACKET {
      var i :| 0 <= i < |ms| && Calls(ms)[i] == c;
      assert Legal(ms[i]);
    }
  }

  lemma StreamIsSafe(ms: seq<Message>)
    requires forall m :: m in ms ==> Legal(m)
    ensures Safe(Stream(ms))
  {
    hide Take, Scan, Stream, RxLength;
    var w := Stream(ms);
    forall k | 0 <= k <= |w|
      ensures var mid := Scan(START, w[..k]).mid; mid.Collect? ==> RxLength(mid.cmd) <= MAX_PACKET
    {
      var s := Scan(START, w[..k]);
      if s.mid.Collect? {
        StreamMeansMessages(ms, k);
        assert w == w[..k] + w[k..];
        ScanConcat(START, w[..k], w[k..]);
        CollectBecomesCall(s, w[k..]);
        assert ms[|s.calls|] in ms;
      }
    }
  }

  // ----- responses -----

  /** What executing a command gives: bytes, an error, or (for the mode switch) no answer. */
  datatype Reply = Data(bytes: seq<u8>) | Failed | Silent

  predicate Fits(r: Reply) {
    r.Data? ==> |r.bytes| <= MAX_PACKET
  }

  /** rtc_finish_command_rx */
  function RtcReplyLength(arg: nat): nat {
    match arg % 16
    case 3 => 1
    case 5 => 7
    case 7 => 3
    case 9 => 2
    case 11 => 2
    case _ => 0
  }

  /** How long the reply to a command is, where the command word alone decides it. */
  function ReplyLength(cmd: u16): Option<nat> {
    var id, arg := cmd % 0x80, cmd / 0x80;
    if id == CMD_EEPROM_READ then Some(2 * ArgToLen(arg))
    else if id == CMD_RTC_COMMAND then Some(RtcReplyLength(arg))
    else if id == CMD_ID then Some(12)
    else if id == CMD_INFO || id == CMD_ACCEL_READ then Some(6)
    else if id == CMD_VERSION || id == CMD_GET_SAVE_ID then Some(4)
    else if id == CMD_REG_READ || id == CMD_USB_CDC_WRITE || id == CMD_USB_CDC_AVAILABLE then Some(2)
    else if id == CMD_FREQ || id == CMD_EEPROM_MODE || id == CMD_EEPROM_GET_MODE
            || id == CMD_SET_SAVE_ID || id == CMD_ACCEL_POLL then Some(1)
    else if id == CMD_REG_WRITE || id == CMD_EEPROM_ERASE || id == CMD_EEPROM_WRITE
            || id == CMD_USB_HID_WRITE || id == CMD_USB_CDC_FLUSH then Some(0)
    else None
  }

  /** Is `r` a reply that spi_native_finish_command_rx can give? */
  predicate FirmwareReply(c: Call, r: Reply) {
    var id, arg := c.cmd % 0x80, c.cmd / 0x80;
    if id == CMD_MODE then r.Silent?
    else if id == CMD_ECHO then r == Data(c.payload)
    else if id == CMD_USB_CDC_READ then r.Data? && |r.bytes| <= ArgToLen(arg)
    else if ReplyLength(c.cmd).Some? then r.Data? && |r.bytes| == ReplyLength(c.cmd).value
    else r.Failed?
  }

  /** The firmware's reply fits the packet buffer, except to EEPROM reads of more than 256 words,
      which run past its end. */
  lemma ReplyFitsIff(c: Call, r: Reply)
    requires |c.payload| == RxLength(c.cmd) && FirmwareReply(c, r)
    ensures Fits(r) <==> c.cmd % 0x80 != CMD_EEPROM_READ || 1 <= c.cmd / 0x80 <= 256
  {
    var arg := c.cmd / 0x80;
    assert arg < 0x200;
    assert ArgToLen(arg) <= MAX_PACKET && (ArgToLen(arg) <= 256 <==> 1 <= arg <= 256);
    hide ArgToLen;
  }

  /** The replies to the commands of a list fit.  A reply may depend on all that was executed
      before, so it is a function of the list up to its command. */
  ghost predicate FitsFor(respond: seq<Call> -> Reply, calls: seq<Call>) {
    forall k :: 0 < k <= |calls| ==> Fits(respond(calls[..k]))
  }

  lemma FitsPrefix(respond: seq<Call> -> Reply, calls: seq<Call>, some: seq<Call>)
    requires FitsFor(respond, calls) && some <= calls
    ensures FitsFor(respond, some) && (some != [] ==> Fits(respond(some)))
  {
    forall k | 0 < k <= |some| ensures Fits(respond(some[..k])) {
      assert some[..k] == calls[..k];
    }
    assert some[..|some|] == some;
  }

  /** A device that replies as the firmware does, asked nothing but legal messages with no
      EEPROM read of more than 256 words. */
  lemma LegalRepliesFit(respond: seq<Call> -> Reply, ms: seq<Message>)
    requires forall k :: 0 < k <= |ms| ==> FirmwareReply(Calls(ms)[k - 1], respond(Calls(ms)[..k]))
    requires forall m :: m in ms ==> Legal(m)
    requires forall m :: m in ms ==> m.cmd % 0x80 != CMD_EEPROM_READ || 1 <= m.cmd / 0x80 <= 256
    ensures FitsFor(respond, Scan(START, Stream(ms)).calls)
  {
    hide Scan, Stream, FirmwareReply, RxLength, Fits;
    StreamIsWhole(ms);
    forall k | 0 < k <= |ms| ensures Fits(respond(Calls(ms)[..k])) {
      assert ms[k - 1] in ms;
      ReplyFitsIff(Calls(ms)[k - 1], respond(Calls(ms)[..k]));
    }
  }

  /** Header and data as transmitted: the length in bits 1-15, or 1 for an error. */
  function Frame(r: Reply): seq<u8>
    requires Fits(r)
  {
    match r
    case Data(bytes) => [2 * |bytes| % 0x100, 2 * |bytes| / 0x100] + bytes
    case Failed => [1, 0]
    case Silent => []
  }

  /** The first header byte is even or 1, so it cannot be taken for an idle byte. */
  lemma FrameStartsClear(r: Reply)
    requires Fits(r) && !r.Silent?
    ensures |Frame(r)| >= 2 && Frame(r)[0] != 0xFF
    ensures r.Data? ==> Frame(r)[0] as int + 256 * Frame(r)[1] as int == 2 * |r.bytes| && Frame(r)[2..] == r.bytes
    ensures r.Failed? ==> Frame(r) == [1, 0]
  {
  }

  /** The line from the microcontroller: answers in order, each after a run of idle bytes. */
  function Weave(idle: seq<nat>, frames: seq<seq<u8>>): seq<u8>
    requires |idle| == |frames|
  {
    if frames == [] then []
    else
      var n := |frames| - 1;
      Weave(idle[..n], frames[..n]) + Fillers(idle[n]) + frames[n]
  }

  lemma WeaveSnoc(idle: seq<nat>, frames: seq<seq<u8>>, n: nat, f: seq<u8>)
    requires |idle| == |frames|
    ensures Weave(idle + [n], frames + [f]) == Weave(idle, frames) + Fillers(n) + f
  {
    assert (idle + [n])[..|frames|] == idle && (frames + [f])[..|frames|] == frames;
  }

  /** The frames that a list of commands is answered with; the mode switch is not answered. */
  ghost function Answers(respond: seq<Call> -> Reply, calls: seq<Call>): seq<seq<u8>>
    requires FitsFor(respond, calls)
    decreases |calls|
  {
    if calls == [] then []
    else
      var n := |calls| - 1;
      FitsPrefix(respond, calls, calls);
      FitsPrefix(respond, calls, calls[..n]);
      var r := respond(calls);
      Answers(respond, calls[..n]) + (if r.Silent? then [] else [Frame(r)])
  }
}
