// The requests of the native protocol, as its documentation gives them: a number, a parameter
// and the bytes that follow.  The device takes every stream of them apart into the same
// requests.  docs/content/developer/mcu_protocol.md, firmware/src/spi_cmd.c, firmware/src/rtc.c

module NativeRequests {
  import opened Words
  import opened NativeProtocol
  import NativeSpi

  /** Where a request has no use for its parameter it is `spare`.  Packets for the clock are told
      apart by four bits of the parameter; the others are `rest`. */
  datatype Request =
    | Echo(bytes: seq<u8>)
    | SwitchMode(mode: nat)
    | SetFrequency(speed: nat)
    | GetUniqueId(spare: nat)
    | GetInfo(spare: nat)
    | ReadRegister(register: nat)
    | WriteRegister(register: nat, value: u16)
    | GetVersion(spare: nat)
    | SetEepromMode(kind: nat)
    | EraseEeprom(spare: nat)
    | ReadEeprom(count: nat, offset: u16)
    | WriteEeprom(offset: u16, words: seq<u16>)
    | RtcStatus(rest: nat, status: u8)
    | RtcDatetime(rest: nat, year: u8, month: u8, day: u8, weekday: u8, hour: u8, minute: u8, second: u8)
    | RtcClock(rest: nat, hour: u8, minute: u8, second: u8)
    | RtcAlarm(rest: nat, hour: u8, minute: u8)
    | RtcSpare(rest: nat, first: u8, next: u8)
    | RtcAsk(packet: nat)
    | GetEepromMode(spare: nat)
    | SetSaveId(places: nat, id0: u8, id1: u8, id2: u8, id3: u8)
    | GetSaveId(places: nat)
    | CdcRead(limit: nat)
    | CdcWrite(bytes: seq<u8>)
    | HidWrite(bytes: seq<u8>)
    | CdcAvailable(spare: nat)
    | CdcClear(spare: nat)
    | PollAccelerometer(rate: nat)
    | ReadAccelerometer(spare: nat)
    | Undefined(id: nat, param: nat)

  predicate IsDocumented(id: nat) {
    || id <= 0x04 || id == 0x08 || id == 0x09 || 0x0F <= id <= 0x17
    || 0x40 <= id <= 0x44 || id == 0x50 || id == 0x51
  }

  /** The packets for the clock that no bytes follow. */
  predicate AsksOnly(packet: nat) {
    packet % 16 != 2 && packet % 16 != 4 && packet % 16 != 6 && packet % 16 != 8 && packet % 16 != 10
  }

  /** Bits 0 to 6 of the first word. */
  function Id(r: Request): nat {
    match r
    case Echo(_) => 0x00
    case SwitchMode(_) => 0x01
    case SetFrequency(_) => 0x02
    case GetUniqueId(_) => 0x03
    case GetInfo(_) => 0x04
    case ReadRegister(_) => 0x08
    case WriteRegister(_, _) => 0x09
    case GetVersion(_) => 0x0F
    case SetEepromMode(_) => 0x10
    case EraseEeprom(_) => 0x11
    case ReadEeprom(_, _) => 0x12
    case WriteEeprom(_, _) => 0x13
    case RtcStatus(_, _) => 0x14
    case RtcDatetime(_, _, _, _, _, _, _, _) => 0x14
    case RtcClock(_, _, _, _) => 0x14
    case RtcAlarm(_, _, _) => 0x14
    case RtcSpare(_, _, _) => 0x14
    case RtcAsk(_) => 0x14
    case GetEepromMode(_) => 0x15
    case SetSaveId(_, _, _, _, _) => 0x16
    case GetSaveId(_) => 0x17
    case CdcRead(_) => 0x40
    case CdcWrite(_) => 0x41
    case HidWrite(_) => 0x42
    case CdcAvailable(_) => 0x43
    case CdcClear(_) => 0x44
    case PollAccelerometer(_) => 0x50
    case ReadAccelerometer(_) => 0x51
    case Undefined(id, _) => id
  }

  /** A count from 1 to 512 as a nine-bit parameter. */
  function Count(n: nat): nat {
    if n == 512 then 0 else n
  }

  /** Bits 7 to 15 of the first word. */
  function Param(r: Request): nat {
    match r
    case Echo(bytes) => Count(|bytes|)
    case SwitchMode(mode) => mode
    case SetFrequency(speed) => speed
    case ReadRegister(register) => register
    case WriteRegister(register, _) => register
    case SetEepromMode(kind) => kind
    case ReadEeprom(count, _) => Count(count)
    case WriteEeprom(_, words) => |words|
    case RtcStatus(rest, _) => rest * 16 + 2
    case RtcDatetime(rest, _, _, _, _, _, _, _) => rest * 16 + 4
    case RtcClock(rest, _, _, _) => rest * 16 + 6
    case RtcAlarm(rest, _, _) => rest * 16 + 8
    case RtcSpare(rest, _, _) => rest * 16 + 10
    case RtcAsk(packet) => packet
    case SetSaveId(places, _, _, _, _) => places
    case GetSaveId(places) => places
    case CdcRead(limit) => Count(limit)
    case CdcWrite(bytes) => Count(|bytes|)
    case HidWrite(bytes) => Count(|bytes|)
    case PollAccelerometer(rate) => rate
    case Undefined(_, param) => param
    case _ => r.spare
  }

  /** 16-bit words, the low byte of each first. */
  function WordBytes(ws: seq<u16>): (b: seq<u8>)
    ensures |b| == 2 * |ws|
  {
    seq(2 * |ws|, i requires 0 <= i < 2 * |ws| => if i % 2 == 0 then ws[i / 2] % 256 else ws[i / 2] / 256)
  }

  /** What follows the first word. */
  function Body(r: Request): seq<u8> {
    match r
    case Echo(bytes) => bytes
    case WriteRegister(_, value) => [value % 256, value / 256]
    case ReadEeprom(_, offset) => [offset % 256, offset / 256]
    case WriteEeprom(offset, words) => [offset % 256, offset / 256] + WordBytes(words)
    case RtcStatus(_, status) => [status]
    case RtcDatetime(_, year, month, day, weekday, hour, minute, second) =>
      [year, month, day, weekday, hour, minute, second]
    case RtcClock(_, hour, minute, second) => [hour, minute, second]
    case RtcAlarm(_, hour, minute) => [hour, minute]
    case RtcSpare(_, first, next) => [first, next]
    case SetSaveId(_, id0, id1, id2, id3) => [id0, id1, id2, id3]
    case CdcWrite(bytes) => bytes
    case HidWrite(bytes) => bytes
    case _ => []
  }

  /** The requests that can be expressed, and fit the device's packet buffer. */
  predicate Expressible(r: Request) {
    && Id(r) < 0x80 && Param(r) < 512
    && (r.Echo? || r.CdcWrite? || r.HidWrite? ==> 1 <= |r.bytes| <= 512)
    && (r.ReadEeprom? ==> 1 <= r.count <= 512)
    && (r.CdcRead? ==> 1 <= r.limit <= 512)
    && (r.WriteEeprom? ==> 1 <= |r.words| <= 255)
    && (r.RtcAsk? ==> AsksOnly(r.packet))
    && (r.Undefined? ==> !IsDocumented(r.id) && !(r.id == 0x7F && r.param % 2 == 1))
  }

  /** The bytes on the line: idle ones, the first word, the rest. */
  function OnLine(idle: nat, r: Request): seq<u8>
    requires Expressible(r)
  {
    Fillers(idle) + [Id(r) + 128 * (Param(r) % 2), Param(r) / 2] + Body(r)
  }

  function FirstWord(r: Request): u16
    requires Expressible(r)
  {
    Id(r) + 128 * Param(r)
  }

  function AsMessage(idle: nat, r: Request): Message
    requires Expressible(r)
  {
    Message(idle, FirstWord(r), Body(r))
  }

  lemma FirstWordParts(id: nat, param: nat)
    requires id < 0x80 && param < 512
    ensures (id + 128 * param) % 0x80 == id && (id + 128 * param) / 0x80 == param
    ensures (id + 128 * param) % 0x100 == id + 128 * (param % 2) && (id + 128 * param) / 0x100 == param / 2
  {
  }

  /** The payload length that the device derives from the first word is the one sent. */
  lemma LengthIsAnnounced(r: Request)
    requires Expressible(r)
    ensures RxLength(FirstWord(r)) == |Body(r)| <= MAX_PACKET
  {
    FirstWordParts(Id(r), Param(r));
  }

  lemma RequestIsLegal(idle: nat, r: Request)
    requires Expressible(r)
    ensures Legal(AsMessage(idle, r)) && Sent(AsMessage(idle, r)) == OnLine(idle, r)
  {
    hide RxLength, Body;
    LengthIsAnnounced(r);
    FirstWordParts(Id(r), Param(r));
  }

  // ----- a call is one request -----

  /** What the device executes is this request. */
  predicate Means(c: Call, r: Request) {
    Expressible(r) && c == Call(FirstWord(r), Body(r))
  }

  lemma SameWords(a: seq<u16>, b: seq<u16>)
    requires WordBytes(a) == WordBytes(b)
    ensures a == b
  {
    assert |WordBytes(a)| == |WordBytes(b)|;
    forall i | 0 <= i < |a| ensures a[i] == b[i] {
      assert WordBytes(a)[2 * i] == WordBytes(b)[2 * i] && WordBytes(a)[2 * i + 1] == WordBytes(b)[2 * i + 1];
    }
  }

  lemma OneMeaning(c: Call, a: Request, b: Request)
    requires Means(c, a) && Means(c, b)
    ensures a == b
  {
    FirstWordParts(Id(a), Param(a));
    FirstWordParts(Id(b), Param(b));
    if a.WriteEeprom? {
      assert Body(a)[2..] == WordBytes(a.words) && Body(b)[2..] == WordBytes(b.words);
      SameWords(a.words, b.words);
      assert Body(a)[0] == Body(b)[0] && Body(a)[1] == Body(b)[1];
    } else {
      hide FirstWord, WordBytes;
      assert Body(a) == Body(b) && Id(a) == Id(b) && Param(a) == Param(b);
    }
  }

  /** The words that bytes make up. */
  function FromBytes(b: seq<u8>): (ws: seq<u16>)
    requires |b| % 2 == 0
    ensures |ws| == |b| / 2
  {
    seq(|b| / 2, i requires 0 <= i < |b| / 2 => Word(b[2 * i], b[2 * i + 1]))
  }

  lemma BytesAgain(b: seq<u8>)
    requires |b| % 2 == 0
    ensures WordBytes(FromBytes(b)) == b
  {
    forall i | 0 <= i < |b| ensures WordBytes(FromBytes(b))[i] == b[i] {
      assert FromBytes(b)[i / 2] == Word(b[i / 2 * 2], b[i / 2 * 2 + 1]);
    }
  }

  function Uncount(param: nat): nat {
    if param == 0 then 512 else param
  }

  /** The request for the clock behind a packet and its bytes. */
  function ClockRequest(packet: nat, b: seq<u8>): Request
    requires |b| == RtcLength(packet)
  {
    var rest := packet / 16;
    match packet % 16
    case 2 => RtcStatus(rest, b[0])
    case 4 => RtcDatetime(rest, b[0], b[1], b[2], b[3], b[4], b[5], b[6])
    case 6 => RtcClock(rest, b[0], b[1], b[2])
    case 8 => RtcAlarm(rest, b[0], b[1])
    case 10 => RtcSpare(rest, b[0], b[1])
    case _ => RtcAsk(packet)
  }

  lemma ClockRequestMeans(packet: nat, b: seq<u8>)
    requires packet < 512 && |b| == RtcLength(packet)
    ensures var r := ClockRequest(packet, b);
            Expressible(r) && Id(r) == 0x14 && Param(r) == packet && Body(r) == b
  {
    assert packet == packet / 16 * 16 + packet % 16;
  }

  /** The request behind a command and its payload. */
  function RequestOf(c: Call): Request
    requires Legal(Message(0, c.cmd, c.payload))
  {
    var id, param, b := c.cmd % 0x80, c.cmd / 0x80, c.payload;
    if id == 0x00 then Echo(b)
    else if id == 0x01 then SwitchMode(param)
    else if id == 0x02 then SetFrequency(param)
    else if id == 0x03 then GetUniqueId(param)
    else if id == 0x04 then GetInfo(param)
    else if id == 0x08 then ReadRegister(param)
    else if id == 0x09 then WriteRegister(param, Word(b[0], b[1]))
    else if id == 0x0F then GetVersion(param)
    else if id == 0x10 then SetEepromMode(param)
    else if id == 0x11 then EraseEeprom(param)
    else if id == 0x12 then ReadEeprom(Uncount(param), Word(b[0], b[1]))
    else if id == 0x13 then WriteEeprom(Word(b[0], b[1]), FromBytes(b[2..]))
    else if id == 0x14 then ClockRequest(param, b)
    else if id == 0x15 then GetEepromMode(param)
    else if id == 0x16 then SetSaveId(param, b[0], b[1], b[2], b[3])
    else if id == 0x17 then GetSaveId(param)
    else if id == 0x40 then CdcRead(Uncount(param))
    else if id == 0x41 then CdcWrite(b)
    else if id == 0x42 then HidWrite(b)
    else if id == 0x43 then CdcAvailable(param)
    else if id == 0x44 then CdcClear(param)
    else if id == 0x50 then PollAccelerometer(param)
    else if id == 0x51 then ReadAccelerometer(param)
    else Undefined(id, param)
  }

  /** The other way round: whatever a legal message carries is a request, and just one. */
  lemma EveryCallIsARequest(c: Call)
    requires Legal(Message(0, c.cmd, c.payload))
    ensures Means(c, RequestOf(c)) && forall r :: Means(c, r) <==> r == RequestOf(c)
  {
    CallMeans(c);
    hide RequestOf, Means;
    forall r | Means(c, r) ensures r == RequestOf(c) {
      OneMeaning(c, r, RequestOf(c));
    }
  }

  lemma WriteMeans(param: nat, b: seq<u8>)
    requires 1 <= param <= 255 && |b| == 2 * param + 2
    ensures var r := WriteEeprom(Word(b[0], b[1]), FromBytes(b[2..]));
            Expressible(r) && Id(r) == 0x13 && Param(r) == param && Body(r) == b
  {
    BytesAgain(b[2..]);
    WordSplits(b[0], b[1]);
    hide FromBytes, WordBytes, Word;
    var r := WriteEeprom(Word(b[0], b[1]), FromBytes(b[2..]));
    assert Body(r) == [b[0], b[1]] + b[2..] == b;
  }

  lemma WordSplits(low: u8, high: u8)
    ensures Word(low, high) % 256 == low && Word(low, high) / 256 == high
  {
  }

  /** The requests with bytes behind them, other than EEPROM writes and packets for the clock. */
  lemma LoadedMeans(c: Call)
    requires Legal(Message(0, c.cmd, c.payload))
    requires c.cmd % 0x80 in {0x00, 0x09, 0x12, 0x16, 0x41, 0x42}
    ensures var r := RequestOf(c);
            Expressible(r) && Id(r) == c.cmd % 0x80 && Param(r) == c.cmd / 0x80 && Body(r) == c.payload
  {
    hide FromBytes, ClockRequest, RtcLength, WordBytes;
  }

  lemma BareMeans(c: Call)
    requires Legal(Message(0, c.cmd, c.payload))
    requires c.cmd % 0x80 !in {0x00, 0x09, 0x12, 0x13, 0x14, 0x16, 0x41, 0x42}
    ensures var r := RequestOf(c);
            Expressible(r) && Id(r) == c.cmd % 0x80 && Param(r) == c.cmd / 0x80 && Body(r) == c.payload
  {
    assert c.payload == [];
    var id, param := c.cmd % 0x80, c.cmd / 0x80;
    assert c.cmd == id + 128 * param;
    FirstWordParts(id, param);
    hide FromBytes, ClockRequest, RtcLength, WordBytes, RxLength;
  }

  lemma CallMeans(c: Call)
    requires Legal(Message(0, c.cmd, c.payload))
    ensures Means(c, RequestOf(c))
  {
    var id, param, r := c.cmd % 0x80, c.cmd / 0x80, RequestOf(c);
    assert c.cmd == id + 128 * param;
    assert Expressible(r) && Id(r) == id && Param(r) == param && Body(r) == c.payload by {
      if id == 0x14 {
        ClockRequestMeans(param, c.payload);
        hide ClockRequest, RtcLength, Expressible, Id, Param, Body;
      } else if id == 0x13 {
        WriteLength(c.cmd);
        hide RxLength;
        WriteMeans(param, c.payload);
        hide Expressible, Id, Param, Body, FromBytes;
      } else if id in {0x00, 0x09, 0x12, 0x16, 0x41, 0x42} {
        hide *;
        LoadedMeans(c);
      } else {
        hide *;
        BareMeans(c);
      }
    }
    hide RequestOf, Expressible, Id, Param, Body;
  }

  // ----- streams of requests -----

  /** The bytes of requests one after the other, each after some idle ones. */
  function Lines(idle: seq<nat>, rs: seq<Request>): seq<u8>
    requires |idle| == |rs| && forall r :: r in rs ==> Expressible(r)
  {
    if rs == [] then []
    else
      assert rs[0] in rs && forall r :: r in rs[1..] ==> r in rs;
      OnLine(idle[0], rs[0]) + Lines(idle[1..], rs[1..])
  }

  function Messages(idle: seq<nat>, rs: seq<Request>): (ms: seq<Message>)
    requires |idle| == |rs| && forall r :: r in rs ==> Expressible(r)
    ensures |ms| == |rs| && forall i :: 0 <= i < |rs| ==> rs[i] in rs && ms[i] == AsMessage(idle[i], rs[i])
  {
    seq(|rs|, i requires 0 <= i < |rs| => assert rs[i] in rs; AsMessage(idle[i], rs[i]))
  }

  lemma {:induction false} LinesAreStream(idle: seq<nat>, rs: seq<Request>)
    requires |idle| == |rs| && forall r :: r in rs ==> Expressible(r)
    ensures Lines(idle, rs) == Stream(Messages(idle, rs))
    decreases |rs|
  {
    hide Expressible, OnLine, AsMessage, Sent, Legal;
    if rs != [] {
      assert rs[0] in rs && forall r :: r in rs[1..] ==> r in rs;
      RequestIsLegal(idle[0], rs[0]);
      LinesAreStream(idle[1..], rs[1..]);
      assert Messages(idle, rs)[1..] == Messages(idle[1..], rs[1..]);
    }
  }

  /** Main result: whatever requests a host sends, in any order and with any idle bytes between
      them, the device executes exactly those requests, each with its own fields. */
  lemma StreamMeansRequests(idle: seq<nat>, rs: seq<Request>)
    requires |idle| == |rs| && forall r :: r in rs ==> Expressible(r)
    ensures var s := Scan(START, Lines(idle, rs));
            && s.mid == Idle(0xFF) && |s.calls| == |rs|
            && forall i, r :: 0 <= i < |rs| ==> (Means(s.calls[i], r) <==> r == rs[i])
  {
    hide Expressible, Lines, Stream, Scan, FirstWord, Body, Legal;
    LinesAreMessages(idle, rs);
    StreamMeansMessages(Messages(idle, rs), 0);
    forall i, r | 0 <= i < |rs| ensures Means(Calls(Messages(idle, rs))[i], r) <==> r == rs[i] {
      OnlyThatRequest(idle, rs, i, r);
    }
  }

  lemma LinesAreMessages(idle: seq<nat>, rs: seq<Request>)
    requires |idle| == |rs| && forall r :: r in rs ==> Expressible(r)
    ensures var ms := Messages(idle, rs);
            Lines(idle, rs) == Stream(ms) && forall m :: m in ms ==> Legal(m)
  {
    hide Expressible, Lines, Stream, Legal, FirstWord, Body;
    var ms := Messages(idle, rs);
    LinesAreStream(idle, rs);
    forall m | m in ms ensures Legal(m) {
      var i :| 0 <= i < |ms| && ms[i] == m;
      RequestIsLegal(idle[i], rs[i]);
    }
  }

  lemma OnlyThatRequest(idle: seq<nat>, rs: seq<Request>, i: nat, r: Request)
    requires |idle| == |rs| && (forall r :: r in rs ==> Expressible(r)) && i < |rs|
    ensures Means(Calls(Messages(idle, rs))[i], r) <==> r == rs[i]
  {
    hide Expressible, FirstWord, Body;
    var c := Calls(Messages(idle, rs))[i];
    assert Means(c, rs[i]);
    if Means(c, r) {
      OneMeaning(c, r, rs[i]);
    }
  }

  /** Main result: so does the device with its queue, interrupts and transfers, whatever their
      schedule: it has executed the first requests sent and no others, and once it has drained
      the wire and listens again, all of them. */
  lemma DeviceExecutesRequests(dev: NativeSpi.Spi, idle: seq<nat>, rs: seq<Request>)
    requires |idle| == |rs| && forall r :: r in rs ==> Expressible(r)
    requires dev.Valid() && dev.wire == Lines(idle, rs)
    ensures |dev.calls| <= |rs| && forall i, r :: 0 <= i < |dev.calls| ==> (Means(dev.calls[i], r) <==> r == rs[i])
    ensures dev.arrived == |dev.wire| && dev.fifo == [] && !dev.pending ==> |dev.calls| == |rs|
  {
    hide Expressible, Lines, Stream, Legal, FirstWord, Body, Means;
    var ms := Messages(idle, rs);
    LinesAreMessages(idle, rs);
    dev.ExecutesExactlyTheMessages(ms);
    forall i, r | 0 <= i < |dev.calls| ensures Means(dev.calls[i], r) <==> r == rs[i] {
      assert dev.calls[i] == Calls(ms)[i];
      OnlyThatRequest(idle, rs, i, r);
    }
  }

  // ----- what comes back -----

  /** The documented length of the reply, where the request alone decides it. */
  function Promised(r: Request): Option<nat> {
    match r
    case GetUniqueId(_) => Some(12)
    case GetInfo(_) => Some(6)
    case ReadAccelerometer(_) => Some(6)
    case GetVersion(_) => Some(4)
    case GetSaveId(_) => Some(4)
    case ReadRegister(_) => Some(2)
    case CdcWrite(_) => Some(2)
    case CdcAvailable(_) => Some(2)
    case SetFrequency(_) => Some(1)
    case SetEepromMode(_) => Some(1)
    case GetEepromMode(_) => Some(1)
    case SetSaveId(_, _, _, _, _) => Some(1)
    case PollAccelerometer(_) => Some(1)
    case ReadEeprom(count, _) => Some(2 * count)
    case RtcAsk(packet) =>
      Some(match packet % 16 case 3 => 1 case 5 => 7 case 7 => 3 case 9 => 2 case 11 => 2 case _ => 0)
    case Echo(bytes) => Some(|bytes|)
    case SwitchMode(_) => None
    case CdcRead(_) => None
    case Undefined(_, _) => None
    case _ => Some(0)
  }

  /** The firmware answers each request as documented: with as many bytes as promised, an echo with
      the same ones, a read from the USB port with no more than asked for, an undefined request
      with an error, and the mode switch not at all. */
  lemma RequestIsAnswered(r: Request, reply: Reply)
    requires Expressible(r)
    ensures FirmwareReply(Call(FirstWord(r), Body(r)), reply) <==>
              match r
              case SwitchMode(_) => reply.Silent?
              case Undefined(_, _) => reply.Failed?
              case Echo(bytes) => reply == Data(bytes)
              case CdcRead(limit) => reply.Data? && |reply.bytes| <= limit
              case _ => reply.Data? && Some(|reply.bytes|) == Promised(r)
  {
    FirstWordParts(Id(r), Param(r));
    hide WordBytes;
  }
}
