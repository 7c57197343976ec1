// End to end: a native response read through the FPGA's "wait and read" mode.
// fpga/rtl/spi.sv, firmware/src/spi.c

module NativeResponse {
  import opened Words
  import opened SpiEngine
  import opened SpiHandshake
  import opened SpiTransfer
  import opened NativeProtocol
  import NativeSpi

  /** The bytes of a transmission as they travel, bit by bit. */
  function Wire(bytes: seq<u8>): (w: seq<Byte>)
    ensures |w| == |bytes| && forall i :: 0 <= i < |bytes| ==> w[i] == ToByte(bytes[i])
  {
    seq(|bytes|, i requires 0 <= i < |bytes| => ToByte(bytes[i]))
  }

  /** A prefix of idle bytes and a frame skips exactly the idle bytes, whatever follows. */
  lemma SkipsExactlyIdle(idle: nat, r: Reply, tail: seq<u8>, got: seq<Byte>)
    requires Fits(r) && !r.Silent?
    requires got <= Wire(Fillers(idle) + Frame(r) + tail) && LeadingFillers(got) < |got|
    ensures LeadingFillers(got) == idle
  {
    hide ToByte;
    var sent := Fillers(idle) + Frame(r) + tail;
    FrameStartsClear(r);
    forall i | 0 <= i < |got| ensures got[i] == FILLER <==> sent[i] == 0xFF {
      assert got[i] == Wire(sent)[i];
      ToByteFiller(sent[i]);
    }
    assert got[LeadingFillers(got)] != FILLER;
    LeadingFillersUnique(got, idle);
  }

  /** Main result: a wait-and-read transfer of `len` + 1 bytes, at most the response with its
      header, that ends uncut has put exactly the first `len` + 1 response bytes into the
      receive buffer, however many idle bytes came before the response. */
  lemma WaitAndReadDeliversResponse(s: Spi, w: Wires, idle: nat, r: Reply, tail: seq<u8>)
    requires TransferInv(s, w) && Ended(s) && !w.cut && s.cfg.mode.ModeWaitAndRead?
    requires Fits(r) && !r.Silent?
    requires Bytes(w.miso) <= Wire(Fillers(idle) + Frame(r) + tail) && s.cfg.len < |Frame(r)|
    ensures Half(s.rx, s.cfg.mapped)[..s.cfg.len + 1] == Wire(Frame(r)[..s.cfg.len + 1])
    ensures |w.miso| == 8 * (idle + s.cfg.len + 1)
  {
    hide ToByte, TransferInv;
    EndedIsComplete(s, w);
    var bs := Bytes(w.miso);
    SkipsExactlyIdle(idle, r, tail, bs);
    var n := s.cfg.len + 1;
    var sent := Fillers(idle) + Frame(r) + tail;
    assert bs == Wire(sent)[..idle + n];
    forall i | 0 <= i < n ensures bs[idle..][i] == ToByte(Frame(r)[i]) {
      assert bs[idle + i] == Wire(sent)[idle + i];
    }
  }

  /** From power-up and under every interleaving of clocks, console writes and console reads. */
  lemma ResponseFromPowerUp(s0: Spi, w0: Wires, es: seq<Event>, idle: nat, r: Reply, tail: seq<u8>)
    requires PowerUp(s0)
    requires Fits(r) && !r.Silent?
    requires var s, w := Run(s0, es), RunWires(s0, w0, es);
             && Ended(s) && !w.cut && s.cfg.mode.ModeWaitAndRead? && s.cfg.len < |Frame(r)|
             && Bytes(w.miso) <= Wire(Fillers(idle) + Frame(r) + tail)
    ensures var s := Run(s0, es);
            Half(s.rx, s.cfg.mapped)[..s.cfg.len + 1] == Wire(Frame(r)[..s.cfg.len + 1])
  {
    hide ToByte, TransferInv, Frame, Fillers, Run, RunWires, Ended, PowerUp, Bytes, Wire, Half;
    PowerUpTransfers(s0, w0, es);
    WaitAndReadDeliversResponse(Run(s0, es), RunWires(s0, w0, es), idle, r, tail);
  }

  lemma PowerUpTransfers(s0: Spi, w0: Wires, es: seq<Event>)
    requires PowerUp(s0)
    ensures TransferInv(Run(s0, es), RunWires(s0, w0, es))
  {
    PowerUpInv(s0);
    TransferRun(s0, w0, es);
  }

  /** The frame sent last answers the command executed last, if that has an answer. */
  lemma LastFrameAnswers(respond: seq<Call> -> Reply, calls: seq<Call>)
    requires FitsFor(respond, calls) && calls != [] && !respond(calls).Silent?
    ensures var fs := Answers(respond, calls);
            Fits(respond(calls)) && fs != [] && fs[|fs| - 1] == Frame(respond(calls))
  {
    hide Fits;
    FitsPrefix(respond, calls, calls);
  }

  /** Main result, end to end: the console starts a wait-and-read transfer while the
      microcontroller still idles before its answer, so what the engine samples is the line from
      there on.  Whatever both sides had done before, the receive buffer then holds the first
      bytes of the answer to the command executed last. */
  lemma ConsoleReadsAnswer(dev: NativeSpi.Spi, from: nat, s0: Spi, w0: Wires, es: seq<Event>)
    requires dev.Valid() && dev.calls != [] && !dev.respond(dev.calls).Silent?
    requires dev.frames != [] && |dev.idle| == |dev.frames|
    requires var n := |dev.frames| - 1;
             var start := |Weave(dev.idle[..n], dev.frames[..n])|;
             start <= from <= start + dev.idle[n] && from <= |dev.line|
    requires PowerUp(s0)
    requires var s, w := Run(s0, es), RunWires(s0, w0, es);
             && Ended(s) && !w.cut && s.cfg.mode.ModeWaitAndRead?
             && Bytes(w.miso) == Wire(dev.line[from..])
    requires Fits(dev.respond(dev.calls)) && Run(s0, es).cfg.len < |Frame(dev.respond(dev.calls))|
    ensures var s := Run(s0, es);
            Half(s.rx, s.cfg.mapped)[..s.cfg.len + 1]
            == Wire(Frame(dev.respond(dev.calls))[..s.cfg.len + 1])
  {
    hide ToByte, TransferInv, Frame, Fillers, Weave, Answers, Run, RunWires, Ended, PowerUp, Fits, Bytes;
    var n := |dev.frames| - 1;
    var idle := |Weave(dev.idle[..n], dev.frames[..n])| + dev.idle[n] - from;
    var r := dev.respond(dev.calls);
    LastFrameAnswers(dev.respond, dev.calls);
    dev.LastAnswerOnLine(from);
    WireOfPrefix(dev.line[from..], Fillers(idle) + Frame(r) + Fillers(dev.gap));
    ResponseFromPowerUp(s0, w0, es, idle, r, Fillers(dev.gap));
  }

  lemma WireOfPrefix(a: seq<u8>, b: seq<u8>)
    requires a <= b
    ensures Wire(a) <= Wire(b)
  {
    hide ToByte;
  }
}
