// The microcontroller's native-mode handlers: the byte interrupt, the DMA transfers
// and the main loop's task, against a wire that keeps moving under them.
// firmware/src/spi.c

module NativeSpi {
  import opened Words
  import opened NativeProtocol

  /** The commands executed are the first ones on the wire, and replies to those fit the buffer. */
  ghost predicate Answerable(respond: seq<Call> -> Reply, wire: seq<u8>, calls: seq<Call>)
    ensures Answerable(respond, wire, calls) ==> FitsFor(respond, calls)
  {
    var all := Scan(START, wire).calls;
    FitsFor(respond, all) && calls <= all && (FitsPrefix(respond, all, calls); true)
  }

  class Spi {
    const wire: seq<u8>            // every byte that the host will clock in
    const respond: seq<Call> -> Reply
    const depth: nat               // bytes that the receive queue holds
    var arrived: nat               // bytes clocked so far
    var fifo: seq<u8>              // the receive queue
    var queue: u8                  // native_byte_queue
    var pending: bool              // spi_native_idx == 1
    var rxInterrupt: bool          // RXNE interrupt enabled
    var command: u16               // spi_cmd
    const rxBuffer: array<u8>
    var rxFilled: nat
    var rxLeft: nat                // receive DMA, bytes to go
    const txBuffer: array<u8>
    var txNext: nat
    var txEnd: nat                 // transmit DMA, bytes txNext up to txEnd to go
    var txComplete: bool           // transmit DMA finished, its interrupt not yet served
    ghost var line: seq<u8>        // every byte clocked out
    ghost var taken: seq<u8>       // bytes taken from the receive queue
    var calls: seq<Call>           // commands executed: all that a reply can depend on
    ghost var frames: seq<seq<u8>>
    ghost var idle: seq<nat>
    ghost var gap: nat

    predicate Answering()
      reads this
    {
      txNext < txEnd || txComplete
    }

    /** The last command was a mode switch: native mode is over. */
    ghost predicate Stopped()
      reads this
    {
      calls != [] && respond(calls).Silent?
    }

    /** At most one activity owns the link, and one does unless native mode is over. */
    ghost predicate OneOwner()
      reads this
    {
      && (rxInterrupt ==> rxLeft == 0 && !pending && !Answering())
      && (rxLeft > 0 ==> !pending && !Answering())
      && (pending ==> !Answering())
      && (rxInterrupt || queue == 0xFF)
      && (rxInterrupt || rxLeft > 0 || pending || Answering() || Stopped())
    }

    ghost predicate BuffersOk()
      reads this
    {
      && rxBuffer.Length == MAX_PACKET && txBuffer.Length == MAX_PACKET + 2 && rxBuffer != txBuffer
      && rxFilled + rxLeft <= MAX_PACKET
      && txNext <= txEnd <= MAX_PACKET + 2 && (txComplete ==> txNext == txEnd)
      && |fifo| <= depth && |taken| + |fifo| <= arrived <= |wire|
    }

    /** The commands executed, the one waiting for the main loop, and what is being received. */
    ghost function Seen(): Scanned
      requires BuffersOk()
      reads this, rxBuffer
    {
      if pending then Scanned(calls + [Call(command, rxBuffer[..rxFilled])], Idle(0xFF))
      else if rxLeft > 0 then Scanned(calls, Collect(command, rxBuffer[..rxFilled]))
      else Scanned(calls, Idle(queue))
    }

    /** The receiving side: the handlers have understood exactly what they have read, and nothing
        that matters was dropped. */
    ghost predicate RxOk()
      requires BuffersOk()
      reads this, rxBuffer
    {
      && Seen() == Scan(START, taken)
      && Scan(START, taken + fifo) == Scan(START, wire[..arrived])
      && (rxLeft > 0 ==> rxFilled + rxLeft == RxLength(command))
    }

    /** The sending side: what has been clocked out and what the transmit DMA still holds are
        the answers to the executed commands, in order, with idle bytes in between. */
    ghost predicate TxOk()
      requires BuffersOk() && Answerable(respond, wire, calls)
      reads this, txBuffer
    {
      && frames == Answers(respond, calls)
      && |idle| == |frames| && |line| == arrived
      && (txNext < txEnd ==> gap == 0)
      && line + txBuffer[txNext..txEnd] == Weave(idle, frames) + Fillers(gap)
    }

    ghost predicate Valid()
      reads this, rxBuffer, txBuffer
    {
      BuffersOk() && OneOwner() && Whole(wire) && Answerable(respond, wire, calls) && RxOk() && TxOk()
    }

    constructor (wire: seq<u8>, respond: seq<Call> -> Reply, depth: nat)
      requires Whole(wire) && FitsFor(respond, Scan(START, wire).calls)
      ensures Valid() && this.wire == wire && this.respond == respond && this.depth == depth
      ensures arrived == 0 && calls == []
    {
      this.wire, this.respond, this.depth := wire, respond, depth;
      fifo, taken := [], [];
      arrived, queue, pending, rxInterrupt, command := 0, 0xFF, false, true, 0;
      rxBuffer, rxFilled, rxLeft := new u8[MAX_PACKET](_ => 0), 0, 0;
      txBuffer, txNext, txEnd, txComplete := new u8[MAX_PACKET + 2](_ => 0), 0, 0, false;
      line, calls, frames, idle, gap := [], [], [], [], 0;
    }

    // ----- the wire -----

    /** Is the host's next byte an idle one between two messages? */
    predicate NextIsIdle()
      requires arrived < |wire|
      reads this
    {
      wire[arrived] == 0xFF && Scan(START, wire[..arrived]).mid == Idle(0xFF)
    }

    /** The host may go on: it sends a message only while the receive queue has room, and idle
        bytes for as long as it waits for an answer; those may be dropped. */
    predicate HostMayGoOn()
      reads this
    {
      arrived < |wire| && (|fifo| < depth || NextIsIdle())
    }

    /** The host's byte enters the receive queue, or is dropped if that is full. */
    method Arrive()
      requires BuffersOk() && RxOk() && HostMayGoOn()
      modifies this`arrived, this`fifo
      ensures BuffersOk() && RxOk() && arrived == old(arrived) + 1
    {
      hide RxLength;
      ScanByte(wire, arrived);
      if |fifo| < depth {
        ScanSnoc(START, taken + fifo, wire[arrived]);
        assert taken + (fifo + [wire[arrived]]) == taken + fifo + [wire[arrived]];
        fifo := fifo + [wire[arrived]];
      }
      arrived := arrived + 1;
    }

    /** The transmit DMA's byte leaves, or an idle one. */
    method Leave()
      requires BuffersOk() && |line| == arrived && |idle| == |frames| && (txNext < txEnd ==> gap == 0)
      requires line + txBuffer[txNext..txEnd] == Weave(idle, frames) + Fillers(gap)
      modifies this`txNext, this`txComplete, this`line, this`gap
      ensures BuffersOk() && |line| == arrived + 1 && (txNext < txEnd ==> gap == 0)
      ensures line + txBuffer[txNext..txEnd] == Weave(idle, frames) + Fillers(gap)
      ensures Answering() == old(Answering())
    {
      hide Weave, Fillers;
      if txNext < txEnd {
        DataByte(line, txBuffer[..], txNext, txEnd);
        assert txBuffer[..][txNext..txEnd] == txBuffer[txNext..txEnd];
        assert txBuffer[..][txNext + 1..txEnd] == txBuffer[txNext + 1..txEnd];
        line := line + [txBuffer[txNext]];
        txNext := txNext + 1;
        if txNext == txEnd {
          txComplete := true;
        }
      } else {
        assert txBuffer[txNext..txEnd] == [];
        IdleByte(line, Weave(idle, frames), gap);
        line := line + [0xFF];
        gap := gap + 1;
      }
    }

    /** One byte each way: the host's into the receive queue, the transmit DMA's out. */
    method Clock()
      requires Valid() && HostMayGoOn()
      modifies this`arrived, this`fifo, this`txNext, this`txComplete, this`line, this`gap
      ensures Valid() && arrived == old(arrived) + 1
    {
      hide Weave, Answers, Scan, Answerable, Whole, Fillers;
      Leave();
      Arrive();
    }

    /** Any amount of time: any number of bytes pass, as far as the host goes. */
    method Elapse()
      requires Valid()
      modifies this`arrived, this`fifo, this`txNext, this`txComplete, this`line, this`gap
      ensures Valid() && arrived >= old(arrived)
    {
      var n: nat :| true;
      while n > 0 && HostMayGoOn()
        invariant Valid() && arrived >= old(arrived)
      {
        Clock();
        n := n - 1;
      }
    }

    // ----- the handlers -----

    /** LL_SPI_ReceiveData8 */
    method ReceiveByte() returns (byte: u8)
      requires BuffersOk() && fifo != []
      modifies this`fifo, this`taken
      ensures BuffersOk() && byte == old(fifo[0]) && fifo == old(fifo[1..])
      ensures taken == old(taken) + [byte] && taken + fifo == old(taken + fifo)
    {
      byte := fifo[0];
      fifo := fifo[1..];
      taken := taken + [byte];
    }

    /** The command word is complete: start its payload, or hand it to the main loop. */
    method StartCommand(cmd: u16)
      requires BuffersOk() && Answerable(respond, wire, calls) && Whole(wire) && TxOk()
      requires rxInterrupt && rxLeft == 0 && !pending && !Answering()
      requires Scan(START, taken + fifo) == Scan(START, wire[..arrived])
      requires RxLength(cmd) > 0 ==> Scan(START, taken) == Scanned(calls, Collect(cmd, []))
      requires RxLength(cmd) == 0 ==> Scan(START, taken) == Scanned(calls + [Call(cmd, [])], Idle(0xFF))
      modifies this`rxInterrupt, this`command, this`rxFilled, this`rxLeft, this`pending, this`queue
      ensures Valid() && !rxInterrupt
    {
      hide RxLength, Scan, Weave, Answers, Answerable, Whole, Fillers;
      assert RxLength(cmd) <= MAX_PACKET by {
        if RxLength(cmd) > 0 {
          PayloadFits(wire, arrived, taken, fifo);
        }
      }
      rxInterrupt := false;
      command := cmd;
      rxFilled := 0;
      var length := RxLength(cmd);
      if length != 0 {
        rxLeft := length;
      } else {
        pending := true;
      }
      queue := 0xFF;
      assert rxBuffer[..rxFilled] == [];
      assert Seen() == Scan(START, taken);
    }

    /** The byte interrupt.  Bytes keep arriving between any two of its steps, so how many it
        takes in one call is up to the environment; unless it meets a command, it leaves none. */
    method ByteInterrupt()
      requires Valid() && rxInterrupt
      modifies this`fifo, this`taken, this`queue, this`rxInterrupt, this`command, this`rxFilled, this`rxLeft,
               this`pending, this`arrived, this`txNext, this`txComplete, this`line, this`gap
      ensures Valid() && (rxInterrupt ==> fifo == [])
    {
      hide RxLength, Scan, Weave, Answers, Answerable, Whole;
      var again := fifo != [];
      while again
        invariant Valid() && rxInterrupt && again == (fifo != [])
        decreases |wire| - |taken|
      {
        ghost var before := taken;
        var last := queue;
        var byte := ReceiveByte();
        ScanSnoc(START, before, byte);
        queue := byte;
        if last != 0xFF {
          StartCommand(Word(last, byte));
          return;
        }
        Elapse();
        again := fifo != [];
      }
    }

    /** The receive DMA moves one byte; with the last one its interrupt alerts the main loop. */
    method DmaReceive()
      requires Valid() && rxLeft > 0 && fifo != []
      modifies this`fifo, this`taken, this`rxFilled, this`rxLeft, this`pending, rxBuffer
      ensures Valid() && fifo == old(fifo[1..])
    {
      hide RxLength, Scan, Weave, Answers, Answerable, Whole, Fillers;
      ghost var got, before := rxBuffer[..rxFilled], taken;
      var byte := ReceiveByte();
      ScanSnoc(START, before, byte);
      rxBuffer[rxFilled] := byte;
      rxFilled := rxFilled + 1;
      rxLeft := rxLeft - 1;
      assert rxBuffer[..rxFilled] == got + [byte];
      assert txBuffer[txNext..txEnd] == old(txBuffer[txNext..txEnd]);
      if rxLeft == 0 {
        pending := true;
      }
    }

    /** Fills the transmit buffer with a header and the reply's bytes. */
    method LoadFrame(r: Reply)
      requires BuffersOk() && !r.Silent? && Fits(r) && txNext == txEnd && !txComplete
      modifies this`txNext, this`txEnd, txBuffer
      ensures BuffersOk() && txNext == 0 && txBuffer[txNext..txEnd] == Frame(r)
    {
      var data := if r.Data? then r.bytes else [];
      var header := if r.Data? then 2 * |data| else 1;
      txBuffer[0], txBuffer[1] := header % 0x100, header / 0x100;
      forall i | 0 <= i < |data| {
        txBuffer[2 + i] := data[i];
      }
      txNext, txEnd := 0, |data| + 2;
      assert txBuffer[0..txEnd] == [header % 0x100, header / 0x100] + data;
    }

    /** Puts a frame behind what the line has carried so far. */
    method SendFrame(r: Reply)
      requires BuffersOk() && |line| == arrived && |idle| == |frames| && !Answering()
      requires line + txBuffer[txNext..txEnd] == Weave(idle, frames) + Fillers(gap)
      requires !r.Silent? && Fits(r)
      modifies this`txNext, this`txEnd, this`frames, this`idle, this`gap, txBuffer
      ensures BuffersOk() && txNext < txEnd && gap == 0
      ensures frames == old(frames) + [Frame(r)] && |idle| == |frames|
      ensures line + txBuffer[txNext..txEnd] == Weave(idle, frames) + Fillers(gap)
    {
      hide Weave, Frame, Fillers;
      assert txBuffer[txNext..txEnd] == [] && line + [] == line;
      FrameStartsClear(r);
      WeaveSnoc(idle, frames, gap, Frame(r));
      LoadFrame(r);
      frames, idle := frames + [Frame(r)], idle + [gap];
      gap := 0;
      assert Weave(idle, frames) + Fillers(0) == Weave(idle, frames);
    }

    /** Executes a command and starts its answer, which may depend on all commands before it. */
    method Execute(call: Call)
      requires BuffersOk() && Answerable(respond, wire, calls) && TxOk() && !Answering()
      requires calls + [call] <= Scan(START, wire).calls
      modifies this`txNext, this`txEnd, this`frames, this`idle, this`gap, this`calls, txBuffer
      ensures BuffersOk() && Answerable(respond, wire, calls) && TxOk() && calls == old(calls) + [call]
      ensures if respond(calls).Silent? then !Answering() else txNext < txEnd
    {
      hide Weave, Frame, Fillers, Answers, Scan, Fits, FitsFor;
      FitsPrefix(respond, Scan(START, wire).calls, calls + [call]);
      AnswersSnoc(respond, calls, call);
      calls := calls + [call];
      var reply := respond(calls);
      if !reply.Silent? {
        SendFrame(reply);
      }
    }

    /** The main loop: execute the command that is waiting, and send its answer. */
    method Task()
      requires Valid()
      modifies this`pending, this`txNext, this`txEnd, this`frames, this`idle, this`gap, this`calls, txBuffer
      ensures Valid() && !pending
      ensures calls == old(Seen().calls)
    {
      hide RxLength, Scan, Whole, Answerable, Weave, Answers, Fillers;
      if pending {
        SeenIsOnWire(wire, arrived, taken, fifo);
        pending := false;
        var call := Call(command, rxBuffer[..rxFilled]);
        Execute(call);
      }
    }

    /** The transmit DMA's interrupt: listen for the next command. */
    method TransmitInterrupt()
      requires Valid() && txComplete
      modifies this`txComplete, this`rxInterrupt
      ensures Valid() && rxInterrupt
    {
      hide RxLength, Scan, Weave, Answers, Answerable, Whole, Fillers;
      txComplete := false;
      rxInterrupt := true;
    }

    // ----- what the host can rely on -----

    /** Main result: whatever the schedule of interrupts, transfers and main-loop calls was, the
        commands executed so far are the first ones the host sent, payloads included; once the
        wire is drained and the link listens again, they are all of them. */
    lemma ExecutesExactlyTheMessages(ms: seq<Message>)
      requires Valid() && wire == Stream(ms) && forall m :: m in ms ==> Legal(m)
      ensures calls <= Calls(ms)
      ensures arrived == |wire| && fifo == [] && !pending ==> calls == Calls(ms) && rxLeft == 0 && queue == 0xFF
    {
      hide Scan, Stream, Legal, TxOk;
      StreamMeansMessages(ms, 0);
      assert wire[..|wire|] == wire && taken + [] == taken;
    }

    /** The line carries the answers to the executed commands, in order, each after some run of
        idle bytes, and nothing else; the last answer may still be on its way. */
    lemma LineCarriesAnswers()
      requires Valid()
      ensures line <= Weave(idle, Answers(respond, calls)) + Fillers(gap)
      ensures !Answering() ==> line == Weave(idle, Answers(respond, calls)) + Fillers(gap)
    {
      hide Scan, Weave, Answers, Fillers, RxOk;
      assert txNext == txEnd ==> line + txBuffer[txNext..txEnd] == line;
    }

    /** Read from anywhere in the idle bytes before the last answer, the line delivers the rest of
        those idle bytes and then the answer. */
    lemma LastAnswerOnLine(from: nat)
      requires Valid() && frames != []
      requires var n := |frames| - 1;
               var start := |Weave(idle[..n], frames[..n])|;
               start <= from <= start + idle[n] && from <= |line|
      ensures var n := |frames| - 1;
              var start := |Weave(idle[..n], frames[..n])|;
              line[from..] <= Fillers(start + idle[n] - from) + frames[n] + Fillers(gap)
    {
      hide Scan, Answers, RxOk, Whole, Answerable;
      var n := |frames| - 1;
      var earlier := Weave(idle[..n], frames[..n]);
      var rest := txBuffer[txNext..txEnd];
      var tail := frames[n] + Fillers(gap);
      assert line + rest == earlier + Fillers(idle[n]) + tail;
      var k := from - |earlier|;
      assert Fillers(idle[n])[k..] == Fillers(idle[n] - k);
      assert (line + rest)[from..] == Fillers(idle[n] - k) + tail;
      assert (line + rest)[from..] == line[from..] + rest;
      assert Fillers(idle[n] - k) + tail == Fillers(idle[n] - k) + frames[n] + Fillers(gap);
    }
  }

  lemma IdleByte(line: seq<u8>, woven: seq<u8>, gap: nat)
    requires line + [] == woven + Fillers(gap)
    ensures line + [0xFF] + [] == woven + Fillers(gap + 1)
  {
    assert Fillers(gap + 1) == Fillers(gap) + [0xFF];
    assert line + [] == line;
    assert line + [0xFF] + [] == woven + Fillers(gap) + [0xFF];
  }

  lemma DataByte(line: seq<u8>, buffer: seq<u8>, next: nat, end: nat)
    requires next < end <= |buffer|
    ensures line + [buffer[next]] + buffer[next + 1..end] == line + buffer[next..end]
  {
    assert buffer[next..end] == [buffer[next]] + buffer[next + 1..end];
  }

  /** What the handlers have understood stands on the wire. */
  lemma SeenIsOnWire(wire: seq<u8>, arrived: nat, taken: seq<u8>, fifo: seq<u8>)
    requires arrived <= |wire| && Scan(START, taken + fifo) == Scan(START, wire[..arrived])
    ensures Scan(START, wire) == Scan(Scan(START, taken), fifo + wire[arrived..])
    ensures Scan(START, taken).calls <= Scan(START, wire).calls
  {
    hide Take, Scan;
    var rest := wire[arrived..];
    assert wire == wire[..arrived] + rest;
    ScanConcat(START, wire[..arrived], rest);
    ScanConcat(START, taken, fifo);
    ScanConcat(Scan(START, taken), fifo, rest);
    ScanExtends(Scan(START, taken), fifo + rest);
  }

  lemma PayloadFits(wire: seq<u8>, arrived: nat, taken: seq<u8>, fifo: seq<u8>)
    requires arrived <= |wire| && Scan(START, taken + fifo) == Scan(START, wire[..arrived])
    requires Whole(wire) && Scan(START, taken).mid.Collect?
    ensures RxLength(Scan(START, taken).mid.cmd) <= MAX_PACKET
  {
    hide Take, Scan, RxLength;
    var s := Scan(START, taken);
    SeenIsOnWire(wire, arrived, taken, fifo);
    CollectBecomesCall(s, fifo + wire[arrived..]);
    assert Scan(START, wire).calls[|s.calls|] in Scan(START, wire).calls;
  }

  lemma AnswersSnoc(respond: seq<Call> -> Reply, cs: seq<Call>, c: Call)
    requires FitsFor(respond, cs) && FitsFor(respond, cs + [c])
    ensures Fits(respond(cs + [c]))
    ensures Answers(respond, cs + [c]) ==
            Answers(respond, cs) + (if respond(cs + [c]).Silent? then [] else [Frame(respond(cs + [c]))])
  {
    FitsPrefix(respond, cs + [c], cs + [c]);
    assert (cs + [c])[..|cs|] == cs;
  }

  lemma ScanByte(wire: seq<u8>, i: nat)
    requires i < |wire|
    ensures Scan(START, wire[..i + 1]) == Take(Scan(START, wire[..i]), wire[i])
  {
    hide Take, Scan;
    assert wire[..i + 1] == wire[..i] + [wire[i]];
    ScanSnoc(START, wire[..i], wire[i]);
  }
}
