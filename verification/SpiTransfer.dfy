// What a transfer does with its bits: the bit-level engine refines a byte-level
// transfer, and the double buffer keeps the console and the engine apart.

module SpiTransfer {
  import opened Words
  import opened SpiEngine
  import opened SpiHandshake

  /** What went over the wires since the last Start pulse: the bits sampled and the bits driven
      while the SPI clock ran, and whether an abort cut the transfer short. */
  datatype Wires = Wires(miso: seq<bool>, mosi: seq<bool>, cut: bool)

  function Observe(s: Spi, w: Wires, e: Event): Wires {
    if !e.Clk? then w
    else
      var di := Miso(s, e.spiDi, e.tfDi);
      if s.hs.Start() then Wires([], [], false)
      else if s.eng.running then
        Wires(w.miso + [di], w.mosi + [Outbit(s)],
              LastPeriod(s, di) && !(FillerOver(s, di) && s.eng.bytePosition == s.cfg.len))
      else w
  }

  function RunWires(s: Spi, w: Wires, es: seq<Event>): Wires {
    if es == [] then w
    else Observe(Run(s, es[..|es| - 1]), RunWires(s, w, es[..|es| - 1]), es[|es| - 1])
  }

  // ----- the byte-level view -----

  /** The complete bytes of a bit stream. */
  function Bytes(bits: seq<bool>): (bs: seq<Byte>)
    ensures |bs| == |bits| / 8
    ensures forall i :: 0 <= i < |bs| ==> bs[i] == bits[8 * i..8 * i + 8]
  {
    seq(|bits| / 8, i requires 0 <= i < |bits| / 8 => bits[8 * i..8 * i + 8])
  }

  lemma BytesSnoc(bits: seq<bool>, x: bool)
    ensures |bits| % 8 != 7 ==> Bytes(bits + [x]) == Bytes(bits)
    ensures |bits| % 8 == 7 ==> Bytes(bits + [x]) == Bytes(bits) + [bits[|bits| - 7..] + [x]]
  {
    var bs, bs' := Bytes(bits), Bytes(bits + [x]);
    forall i | 0 <= i < |bs| ensures bs'[i] == bs[i] {
      assert (bits + [x])[8 * i..8 * i + 8] == bits[8 * i..8 * i + 8];
    }
    if |bits| % 8 == 7 {
      assert bs'[|bs|] == (bits + [x])[8 * |bs|..8 * |bs| + 8] == bits[|bits| - 7..] + [x];
    }
  }

  function LeadingFillers(bs: seq<Byte>): (k: nat)
    ensures k <= |bs|
    ensures forall i :: 0 <= i < k ==> bs[i] == FILLER
    ensures k < |bs| ==> bs[k] != FILLER
  {
    if bs == [] || bs[0] != FILLER then 0 else 1 + LeadingFillers(bs[1..])
  }

  lemma LeadingFillersUnique(bs: seq<Byte>, k: nat)
    requires k <= |bs|
    requires forall i :: 0 <= i < k ==> bs[i] == FILLER
    requires k < |bs| ==> bs[k] != FILLER
    ensures LeadingFillers(bs) == k
  {
  }

  lemma LeadingFillersSnoc(bs: seq<Byte>, b: Byte)
    ensures LeadingFillers(bs + [b]) ==
            LeadingFillers(bs) + (if LeadingFillers(bs) == |bs| && b == FILLER then 1 else 0)
  {
    LeadingFillersUnique(bs + [b], LeadingFillers(bs) + (if LeadingFillers(bs) == |bs| && b == FILLER then 1 else 0));
  }

  /** Bytes dropped at the head of a transfer. */
  function Skipped(mode: Mode, bs: seq<Byte>): nat {
    if mode.ModeWaitAndRead? then LeadingFillers(bs) else 0
  }

  /** Bytes received, or sent, so far. */
  function Counted(s: Spi, w: Wires): int {
    |Bytes(w.miso)| - Skipped(s.cfg.mode, Bytes(w.miso))
  }

  /** Bit `i` of what the transfer sends: the TX half not mapped into the address space,
      each byte most significant bit first, or ones. */
  predicate SentBit(s: Spi, i: nat) {
    s.cfg.mode.Drives() ==> i / 8 < 512 && Half(s.tx, !s.cfg.mapped)[i / 8][i % 8]
  }

  ghost predicate BytesStored(s: Spi, w: Wires) {
    var bs := Bytes(w.miso);
    var k := Skipped(s.cfg.mode, bs);
    && |bs| - k <= s.cfg.len + 1
    && (!s.cfg.mode.ModeWrite? ==> forall i :: 0 <= i < |bs| - k ==> Half(s.rx, s.cfg.mapped)[i] == bs[k + i])
  }

  ghost predicate BitsSent(s: Spi, w: Wires) {
    && |w.mosi| == |w.miso|
    && forall i :: 0 <= i < |w.mosi| ==> w.mosi[i] == SentBit(s, i)
  }

  /** Mid-transfer: counters, shift register and prefetched byte all agree with the wires. */
  ghost predicate ShiftingOk(s: Spi, w: Wires) {
    var e := s.eng;
    var bs := Bytes(w.miso);
    var p := e.bitPosition;
    && BytesStored(s, w) && BitsSent(s, w)
    && |w.miso| == 8 * |bs| + p
    && e.bytePosition == Counted(s, w) && e.bytePosition <= s.cfg.len
    && e.seenNonFiller == (s.cfg.mode.ModeWaitAndRead? ==> Skipped(s.cfg.mode, bs) < |bs|)
    && e.shiftreg[8 - p..] == w.miso[8 * |bs|..]
    && (s.cfg.mode.Drives() ==> e.shiftreg[..8 - p] == Half(s.tx, !s.cfg.mapped)[e.bytePosition][p..])
    && (p > 0 ==> e.txRead == s.tx[RamAddr(!s.cfg.mapped, Succ(e.bytePosition))])
  }

  /** After the last period: whole bytes, and all of them unless an abort cut in. */
  ghost predicate EndedOk(s: Spi, w: Wires) {
    && BytesStored(s, w) && BitsSent(s, w)
    && |w.miso| % 8 == 0
    && (!w.cut ==> Counted(s, w) == s.cfg.len + 1)
    && (w.cut ==> s.abort.reqAsync)
  }

  predicate Ended(s: Spi) {
    var p := PhaseOf(s);
    p.Closing? || p.Ack0? || p.Ack1?
  }

  ghost predicate TransferInv(s: Spi, w: Wires) {
    var p := PhaseOf(s);
    && Inv(s)
    && (p.Sync1? || p.Launch? ==> s.eng.bytePosition == 511)
    && (p.Launch? ==> s.eng.txRead == s.tx[RamAddr(!s.cfg.mapped, 0)])
    && (p.Shifting? ==> ShiftingOk(s, w))
    && (Ended(s) ==> EndedOk(s, w))
  }

  // ----- the invariant, edge by edge -----

  lemma OutbitIsSentBit(s: Spi, w: Wires)
    requires ShiftingOk(s, w)
    ensures Outbit(s) == SentBit(s, |w.mosi|)
  {
    if s.cfg.mode.Drives() {
      var p := s.eng.bitPosition;
      var out := Half(s.tx, !s.cfg.mapped)[s.eng.bytePosition];
      assert |w.mosi| / 8 == s.eng.bytePosition && |w.mosi| % 8 == p;
      assert s.eng.shiftreg[0] == s.eng.shiftreg[..8 - p][0] == out[p..][0];
    }
  }

  lemma BitsSentSnoc(s: Spi, w: Wires, s': Spi, w': Wires, di: bool)
    requires ShiftingOk(s, w)
    requires s'.tx == s.tx && s'.cfg == s.cfg
    requires w'.miso == w.miso + [di] && w'.mosi == w.mosi + [Outbit(s)]
    ensures BitsSent(s', w')
  {
    OutbitIsSentBit(s, w);
    forall i | 0 <= i < |w'.mosi| ensures w'.mosi[i] == SentBit(s', i) {
      assert SentBit(s', i) == SentBit(s, i);
      if i < |w.mosi| { assert w'.mosi[i] == w.mosi[i]; }
    }
  }

  lemma LaunchEdge(s: Spi, w: Wires, e: Event)
    requires TransferInv(s, w) && e.Clk? && PhaseOf(s).Launch?
    ensures TransferInv(Step(s, e), Observe(s, w, e))
  {
    PhaseStep(s, e);
    var s' := Step(s, e);
    var tx := Half(s.tx, !s.cfg.mapped);
    assert s'.eng.shiftreg == tx[0] == tx[0][0..];
  }

  lemma MidByteShift(s: Spi, w: Wires, di: bool)
    requires ShiftingOk(s, w) && s.eng.bitPosition < 7
    ensures var p := s.eng.bitPosition;
            var r := s.eng.shiftreg[1..] + [di];
            && r[7 - p..] == (w.miso + [di])[8 * |Bytes(w.miso)|..]
            && (s.cfg.mode.Drives() ==>
                  r[..7 - p] == Half(s.tx, !s.cfg.mapped)[s.eng.bytePosition][p + 1..])
  {
    var p := s.eng.bitPosition;
    var r := s.eng.shiftreg[1..] + [di];
    assert r[7 - p..] == s.eng.shiftreg[8 - p..] + [di];
    if s.cfg.mode.Drives() {
      var out := Half(s.tx, !s.cfg.mapped)[s.eng.bytePosition];
      assert r[..7 - p] == s.eng.shiftreg[..8 - p][1..] == out[p..][1..] == out[p + 1..];
    }
  }

  lemma SameBytes(s: Spi, w: Wires, s': Spi, w': Wires)
    requires BytesStored(s, w) && Bytes(w'.miso) == Bytes(w.miso)
    requires s'.cfg == s.cfg && s'.rx == s.rx
    ensures BytesStored(s', w') && Counted(s', w') == Counted(s, w)
  {
  }

  lemma MidByteOk(s: Spi, w: Wires, di: bool, s': Spi, w': Wires)
    requires ShiftingOk(s, w) && s.eng.bitPosition < 7
    requires w'.miso == w.miso + [di] && w'.mosi == w.mosi + [Outbit(s)]
    requires s'.cfg == s.cfg && s'.rx == s.rx && s'.tx == s.tx
    requires s'.eng.bitPosition == s.eng.bitPosition + 1 && s'.eng.bytePosition == s.eng.bytePosition
    requires s'.eng.seenNonFiller == s.eng.seenNonFiller && s'.eng.shiftreg == s.eng.shiftreg[1..] + [di]
    requires s'.eng.txRead == s.tx[RamAddr(!s.cfg.mapped, Succ(s.eng.bytePosition))]
    ensures ShiftingOk(s', w')
  {
    BytesSnoc(w.miso, di);
    SameBytes(s, w, s', w');
    BitsSentSnoc(s, w, s', w', di);
    MidByteShift(s, w, di);
  }

  /** The byte completed at bit 7, and what it adds to the counts. */
  lemma LastBitCounts(s: Spi, w: Wires, di: bool)
    requires ShiftingOk(s, w) && s.eng.bitPosition == 7
    ensures var bs := Bytes(w.miso);
            var b := ShiftRegNext(s, di);
            && Bytes(w.miso + [di]) == bs + [b]
            && Skipped(s.cfg.mode, bs + [b]) == Skipped(s.cfg.mode, bs) + (if FillerOver(s, di) then 0 else 1)
  {
    BytesSnoc(w.miso, di);
    assert ShiftRegNext(s, di) == w.miso[|w.miso| - 7..] + [di];
    LeadingFillersSnoc(Bytes(w.miso), ShiftRegNext(s, di));
  }

  lemma StoreNext(rx: Ram, half: bool, bs: seq<Byte>, b: Byte, k: nat, k': nat)
    requires k <= |bs| && |bs| - k < 512
    requires k' == k || (k' == k + 1 && k == |bs|)
    requires forall i :: 0 <= i < |bs| - k ==> Half(rx, half)[i] == bs[k + i]
    ensures var rx' := rx[RamAddr(half, |bs| - k) := b];
            forall i :: 0 <= i < |bs| + 1 - k' ==> Half(rx', half)[i] == (bs + [b])[k' + i]
  {
    var rx' := rx[RamAddr(half, |bs| - k) := b];
    forall i | 0 <= i < |bs| + 1 - k' ensures Half(rx', half)[i] == (bs + [b])[k' + i] {
      if i < |bs| - k {
        assert Half(rx, half)[i] == bs[k + i];
      }
    }
  }

  lemma LastBitCounted(s: Spi, w: Wires, di: bool, s': Spi, w': Wires)
    requires ShiftingOk(s, w) && s.eng.bitPosition == 7
    requires w'.miso == w.miso + [di] && s'.cfg == s.cfg
    ensures Bytes(w'.miso) == Bytes(w.miso) + [ShiftRegNext(s, di)]
    ensures Counted(s', w') == s.eng.bytePosition + (if FillerOver(s, di) then 1 else 0)
    ensures Skipped(s.cfg.mode, Bytes(w'.miso)) == Skipped(s.cfg.mode, Bytes(w.miso))
            || (Skipped(s.cfg.mode, Bytes(w'.miso)) == Skipped(s.cfg.mode, Bytes(w.miso)) + 1
                && Skipped(s.cfg.mode, Bytes(w.miso)) == |Bytes(w.miso)|)
  {
    LastBitCounts(s, w, di);
    hide Bytes, LeadingFillers, BytesStored, BitsSent, FillerOver, ShiftRegNext;
  }

  /** The byte completed at bit 7 is the one stored. */
  lemma LastBitStores(s: Spi, w: Wires, di: bool, s': Spi, w': Wires)
    requires ShiftingOk(s, w) && s.eng.bitPosition == 7
    requires w'.miso == w.miso + [di] && s'.cfg == s.cfg && s'.rx == ClkRx(s, di)
    ensures Counted(s', w') == s.eng.bytePosition + (if FillerOver(s, di) then 1 else 0)
    ensures BytesStored(s', w')
  {
    hide Bytes, Skipped, LeadingFillers, BitsSent, FillerOver, ShiftRegNext, Half, RamAddr;
    LastBitCounted(s, w, di, s', w');
    var bs, b := Bytes(w.miso), ShiftRegNext(s, di);
    if !s.cfg.mode.ModeWrite? {
      StoreNext(s.rx, s.cfg.mapped, bs, b, Skipped(s.cfg.mode, bs), Skipped(s.cfg.mode, bs + [b]));
    }
  }

  lemma LastBitOk(s: Spi, w: Wires, e: Event)
    requires ShiftingOk(s, w) && e.Clk? && s.eng.running && !s.hs.Start() && s.eng.bitPosition == 7
    ensures var di := Miso(s, e.spiDi, e.tfDi);
            var s', w' := Step(s, e), Observe(s, w, e);
            && BitsSent(s', w') && BytesStored(s', w') && |w'.miso| % 8 == 0
            && (LastPeriod(s, di) && !w'.cut ==> Counted(s', w') == s.cfg.len + 1)
            && (w'.cut ==> s.abort.req1)
            && (!LastPeriod(s, di) ==> ShiftingOk(s', w'))
  {
    var di := Miso(s, e.spiDi, e.tfDi);
    var s', w' := Step(s, e), Observe(s, w, e);
    LastBitStores(s, w, di, s', w');
    BitsSentSnoc(s, w, s', w', di);
    if !LastPeriod(s, di) && s.cfg.mode.Drives() {
      assert s'.eng.shiftreg[..8] == s'.eng.shiftreg;
      var out := Half(s.tx, !s.cfg.mapped)[s'.eng.bytePosition];
      assert out[0..] == out;
    }
  }

  lemma ShiftingEdge(s: Spi, w: Wires, e: Event)
    requires TransferInv(s, w) && e.Clk? && PhaseOf(s).Shifting?
    ensures TransferInv(Step(s, e), Observe(s, w, e))
  {
    PhaseStep(s, e);
    if s.eng.bitPosition < 7 {
      MidByteOk(s, w, Miso(s, e.spiDi, e.tfDi), Step(s, e), Observe(s, w, e));
    } else {
      LastBitOk(s, w, e);
    }
  }

  lemma SameBitsSent(s: Spi, s': Spi, w: Wires)
    requires s'.cfg == s.cfg && Half(s'.tx, !s.cfg.mapped) == Half(s.tx, !s.cfg.mapped)
    requires BitsSent(s, w)
    ensures BitsSent(s', w)
  {
    forall i | 0 <= i < |w.mosi| ensures w.mosi[i] == SentBit(s', i) {
      assert w.mosi[i] == SentBit(s, i);
    }
  }

  /** An edge that leaves the halves in use, the configuration and the wires alone. */
  lemma Untouched(s: Spi, s': Spi, w: Wires)
    requires s'.cfg == s.cfg && s'.eng == s.eng && s'.rx == s.rx
    requires Half(s'.tx, !s.cfg.mapped) == Half(s.tx, !s.cfg.mapped)
    requires s.abort.reqAsync ==> s'.abort.reqAsync
    ensures ShiftingOk(s, w) ==> ShiftingOk(s', w)
    ensures EndedOk(s, w) ==> EndedOk(s', w)
  {
    if ShiftingOk(s, w) || EndedOk(s, w) {
      SameBitsSent(s, s', w);
      SameBytes(s, w, s', w);
    }
    if ShiftingOk(s, w) {
      var next := Succ(s.eng.bytePosition);
      assert s'.tx[RamAddr(!s.cfg.mapped, next)] == Half(s'.tx, !s.cfg.mapped)[next];
      assert s.tx[RamAddr(!s.cfg.mapped, next)] == Half(s.tx, !s.cfg.mapped)[next];
    }
  }

  lemma ConsoleEdge(s: Spi, w: Wires, e: Event)
    requires TransferInv(s, w) && !e.Clk?
    ensures TransferInv(Step(s, e), w)
  {
    PhaseStep(s, e);
    var s' := Step(s, e);
    if s.Busy() {
      assert Half(s'.tx, !s.cfg.mapped) == Half(s.tx, !s.cfg.mapped);
      Untouched(s, s', w);
      assert s'.tx[RamAddr(!s.cfg.mapped, 0)] == Half(s'.tx, !s.cfg.mapped)[0];
      assert s.tx[RamAddr(!s.cfg.mapped, 0)] == Half(s.tx, !s.cfg.mapped)[0];
    }
  }

  lemma IdleClockEdge(s: Spi, w: Wires, e: Event)
    requires TransferInv(s, w) && e.Clk? && !PhaseOf(s).Launch? && !PhaseOf(s).Shifting?
    ensures TransferInv(Step(s, e), w)
  {
    PhaseStep(s, e);
    var s' := Step(s, e);
    if Ended(s') {
      SameBitsSent(s, s', w);
      SameBytes(s, w, s', w);
    }
  }

  lemma TransferStep(s: Spi, w: Wires, e: Event)
    requires TransferInv(s, w)
    ensures TransferInv(Step(s, e), Observe(s, w, e))
  {
    if !e.Clk? {
      ConsoleEdge(s, w, e);
    } else if PhaseOf(s).Launch? {
      LaunchEdge(s, w, e);
    } else if PhaseOf(s).Shifting? {
      ShiftingEdge(s, w, e);
    } else {
      IdleClockEdge(s, w, e);
      assert Observe(s, w, e) == w;
    }
  }

  lemma {:induction false} TransferRun(s: Spi, w: Wires, es: seq<Event>)
    requires TransferInv(s, w)
    ensures TransferInv(Run(s, es), RunWires(s, w, es))
  {
    if es != [] {
      TransferRun(s, w, es[..|es| - 1]);
      TransferStep(Run(s, es[..|es| - 1]), RunWires(s, w, es[..|es| - 1]), es[|es| - 1]);
    }
  }

  // ----- what the console can rely on -----

  /** The transfer recorded in `w` moved every byte it was configured for, and nothing else. */
  ghost predicate Complete(s: Spi, w: Wires) {
    var bs := Bytes(w.miso);
    var k := Skipped(s.cfg.mode, bs);
    && |w.miso| == |w.mosi| == 8 * (k + s.cfg.len + 1)
    && (!s.cfg.mode.ModeWrite? ==> Half(s.rx, s.cfg.mapped)[..s.cfg.len + 1] == bs[k..])
    && (forall i :: 0 <= i < |w.mosi| ==> w.mosi[i] == SentBit(s, i))
  }

  lemma EndedIsComplete(s: Spi, w: Wires)
    requires TransferInv(s, w) && Ended(s) && !w.cut
    ensures Complete(s, w)
  {
    var bs := Bytes(w.miso);
    var k := Skipped(s.cfg.mode, bs);
    if !s.cfg.mode.ModeWrite? {
      assert |bs| == k + s.cfg.len + 1;
      var stored := Half(s.rx, s.cfg.mapped)[..s.cfg.len + 1];
      forall i | 0 <= i < |stored| ensures stored[i] == bs[k..][i] {
        assert Half(s.rx, s.cfg.mapped)[i] == bs[k + i];
      }
    }
  }

  /** Main result: from power-up, under every interleaving, a transfer that ends uncut has
      clocked 8 * (skipped + len + 1) bits, stored exactly the bytes after the skipped ones and
      sent exactly the TX half; a cut one still ends on a byte boundary with a correct prefix. */
  lemma TransferRefinesBytes(s0: Spi, w0: Wires, es: seq<Event>)
    requires PowerUp(s0)
    ensures var s, w := Run(s0, es), RunWires(s0, w0, es);
            Ended(s) ==>
              && |w.miso| % 8 == 0 && BytesStored(s, w) && BitsSent(s, w)
              && (!w.cut ==> Complete(s, w))
  {
    PowerUpInv(s0);
    TransferRun(s0, w0, es);
    var s, w := Run(s0, es), RunWires(s0, w0, es);
    if Ended(s) && !w.cut {
      EndedIsComplete(s, w);
    }
  }

  predicate IsAbortWrite(e: Event) {
    e.Write? && e.sel.SelCntHi? && e.data < 128
  }

  lemma {:induction false} NoAbortRequested(s: Spi, es: seq<Event>)
    requires !s.abort.reqAsync && (forall e :: e in es ==> !IsAbortWrite(e))
    ensures !Run(s, es).abort.reqAsync
  {
    if es != [] {
      assert forall e :: e in es[..|es| - 1] ==> e in es;
      NoAbortRequested(s, es[..|es| - 1]);
      assert es[|es| - 1] in es;
    }
  }

  /** However late an earlier abort was issued, the transfer started next runs to its full length. */
  lemma LateAbortIsHarmless(s: Spi, w: Wires, start: Event, es: seq<Event>)
    requires TransferInv(s, w) && Accepts(s, start)
    requires forall e :: e in es ==> !IsAbortWrite(e)
    requires Ended(Run(Step(s, start), es))
    ensures Complete(Run(Step(s, start), es), RunWires(Step(s, start), w, es))
  {
    var t := Step(s, start);
    TransferStep(s, w, start);
    TransferRun(t, w, es);
    NoAbortRequested(t, es);
    EndedIsComplete(Run(t, es), RunWires(t, w, es));
  }

  /** While a transfer is outstanding the RX half the console reads does not change. */
  lemma {:induction false} ReadHalfIsStable(s: Spi, es: seq<Event>)
    requires StaysBusy(s, es)
    ensures Half(Run(s, es).rx, !s.cfg.mapped) == Half(s.rx, !s.cfg.mapped)
  {
    if es != [] {
      ReadHalfIsStable(s, es[..|es| - 1]);
      OutstandingIsStable(s, es[..|es| - 1]);
    }
  }

  lemma {:induction false} ReceivedStays(s: Spi, es: seq<Event>)
    requires Inv(s) && (Ended(s) || PhaseOf(s).Idle?) && AcceptedStarts(s, es) == 0
    ensures var t := Run(s, es); Inv(t) && (Ended(t) || PhaseOf(t).Idle?) && t.rx == s.rx
  {
    if es != [] {
      ReceivedStays(s, es[..|es| - 1]);
      PhaseStep(Run(s, es[..|es| - 1]), es[|es| - 1]);
    }
  }

  lemma ReadPair(s: Spi, addr: u9)
    requires addr % 2 == 0
    ensures Step(s, Read(addr)).rxRead == (Half(s.rx, !s.cfg.mapped)[addr], Half(s.rx, !s.cfg.mapped)[addr + 1])
  {
    assert addr / 2 * 2 == addr;
  }

  /** Flipping the buffer after a transfer shows the console the received bytes, two by two. */
  lemma ConsoleReadsReceived(s: Spi, w: Wires, es: seq<Event>, addr: u9)
    requires TransferInv(s, w) && Ended(s) && !w.cut && !s.cfg.mode.ModeWrite?
    requires AcceptedStarts(s, es) == 0 && Run(s, es).cfg.mapped != s.cfg.mapped
    requires addr % 2 == 0 && addr <= s.cfg.len
    ensures var bs := Bytes(w.miso);
            var k := Skipped(s.cfg.mode, bs);
            var (even, odd) := Step(Run(s, es), Read(addr)).rxRead;
            && k + s.cfg.len < |bs|
            && even == bs[k + addr]
            && (addr < s.cfg.len ==> odd == bs[k + addr + 1])
  {
    hide TransferInv, Inv, Step, Run, Bytes, Skipped, Half, AcceptedStarts;
    StillReceived(s, w, es);
    ReadPair(Run(s, es), addr);
    ReceivedByte(s, w, addr);
    if addr < s.cfg.len {
      ReceivedByte(s, w, addr + 1);
    }
  }

  lemma StillReceived(s: Spi, w: Wires, es: seq<Event>)
    requires TransferInv(s, w) && Ended(s) && AcceptedStarts(s, es) == 0
    ensures Run(s, es).rx == s.rx
  {
    ReceivedStays(s, es);
  }

  lemma ReceivedByte(s: Spi, w: Wires, i: u9)
    requires TransferInv(s, w) && Ended(s) && !w.cut && !s.cfg.mode.ModeWrite? && i <= s.cfg.len
    ensures var bs := Bytes(w.miso);
            var k := Skipped(s.cfg.mode, bs);
            k + s.cfg.len < |bs| && Half(s.rx, s.cfg.mapped)[i] == bs[k + i]
  {
    hide Bytes, Skipped;
  }
}
