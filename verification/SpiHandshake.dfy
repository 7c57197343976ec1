// The start/busy/abort handshake between the console bus and TransferClk, over
// every interleaving of the three kinds of edge.

module SpiHandshake {
  import opened SpiEngine

  /** Where an outstanding transfer is on its way through the synchronisers. */
  datatype Phase = Idle | Sync0 | Sync1 | Launch | Shifting | Closing | Ack0 | Ack1

  function PhaseOf(s: Spi): Phase {
    if !s.Busy() then Idle
    else if s.eng.running then Shifting
    else if s.eng.lastPeriodDelay then Closing
    else if s.hs.feedbackClk == s.hs.startAsync then (if s.hs.feedback0 == s.hs.startAsync then Ack1 else Ack0)
    else if s.hs.start0 != s.hs.startAsync then Sync0
    else if s.hs.start1 != s.hs.startAsync then Sync1
    else Launch
  }

  predicate Quiet(s: Spi) {
    !s.eng.running && !s.eng.lastPeriodDelay && s.eng.bitPosition == 0
  }

  /** The toggles hold the one pattern that belongs to the phase. */
  predicate Coherent(s: Spi) {
    var a := s.hs.startAsync;
    match PhaseOf(s)
    case Idle => s.hs == Handshake(a, a, a, a, a, a, a) && Quiet(s)
    case Sync0 => s.hs == Handshake(a, !a, !a, !a, !a, !a, !a) && Quiet(s)
    case Sync1 => s.hs == Handshake(a, a, !a, !a, !a, !a, !a) && Quiet(s)
    case Launch => s.hs == Handshake(a, a, a, !a, !a, !a, !a) && Quiet(s)
    case Shifting => s.hs == Handshake(a, a, a, a, !a, !a, !a) && !s.eng.lastPeriodDelay
    case Closing => s.hs == Handshake(a, a, a, a, !a, !a, !a) && s.eng.bitPosition == 0
    case Ack0 => s.hs == Handshake(a, a, a, a, a, !a, !a) && Quiet(s)
    case Ack1 => s.hs == Handshake(a, a, a, a, a, a, !a) && Quiet(s)
  }

  /** From Launch on, the abort synchroniser holds only what was requested of this transfer. */
  predicate AbortFresh(s: Spi) {
    var p := PhaseOf(s);
    && (p.Sync1? ==> (s.abort.req0 ==> s.abort.reqAsync))
    && (p.Launch? || p.Shifting? ==> (s.abort.req1 ==> s.abort.req0) && (s.abort.req0 ==> s.abort.reqAsync))
  }

  predicate Inv(s: Spi) {
    Coherent(s) && AbortFresh(s)
  }

  /** The eight-phase machine that the registers implement. */
  function NextPhase(s: Spi, e: Event): Phase {
    match PhaseOf(s)
    case Idle => if Accepts(s, e) then Sync0 else Idle
    case Sync0 => if e.Clk? then Sync1 else Sync0
    case Sync1 => if e.Clk? then Launch else Sync1
    case Launch => if e.Clk? then Shifting else Launch
    case Shifting => if e.Clk? && LastPeriod(s, Miso(s, e.spiDi, e.tfDi)) then Closing else Shifting
    case Closing => if e.Clk? then Ack0 else Closing
    case Ack0 => if e.Read? then Ack1 else Ack0
    case Ack1 => if e.Read? then Idle else Ack1
  }

  lemma PowerUpInv(s: Spi)
    requires PowerUp(s)
    ensures Inv(s) && PhaseOf(s) == Idle
  {
  }

  /** Every edge, in every state, moves the registers as the phase machine says. */
  lemma PhaseStep(s: Spi, e: Event)
    requires Inv(s)
    ensures Inv(Step(s, e))
    ensures PhaseOf(Step(s, e)) == NextPhase(s, e)
  {
  }

  lemma {:induction false} RunInv(s: Spi, es: seq<Event>)
    requires Inv(s)
    ensures Inv(Run(s, es))
  {
    if es != [] {
      RunInv(s, es[..|es| - 1]);
      PhaseStep(Run(s, es[..|es| - 1]), es[|es| - 1]);
    }
  }

  /** In every reachable state, work pending or under way shows as busy. */
  lemma PendingIsBusy(s0: Spi, es: seq<Event>)
    requires PowerUp(s0)
    ensures var s := Run(s0, es);
            s.hs.Start() || s.eng.running || s.eng.lastPeriodDelay ==> s.Busy()
  {
    PowerUpInv(s0);
    RunInv(s0, es);
  }

  /** The states of the run are all busy, the first and the last included. */
  predicate StaysBusy(s: Spi, es: seq<Event>) {
    Run(s, es).Busy() && (es == [] || StaysBusy(s, es[..|es| - 1]))
  }

  /** Nothing the console does while a transfer is outstanding changes its configuration
      or the TX half being sent. */
  lemma {:induction false} OutstandingIsStable(s: Spi, es: seq<Event>)
    requires StaysBusy(s, es)
    ensures Run(s, es).cfg == s.cfg
    ensures Run(s, es).hs.startAsync == s.hs.startAsync
    ensures Half(Run(s, es).tx, !s.cfg.mapped) == Half(s.tx, !s.cfg.mapped)
    ensures s.abort.reqAsync ==> Run(s, es).abort.reqAsync
  {
    if es != [] {
      OutstandingIsStable(s, es[..|es| - 1]);
    }
  }

  // ----- every accepted start gives one Start pulse and one end of transfer -----

  function AcceptedStarts(s: Spi, es: seq<Event>): nat {
    if es == [] then 0 else
      var prev := es[..|es| - 1];
      AcceptedStarts(s, prev) + (if Accepts(Run(s, prev), es[|es| - 1]) then 1 else 0)
  }

  /** Clock edges at which Start is high. */
  function StartPulses(s: Spi, es: seq<Event>): nat {
    if es == [] then 0 else
      var prev := es[..|es| - 1];
      StartPulses(s, prev) + (if es[|es| - 1].Clk? && Run(s, prev).hs.Start() then 1 else 0)
  }

  /** Clock edges at which LastPeriod is high. */
  function LastPeriods(s: Spi, es: seq<Event>): nat {
    if es == [] then 0 else
      var prev := es[..|es| - 1];
      var e := es[|es| - 1];
      LastPeriods(s, prev) +
      (if e.Clk? && LastPeriod(Run(s, prev), Miso(Run(s, prev), e.spiDi, e.tfDi)) then 1 else 0)
  }

  lemma {:induction false} StartsAreConserved(s: Spi, es: seq<Event>)
    requires Inv(s) && PhaseOf(s) == Idle
    ensures var p := PhaseOf(Run(s, es));
            && AcceptedStarts(s, es) == StartPulses(s, es) + (if p.Sync0? || p.Sync1? || p.Launch? then 1 else 0)
            && StartPulses(s, es) == LastPeriods(s, es) + (if p.Shifting? then 1 else 0)
  {
    if es != [] {
      var prev := es[..|es| - 1];
      StartsAreConserved(s, prev);
      RunInv(s, prev);
      PhaseStep(Run(s, prev), es[|es| - 1]);
    }
  }

  // ----- an abort ends the transfer in bounded time -----

  function Clks(es: seq<Event>): nat {
    if es == [] then 0 else Clks(es[..|es| - 1]) + (if es[|es| - 1].Clk? then 1 else 0)
  }

  function Reads(es: seq<Event>): nat {
    if es == [] then 0 else Reads(es[..|es| - 1]) + (if es[|es| - 1].Read? then 1 else 0)
  }

  /** Clock edges until the feedback toggles, once an abort has been requested. */
  function EdgesLeft(s: Spi): nat {
    var b := s.eng.bitPosition;
    match PhaseOf(s)
    case Sync0 => 12
    case Sync1 => 11
    case Launch => 10
    case Shifting =>
      if s.abort.req1 then 9 - b
      else if s.abort.req0 then (if b == 7 then 10 else 9 - b)
      else (if b == 7 then 10 else if b == 6 then 11 else 9 - b)
    case Closing => 1
    case _ => 0
  }

  lemma AbortProgress(s: Spi, e: Event)
    requires Inv(s) && s.Busy() && s.abort.reqAsync && Step(s, e).Busy()
    ensures Step(s, e).abort.reqAsync
    ensures EdgesLeft(Step(s, e)) <= if e.Clk? && EdgesLeft(s) > 0 then EdgesLeft(s) - 1 else EdgesLeft(s)
  {
  }

  lemma {:induction false} AbortRun(s: Spi, es: seq<Event>)
    requires Inv(s) && s.abort.reqAsync && StaysBusy(s, es)
    ensures s.Busy() && Inv(Run(s, es)) && Run(s, es).abort.reqAsync
    ensures EdgesLeft(Run(s, es)) <= if EdgesLeft(s) > Clks(es) then EdgesLeft(s) - Clks(es) else 0
    ensures EdgesLeft(s) == 0 ==> Reads(es) <= (if PhaseOf(s) == Ack0 then 1 else 0)
    ensures EdgesLeft(s) == 0 && PhaseOf(s) == Ack0 && Reads(es) == 0 ==> PhaseOf(Run(s, es)) == Ack0
    ensures EdgesLeft(s) == 0 && (PhaseOf(s) == Ack1 || Reads(es) > 0) ==> PhaseOf(Run(s, es)) == Ack1
  {
    if es != [] {
      var prev := es[..|es| - 1];
      AbortRun(s, prev);
      PhaseStep(Run(s, prev), es[|es| - 1]);
      AbortProgress(Run(s, prev), es[|es| - 1]);
    }
  }

  lemma {:induction false} RunSplit(s: Spi, es: seq<Event>, fs: seq<Event>)
    ensures Run(s, es + fs) == Run(Run(s, es), fs)
    ensures StaysBusy(s, es + fs) ==> StaysBusy(s, es) && StaysBusy(Run(s, es), fs)
  {
    if fs == [] {
      assert es + fs == es;
    } else {
      RunSplit(s, es, fs[..|fs| - 1]);
      assert (es + fs)[..|es + fs| - 1] == es + fs[..|fs| - 1];
    }
  }

  /** After an abort, twelve clock edges and two reads always bring busy down: a run that
      stays busy cannot contain them, whatever else it contains and whatever arrives. */
  lemma AbortCompletes(s: Spi, es: seq<Event>, fs: seq<Event>)
    requires Inv(s) && s.abort.reqAsync
    requires Clks(es) >= 12 && Reads(fs) >= 2
    ensures !StaysBusy(s, es + fs)
  {
    RunSplit(s, es, fs);
    if StaysBusy(s, es + fs) {
      AbortRun(s, es);
      AbortRun(Run(s, es), fs);
      assert false;
    }
  }
}
