/** What holds in every reachable state of an engine, over every mix of received bytes and
    application requests. */
module Invariants {
  import opened Sequences
  import opened Bytes
  import opened Events
  import opened QMethod
  import opened Decoder

  datatype Input = Receive(byte: byte, skip: bool) | Request(verb: Verb, telopt: byte)

  /** `skip` ranges over both values: whatever the window, the state after a byte is the same. */
  function After(e: Engine, x: Input): Engine {
    match x
    case Receive(b, skip) => Step(e, skip, b).engine
    case Request(v, o) => RequestOption(e, v, o).0
  }

  function Out(e: Engine, x: Input): seq<Event> {
    match x
    case Receive(b, skip) => Step(e, skip, b).out
    case Request(v, o) => RequestOption(e, v, o).1
  }

  function AfterAll(e: Engine, xs: seq<Input>): Engine {
    if xs == [] then e else After(AfterAll(e, xs[..|xs| - 1]), xs[|xs| - 1])
  }

  lemma {:induction false} AfterAllConcat(e: Engine, xs: seq<Input>, ys: seq<Input>)
    ensures AfterAll(e, xs + ys) == AfterAll(AfterAll(e, xs), ys)
  {
    if ys == [] {
      PlusNothing(xs);
    } else {
      var init, y := ys[..|ys| - 1], ys[|ys| - 1];
      Unsnoc(ys);
      Assoc(xs, init, [y]);
      Snoc(xs + init, y);
      AfterAllConcat(e, xs, init);
    }
  }

  /** The inputs a received string is. */
  function Receipts(bytes: seq<byte>): seq<Input> {
    if bytes == [] then [] else Receipts(bytes[..|bytes| - 1]) + [Receive(bytes[|bytes| - 1], false)]
  }

  /** What holds after every list of inputs holds after every call of the decoder. */
  lemma {:induction false} RunIsAfterAll(e: Engine, skip: bool, bytes: seq<byte>)
    ensures Run(e, skip, bytes).engine == AfterAll(e, Receipts(bytes))
  {
    if bytes != [] {
      var init, b := bytes[..|bytes| - 1], bytes[|bytes| - 1];
      var r := Run(e, skip, init);
      RunIsAfterAll(e, skip, init);
      StepSkip(r.engine, r.skip, b);
      Snoc(Receipts(init), Receive(b, false));
    }
  }

  predicate InSubnegotiation(m: Mode) { m.InSbData? || m.InSbDataIac? }

  // ----- The buffer -----

  predicate BufferSound(e: Engine) {
    && BufferSize(e.capacity)
    && |e.payload| <= e.capacity
    && (!InSubnegotiation(e.mode) ==> e.payload == [])
    && (e.sbTelopt == TELOPT_COMPRESS ==> WILL !in e.payload)
  }

  /** The table a reaction stores is the one QMethod says. */
  lemma ReactedTable(e: Engine, x: Stimulus)
    ensures Reacted(e, x).0.q == React(e.q, e.telopts, x).0
  {
    assert e.q[x.telopt := e.q[x.telopt]] == e.q;
  }

  lemma SixStatesStep(e: Engine, x: Stimulus)
    requires TableSixStates(e.q)
    ensures TableSixStates(Reacted(e, x).0.q)
  {
    TableRefines(e.q, e.telopts, x);
    ReactedTable(e, x);
  }

  /** Buffering keeps the size on the ladder, and fails exactly at the limit. */
  lemma BufferingKeeps(e: Engine, b: byte)
    requires BufferSound(e) && InSubnegotiation(e.mode)
    requires e.sbTelopt == TELOPT_COMPRESS ==> b != WILL
    ensures var r := Buffering(e, b);
            && BufferSound(r.engine) && e.capacity <= r.engine.capacity
            && (if |e.payload| == LIMIT then r.engine.mode == InData && r.out == [Warning(BufferLimit)]
                else r.engine.mode == InSbData && r.engine.payload == e.payload + [b] && r.out == [])
  {
  }

  /** Negotiation leaves the subnegotiation buffer alone. */
  lemma ReactedBuffer(e: Engine, x: Stimulus)
    ensures var e' := Reacted(e, x).0;
            e'.payload == e.payload && e'.capacity == e.capacity && e'.sbTelopt == e.sbTelopt && e'.mode == e.mode
  {
  }

  lemma SbDataKeepsBuffer(e: Engine, b: byte)
    requires BufferSound(e) && e.mode == InSbData
    ensures BufferSound(StepSbData(e, b).engine) && e.capacity <= StepSbData(e, b).engine.capacity
  {
    if b != IAC && !OldCompress(e, b) { BufferingKeeps(e, b); }
  }

  lemma SbDataIacKeepsBuffer(e: Engine, b: byte)
    requires BufferSound(e) && e.mode == InSbDataIac
    ensures BufferSound(StepSbDataIac(e, b).engine) && e.capacity <= StepSbDataIac(e, b).engine.capacity
  {
    if b == IAC { BufferingKeeps(e, IAC); }
  }

  lemma BufferKept(e: Engine, x: Input)
    requires BufferSound(e)
    ensures BufferSound(After(e, x)) && e.capacity <= After(e, x).capacity
  {
    match x
    case Request(v, o) => ReactedBuffer(e, Ask(v, o));
    case Receive(b, skip) =>
      match e.mode
      case InVerb(v) => ReactedBuffer(e, Hear(v, b));
      case InSbData => SbDataKeepsBuffer(e, b);
      case InSbDataIac => SbDataIacKeepsBuffer(e, b);
      case _ =>
  }

  // ----- Events that can occur -----

  predicate Framing(cmd: byte) {
    cmd == SB || cmd == WILL || cmd == WONT || cmd == DO || cmd == DONT || cmd == IAC
  }

  /** A subnegotiation the decoder can report: at most 16384 bytes, and for option 85 no
      byte 251, which would have been taken for an MCCPv1 sequence. */
  predicate Carries(telopt: byte, p: seq<byte>) {
    |p| <= LIMIT && (telopt == TELOPT_COMPRESS ==> WILL !in p)
  }

  predicate Possible(ev: Event) {
    match ev
    case Data(bs) => |bs| == 1
    case Iac(cmd) => !Framing(cmd)
    case Subnegotiation(o, p) => Carries(o, p)
    case _ => true
  }

  predicate AllPossible(es: seq<Event>) {
    forall ev :: ev in es ==> Possible(ev)
  }

  lemma PayloadEventsPossible(o: byte, p: seq<byte>)
    ensures AllPossible(PayloadEvents(o, p))
  {
  }

  lemma ReactionPossible(r: Reaction, o: byte)
    ensures AllPossible(ReactionEvents(r, o))
  {
  }

  lemma SubEventsPossible(o: byte, p: seq<byte>, b: byte)
    requires Carries(o, p)
    ensures AllPossible(SubEvents(o, p))
    ensures AllPossible([Warning(StrayCommand)] + SubEvents(o, p))
  {
    PayloadEventsPossible(o, p);
  }

  lemma StrayPossible(e: Engine, b: byte)
    requires Carries(e.sbTelopt, e.payload)
    ensures AllPossible(StepSbDataIac(e, b).out)
  {
    SubEventsPossible(e.sbTelopt, e.payload, b);
    assert AllPossible(StepIac(e.(mode := InIac, payload := []), b).out);
  }

  lemma EventsPossible(e: Engine, x: Input)
    requires BufferSound(e)
    ensures AllPossible(Out(e, x))
  {
    match x
    case Request(v, o) =>
      if !e.flags.proxy { ReactionPossible(React(e.q, e.telopts, Ask(v, o)).1, o); }
    case Receive(b, skip) =>
      match e.mode
      case InVerb(v) =>
        if !e.flags.proxy { ReactionPossible(React(e.q, e.telopts, Hear(v, b)).1, b); }
      case InSbDataIac => StrayPossible(e, b);
      case _ =>
  }

  lemma {:induction false} RunSound(e: Engine, xs: seq<byte>)
    requires BufferSound(e)
    ensures var r := Run(e, false, xs);
            BufferSound(r.engine) && e.capacity <= r.engine.capacity && AllPossible(r.out)
  {
    if xs != [] {
      var r := Run(e, false, xs[..|xs| - 1]);
      RunSound(e, xs[..|xs| - 1]);
      BufferKept(r.engine, Receive(xs[|xs| - 1], r.skip));
      EventsPossible(r.engine, Receive(xs[|xs| - 1], r.skip));
    }
  }

  lemma {:induction false} ChunksSound(e: Engine, cs: seq<seq<byte>>)
    requires BufferSound(e)
    ensures BufferSound(Chunks(e, cs).engine) && AllPossible(Chunks(e, cs).out)
  {
    if cs != [] {
      ChunksSound(e, cs[..|cs| - 1]);
      RunSound(Chunks(e, cs[..|cs| - 1]).engine, cs[|cs| - 1]);
    }
  }

  // ----- How far the buffer grows -----

  /** The smallest buffer size that holds `n` bytes. */
  function LeastSize(n: nat): nat {
    if n == 0 then 0 else if n <= 512 then 512 else if n <= 2048 then 2048 else if n <= 8192 then 8192 else 16384
  }

  function Max(a: nat, b: nat): nat { if a < b then b else a }

  /** The longest payload buffered so far. */
  function Peak(e: Engine, xs: seq<Input>): nat {
    if xs == [] then |e.payload| else Max(Peak(e, xs[..|xs| - 1]), |AfterAll(e, xs).payload|)
  }

  lemma BufferingGrows(e: Engine, b: byte, peak: nat)
    requires BufferSound(e) && |e.payload| <= peak && e.capacity == LeastSize(peak)
    ensures var e' := Buffering(e, b).engine; e'.capacity == LeastSize(Max(peak, |e'.payload|))
  {
  }

  lemma SbDataGrows(e: Engine, b: byte, peak: nat)
    requires BufferSound(e) && |e.payload| <= peak && e.capacity == LeastSize(peak)
    ensures var e' := StepSbData(e, b).engine; e'.capacity == LeastSize(Max(peak, |e'.payload|))
  {
    if b != IAC && !OldCompress(e, b) { BufferingGrows(e, b, peak); }
  }

  lemma SbDataIacGrows(e: Engine, b: byte, peak: nat)
    requires BufferSound(e) && |e.payload| <= peak && e.capacity == LeastSize(peak)
    ensures var e' := StepSbDataIac(e, b).engine; e'.capacity == LeastSize(Max(peak, |e'.payload|))
  {
    if b == IAC { BufferingGrows(e, IAC, peak); }
  }

  lemma BufferGrows(e: Engine, x: Input, peak: nat)
    requires BufferSound(e) && |e.payload| <= peak && e.capacity == LeastSize(peak)
    ensures After(e, x).capacity == LeastSize(Max(peak, |After(e, x).payload|))
  {
    match x
    case Request(v, o) => ReactedBuffer(e, Ask(v, o));
    case Receive(b, skip) =>
      match e.mode
      case InVerb(v) => ReactedBuffer(e, Hear(v, b));
      case InSbData => SbDataGrows(e, b, peak);
      case InSbDataIac => SbDataIacGrows(e, b, peak);
      case _ =>
  }

  /** Over every input since telnet_init the buffer has exactly the smallest size that holds the
      longest payload buffered so far. */
  lemma {:induction false} CapacityIsLeast(t: Telopts, proxy: bool, nvtEol: bool, xs: seq<Input>)
    ensures var e0 := Init(t, proxy, nvtEol);
            var e := AfterAll(e0, xs);
            BufferSound(e) && |e.payload| <= Peak(e0, xs) && e.capacity == LeastSize(Peak(e0, xs))
  {
    if xs != [] {
      var e0 := Init(t, proxy, nvtEol);
      var init, x := xs[..|xs| - 1], xs[|xs| - 1];
      CapacityIsLeast(t, proxy, nvtEol, init);
      BufferKept(AfterAll(e0, init), x);
      BufferGrows(AfterAll(e0, init), x, Peak(e0, init));
    }
  }

  // ----- The whole state -----

  /** The two BINARY flag bits say what option 0 has negotiated. */
  predicate BinaryMirrors(e: Engine) {
    && (e.flags.transmitBinary <==> QUs(e.q[0]) == Q_YES)
    && (e.flags.receiveBinary <==> QHim(e.q[0]) == Q_YES)
  }

  ghost predicate Sound(e: Engine) {
    BufferSound(e) && TableSixStates(e.q) && BinaryMirrors(e)
  }

  lemma ReactedKeeps(e: Engine, x: Stimulus)
    requires TableSixStates(e.q) && BinaryMirrors(e)
    ensures TableSixStates(Reacted(e, x).0.q) && BinaryMirrors(Reacted(e, x).0)
  {
    SixStatesStep(e, x);
  }

  /** Only a negotiation touches the option table, the flags or the support table. */
  lemma QuietStep(e: Engine, b: byte, skip: bool)
    requires !e.mode.InVerb?
    ensures var e' := Step(e, skip, b).engine; e'.q == e.q && e'.flags == e.flags && e'.telopts == e.telopts
  {
    match e.mode
    case InData =>
    case InEol =>
    case InIac =>
    case InSb =>
    case InSbData =>
    case InSbDataIac =>
  }

  lemma SoundStep(e: Engine, x: Input)
    requires Sound(e)
    ensures Sound(After(e, x)) && e.capacity <= After(e, x).capacity
  {
    BufferKept(e, x);
    match x
    case Request(v, o) => ReactedKeeps(e, Ask(v, o));
    case Receive(b, skip) =>
      if e.mode.InVerb? { ReactedKeeps(e, Hear(e.mode.verb, b)); } else { QuietStep(e, b, skip); }
  }

  /** From telnet_init with any of the two public flags, over every input: the buffer is on
      its ladder of sizes and never shrinks, the option bytes hold the six states, and the
      BINARY bits mirror option 0. */
  lemma {:induction false} AlwaysSound(t: Telopts, proxy: bool, nvtEol: bool, xs: seq<Input>)
    ensures var e := AfterAll(Init(t, proxy, nvtEol), xs);
            && Sound(e)
            && (forall k :: 0 <= k <= |xs| ==> AfterAll(Init(t, proxy, nvtEol), xs[..k]).capacity <= e.capacity)
  {
    var e0 := Init(t, proxy, nvtEol);
    if xs == [] {
      assert QUs(0) == Q_NO && QHim(0) == Q_NO;
      assert xs[..0] == xs;
    } else {
      var init := xs[..|xs| - 1];
      AlwaysSound(t, proxy, nvtEol, init);
      SoundStep(AfterAll(e0, init), xs[|xs| - 1]);
      forall k | 0 <= k <= |xs| ensures AfterAll(e0, xs[..k]).capacity <= AfterAll(e0, xs).capacity {
        if k < |xs| { assert xs[..k] == init[..k]; } else { assert xs[..k] == xs; }
      }
    }
  }

  /** The support table and the two public flags never change. */
  lemma ConfigurationStep(e: Engine, x: Input)
    ensures var e' := After(e, x);
            e'.telopts == e.telopts && e'.flags.proxy == e.flags.proxy && e'.flags.nvtEol == e.flags.nvtEol
  {
    if x.Receive? && !e.mode.InVerb? { QuietStep(e, x.byte, x.skip); }
  }

  lemma {:induction false} ConfigurationKept(e: Engine, xs: seq<Input>)
    ensures var e' := AfterAll(e, xs);
            e'.telopts == e.telopts && e'.flags.proxy == e.flags.proxy && e'.flags.nvtEol == e.flags.nvtEol
  {
    if xs != [] {
      ConfigurationKept(e, xs[..|xs| - 1]);
      ConfigurationStep(AfterAll(e, xs[..|xs| - 1]), xs[|xs| - 1]);
    }
  }

  /** `e` is what telnet_init and then `inputs` lead to. */
  predicate Traces(e: Engine, inputs: seq<Input>) {
    e == AfterAll(Init(e.telopts, e.flags.proxy, e.flags.nvtEol), inputs)
  }

  lemma TracesMore(e: Engine, past: seq<Input>, more: seq<Input>)
    requires Traces(e, past)
    ensures Traces(AfterAll(e, more), past + more)
  {
    AfterAllConcat(Init(e.telopts, e.flags.proxy, e.flags.nvtEol), past, more);
    ConfigurationKept(e, more);
  }

  /** The input a call of telnet_negotiate is, if its command is a verb, and where it leads. */
  function Requested(v: Option<Verb>, o: byte): seq<Input> {
    if v.Some? then [Request(v.value, o)] else []
  }

  function AfterRequest(e: Engine, v: Option<Verb>, o: byte): Engine {
    if v.Some? then RequestOption(e, v.value, o).0 else e
  }

  lemma TracesRequest(e: Engine, past: seq<Input>, v: Option<Verb>, o: byte)
    requires Traces(e, past)
    ensures Traces(AfterRequest(e, v, o), past + Requested(v, o))
  {
    TracesMore(e, past, Requested(v, o));
    if v.Some? { assert [Request(v.value, o)][..0] == []; }
  }

  // ----- Unsupported options -----

  lemma ReactedStaysOff(e: Engine, x: Stimulus, o: byte)
    ensures var e' := Reacted(e, x).0;
            && (QUs(e.q[o]) == Q_NO && !SupportsLocal(e.telopts, o) && x != Ask(VWill, o) ==> QUs(e'.q[o]) == Q_NO)
            && (QHim(e.q[o]) == Q_NO && !SupportsRemote(e.telopts, o) && x != Ask(VDo, o) ==> QHim(e'.q[o]) == Q_NO)
  {
  }

  lemma StaysOff(e: Engine, x: Input, o: byte)
    ensures var e' := After(e, x);
            && (QUs(e.q[o]) == Q_NO && !SupportsLocal(e.telopts, o) && x != Request(VWill, o) ==> QUs(e'.q[o]) == Q_NO)
            && (QHim(e.q[o]) == Q_NO && !SupportsRemote(e.telopts, o) && x != Request(VDo, o) ==> QHim(e'.q[o]) == Q_NO)
  {
    match x
    case Request(v, t) => ReactedStaysOff(e, Ask(v, t), o);
    case Receive(b, skip) =>
      if e.mode.InVerb? { ReactedStaysOff(e, Hear(e.mode.verb, b), o); } else { QuietStep(e, b, skip); }
  }

  /** Bit 1 of an option's entry offers our side, bit 0 accepts the peer's. */
  predicate Offers(t: Telopts, o: byte) { t.Table? && t.entries[o] % 4 >= 2 }

  predicate Accepts(t: Telopts, o: byte) { t.Table? && t.entries[o] % 2 == 1 }

  lemma SupportIs(t: Telopts, o: byte)
    ensures (SupportsLocal(t, o) <==> Offers(t, o)) && (SupportsRemote(t, o) <==> Accepts(t, o))
  {
  }

  lemma OffStep(t: Telopts, e: Engine, x: Input, o: byte)
    requires e.telopts == t
    ensures var e' := After(e, x);
            && e'.telopts == t
            && (QUs(e.q[o]) == Q_NO && !Offers(t, o) && x != Request(VWill, o) ==> QUs(e'.q[o]) == Q_NO)
            && (QHim(e.q[o]) == Q_NO && !Accepts(t, o) && x != Request(VDo, o) ==> QHim(e'.q[o]) == Q_NO)
  {
    SupportIs(t, o);
    ConfigurationStep(e, x);
    StaysOff(e, x, o);
  }

  /** A side that is neither supported nor requested stays off through every input. */
  lemma {:induction false} UnsupportedStaysOff(t: Telopts, proxy: bool, nvtEol: bool, xs: seq<Input>, o: byte)
    ensures var e := AfterAll(Init(t, proxy, nvtEol), xs);
            && e.telopts == t
            && (!Offers(t, o) && Request(VWill, o) !in xs ==> QUs(e.q[o]) == Q_NO)
            && (!Accepts(t, o) && Request(VDo, o) !in xs ==> QHim(e.q[o]) == Q_NO)
  {
    if xs == [] {
      assert QUs(0) == Q_NO && QHim(0) == Q_NO;
    } else {
      var init, x := xs[..|xs| - 1], xs[|xs| - 1];
      Unsnoc(xs);
      UnsupportedStaysOff(t, proxy, nvtEol, init, o);
      OffStep(t, AfterAll(Init(t, proxy, nvtEol), init), x, o);
    }
  }

  // ----- The wire between two peers -----

  function MsgBytes(ms: seq<Msg>): seq<byte> {
    if ms == [] then [] else MsgBytes(ms[..|ms| - 1]) + NegotiationBytes(ms[|ms| - 1].verb, ms[|ms| - 1].telopt)
  }

  lemma WireOfSend(bytes: seq<byte>, rest: seq<Event>)
    requires forall ev :: ev in rest ==> !ev.Send?
    ensures Wire([Send(bytes)] + rest) == bytes && Wire(rest) == []
  {
    if rest == [] {
      assert [Send(bytes)] + rest == [Send(bytes)] && [Send(bytes)][..0] == [];
      assert [] + bytes == bytes;
    } else {
      var init, x := rest[..|rest| - 1], rest[|rest| - 1];
      Unsnoc(rest);
      WireOfSend(bytes, init);
      Assoc([Send(bytes)], init, [x]);
      WireSnoc([Send(bytes)] + init, x);
      WireSnoc(init, x);
    }
  }

  lemma OneMsg(m: Msg)
    ensures MsgBytes([m]) == NegotiationBytes(m.verb, m.telopt)
  {
    assert [m][..0] == [];
    PlusNothing(NegotiationBytes(m.verb, m.telopt));
  }

  /** What a reaction sends is what QMethod says it sends. */
  lemma ReactionWire(r: Reaction, o: byte)
    ensures Wire(ReactionEvents(r, o)) == MsgBytes(Replies(r, o))
  {
    var notices := if r.notice.Some? then [Negotiation(r.notice.value, o)] else [];
    var warnings := if r.warned then [Warning(AnsweredBackwards)] else [];
    if r.reply.Some? {
      var bytes := NegotiationBytes(r.reply.value, o);
      WireOfSend(bytes, notices + warnings);
      Assoc([Send(bytes)], notices, warnings);
      OneMsg(Msg(r.reply.value, o));
    } else {
      WireOfSend([], notices + warnings);
      PlusNothing(notices);
    }
  }

  /** Outside PROXY mode the option byte after a verb is one stimulus of the Q method. */
  lemma HeardStep(e: Engine, v: Verb, o: byte)
    requires e.mode == InVerb(v) && !e.flags.proxy
    ensures var s := Step(e, false, o);
            && s.engine.mode == InData && !s.skip && !s.engine.flags.proxy && s.engine.telopts == e.telopts
            && s.engine.q == React(e.q, e.telopts, Hear(v, o)).0
            && s.out == ReactionEvents(React(e.q, e.telopts, Hear(v, o)).1, o)
  {
    ReactedTable(e, Hear(v, o));
  }
}
