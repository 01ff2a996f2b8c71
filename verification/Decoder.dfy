/** The decoder as a transducer: one byte in, a new state and some events out. */
module Decoder {
  import opened Sequences
  import opened Bytes
  import opened Events
  import opened QMethod
  import Environ
  import Mssp
  import ZmpCodec

  /** `telnet_state_t`; the four negotiation states carry their verb. */
  datatype Mode = InData | InEol | InIac | InVerb(verb: Verb) | InSb | InSbData | InSbDataIac

  datatype Flags = Flags(proxy: bool, nvtEol: bool, transmitBinary: bool, receiveBinary: bool)

  /** `struct telnet_t`. `payload` is the buffered part of the subnegotiation being read, and
      empty outside one; `capacity` is the allocated buffer size. */
  datatype Engine = Engine(telopts: Telopts, mode: Mode, flags: Flags, q: ByteTable, sbTelopt: byte,
                           payload: seq<byte>, capacity: nat)

  function Init(telopts: Telopts, proxy: bool, nvtEol: bool): Engine {
    Engine(telopts, InData, Flags(proxy, nvtEol, false, false), seq(256, _ => 0), 0, [], 0)
  }

  // ----- Negotiation -----

  /** `_set_rfc1143`: option 0 also keeps two flag bits. */
  function Store(e: Engine, telopt: byte, q: byte): Engine {
    e.(q := e.q[telopt := q],
       flags := if telopt != TELOPT_BINARY then e.flags
                else e.flags.(transmitBinary := QUs(q) == Q_YES, receiveBinary := QHim(q) == Q_YES))
  }

  function NegotiationBytes(v: Verb, telopt: byte): seq<byte> {
    [IAC, Code(v), telopt]
  }

  /** The events of a reaction, in the order the source raises them. */
  function ReactionEvents(r: Reaction, telopt: byte): seq<Event> {
    (if r.reply.Some? then [Send(NegotiationBytes(r.reply.value, telopt))] else [])
    + (if r.notice.Some? then [Negotiation(r.notice.value, telopt)] else [])
    + (if r.warned then [Warning(AnsweredBackwards)] else [])
  }

  function Reacted(e: Engine, x: Stimulus): (Engine, seq<Event>) {
    var q := e.q[x.telopt];
    var (table, r) := React(e.q, e.telopts, x);
    (if table[x.telopt] == q then e else Store(e, x.telopt, table[x.telopt]), ReactionEvents(r, x.telopt))
  }

  /** `_negotiate`. */
  function Negotiate(e: Engine, v: Verb, telopt: byte): (Engine, seq<Event>) {
    if e.flags.proxy then (e, [Negotiation(v, telopt)]) else Reacted(e, Hear(v, telopt))
  }

  /** `telnet_negotiate` with one of the four verbs. */
  function RequestOption(e: Engine, v: Verb, telopt: byte): (Engine, seq<Event>) {
    if e.flags.proxy then (e, [Send(NegotiationBytes(v, telopt))]) else Reacted(e, Ask(v, telopt))
  }

  // ----- Subnegotiation -----

  const TTYPE_IS: byte := 0
  const TTYPE_SEND: byte := 1

  /** `_ttype_telnet`. */
  function TtypeOutcome(p: seq<byte>): seq<Event> {
    if p == [] || (p[0] != TTYPE_IS && p[0] != TTYPE_SEND) then [Warning(BadTtype)]
    else [Ttype(p[0], if p[0] == TTYPE_IS then Some(p[1..]) else None)]
  }

  function PayloadEvents(telopt: byte, p: seq<byte>): seq<Event> {
    if telopt == TELOPT_ZMP then ZmpCodec.Outcome(p)
    else if telopt == TELOPT_TTYPE then TtypeOutcome(p)
    else if telopt == TELOPT_ENVIRON || telopt == TELOPT_NEW_ENVIRON then Environ.Outcome(p)
    else if telopt == TELOPT_MSSP then Mssp.Outcome(p)
    else []
  }

  function SubEvents(telopt: byte, p: seq<byte>): seq<Event> {
    [Subnegotiation(telopt, p)] + PayloadEvents(telopt, p)
  }

  /** `_subnegotiate` returns non-zero: the decoder starts over on the rest of its input. */
  predicate SubRestarts(telopt: byte, p: seq<byte>) {
    (telopt == TELOPT_ENVIRON || telopt == TELOPT_NEW_ENVIRON) && Environ.Succeeds(p)
  }

  const LIMIT: nat := 16384

  predicate BufferSize(n: nat) { n == 0 || n == 512 || n == 2048 || n == 8192 || n == LIMIT }

  /** The next entry of `_buffer_sizes`, if there is one. */
  function NextSize(n: nat): Option<nat> {
    if n == 0 then Some(512) else if n == 512 then Some(2048) else if n == 2048 then Some(8192)
    else if n == 8192 then Some(LIMIT) else None
  }

  datatype Buffered = Buffered(engine: Engine, ok: bool)

  /** `_buffer_byte`. */
  function BufferByte(e: Engine, b: byte): Buffered {
    if |e.payload| != e.capacity then Buffered(e.(payload := e.payload + [b]), true)
    else match NextSize(e.capacity)
      case None => Buffered(e, false)
      case Some(n) => Buffered(e.(payload := e.payload + [b], capacity := n), true)
  }

  // ----- One byte -----

  /** `skip`: the window starts one past the current byte, so that byte is dropped if it is
      data. Only the MCCPv1 branch sets it, and only within one call of `_process`. */
  datatype Stepped = Stepped(engine: Engine, skip: bool, out: seq<Event>)

  predicate Translates(f: Flags) { f.nvtEol && !f.receiveBinary }

  /** Ordinary data in this state, as opposed to IAC or a CR to translate. */
  predicate IsPlain(f: Flags, b: byte) { b != IAC && !(b == CR && Translates(f)) }

  function StepData(e: Engine, skip: bool, b: byte): Stepped {
    if IsPlain(e.flags, b) then Stepped(e, false, if skip then [] else [Data([b])])
    else Stepped(e.(mode := if b == IAC then InIac else InEol), false, if skip then [Wrapped] else [])
  }

  function StepEol(e: Engine, b: byte): Stepped {
    Stepped(e.(mode := InData), false,
            if b == LF then [Data([LF])] else if b == NUL then [Data([CR])] else [Data([CR]), Data([b])])
  }

  function StepIac(e: Engine, b: byte): Stepped {
    if b == SB then Stepped(e.(mode := InSb), false, [])
    else if b == WILL then Stepped(e.(mode := InVerb(VWill)), false, [])
    else if b == WONT then Stepped(e.(mode := InVerb(VWont)), false, [])
    else if b == DO then Stepped(e.(mode := InVerb(VDo)), false, [])
    else if b == DONT then Stepped(e.(mode := InVerb(VDont)), false, [])
    else Stepped(e.(mode := InData), false, if b == IAC then [Data([IAC])] else [Iac(b)])
  }

  function StepVerb(e: Engine, v: Verb, telopt: byte): Stepped {
    var (e', out) := Negotiate(e, v, telopt);
    Stepped(e'.(mode := InData), false, out)
  }

  function Buffering(e: Engine, b: byte): Stepped {
    var r := BufferByte(e, b);
    if r.ok then Stepped(r.engine.(mode := InSbData), false, [])
    else Stepped(e.(mode := InData, payload := []), false, [Warning(BufferLimit)])
  }

  /** The old MCCPv1 start sequence, IAC SB 85 WILL. */
  predicate OldCompress(e: Engine, b: byte) { e.sbTelopt == TELOPT_COMPRESS && b == WILL }

  function StepSbData(e: Engine, b: byte): Stepped {
    if b == IAC then Stepped(e.(mode := InSbDataIac), false, [])
    else if OldCompress(e, b) then Stepped(e.(mode := InData, payload := []), true, [])
    else Buffering(e, b)
  }

  function StepSbDataIac(e: Engine, b: byte): Stepped {
    var ended := SubEvents(e.sbTelopt, e.payload);
    if b == SE then Stepped(e.(mode := InData, payload := []), false, ended)
    else if b == IAC then Buffering(e, IAC)
    else
      var out := [Warning(StrayCommand)] + ended;
      var e' := e.(mode := InIac, payload := []);
      if SubRestarts(e.sbTelopt, e.payload) then Stepped(e', false, out)
      else
        var r := StepIac(e', b);
        Stepped(r.engine, false, out + r.out)
  }

  function Step(e: Engine, skip: bool, b: byte): Stepped {
    match e.mode
    case InData => StepData(e, skip, b)
    case InEol => StepEol(e, b)
    case InIac => StepIac(e, b)
    case InVerb(v) => StepVerb(e, v, b)
    case InSb => Stepped(e.(sbTelopt := b, payload := [], mode := InSbData), false, [])
    case InSbData => StepSbData(e, b)
    case InSbDataIac => StepSbDataIac(e, b)
  }

  /** A stray command inside a subnegotiation ends it and is then read as a command, exactly
      unless its payload is a well-formed one of option 36 or 39: then the decoder starts over. */
  lemma StrayIsCommand(e: Engine, b: byte)
    requires e.mode == InSbDataIac && b != SE && b != IAC
    ensures var s := StepIac(e.(mode := InIac, payload := []), b);
            Step(e, false, b)
            == Stepped(s.engine, false, [Warning(StrayCommand)] + SubEvents(e.sbTelopt, e.payload) + s.out)
            <==> !((e.sbTelopt == 36 || e.sbTelopt == 39) && Environ.WellFormed(e.payload))
  {
    Environ.AcceptsWellFormed(e.payload);
    assert StepIac(e.(mode := InIac, payload := []), b).engine.mode != InIac;
  }

  /** A run of bytes within one window. */
  function Run(e: Engine, skip: bool, xs: seq<byte>): Stepped {
    if xs == [] then Stepped(e, skip, []) else
      var r := Run(e, skip, xs[..|xs| - 1]);
      var s := Step(r.engine, r.skip, xs[|xs| - 1]);
      Stepped(s.engine, s.skip, r.out + s.out)
  }

  datatype Received = Received(engine: Engine, out: seq<Event>)

  /** One call of telnet_recv: a run from a fresh window, and the flush at its end. */
  function Chunk(e: Engine, xs: seq<byte>): Received {
    var r := Run(e, false, xs);
    Received(r.engine, r.out + if r.skip then [Wrapped] else [])
  }

  /** Any number of calls. */
  function Chunks(e: Engine, cs: seq<seq<byte>>): Received {
    if cs == [] then Received(e, []) else
      var r := Chunks(e, cs[..|cs| - 1]);
      var s := Chunk(r.engine, cs[|cs| - 1]);
      Received(s.engine, r.out + s.out)
  }

  function Flat(cs: seq<seq<byte>>): seq<byte> {
    if cs == [] then [] else Flat(cs[..|cs| - 1]) + cs[|cs| - 1]
  }

  /** Where the window starts matters to the report of data, and to nothing else. */
  lemma StepSkip(e: Engine, skip: bool, b: byte)
    ensures Step(e, skip, b).engine == Step(e, false, b).engine && Step(e, skip, b).skip == Step(e, false, b).skip
    ensures forall ev :: ev in Step(e, skip, b).out && !ev.Data? && !ev.Wrapped? ==> ev in Step(e, false, b).out
    ensures forall ev :: ev in Step(e, false, b).out && !ev.Data? && !ev.Wrapped? ==> ev in Step(e, skip, b).out
  {
    match e.mode
    case InData =>
    case InSbDataIac =>
    case _ =>
  }

  // ----- Composition -----

  lemma RunSnoc(e: Engine, skip: bool, xs: seq<byte>, b: byte)
    ensures var r, s := Run(e, skip, xs), Step(Run(e, skip, xs).engine, Run(e, skip, xs).skip, b);
            Run(e, skip, xs + [b]) == Stepped(s.engine, s.skip, r.out + s.out)
  {
    assert (xs + [b])[..|xs + [b]| - 1] == xs;
  }

  lemma ChunksMore(e: Engine, cs: seq<seq<byte>>, k: nat)
    requires k < |cs|
    ensures var r := Chunks(e, cs[..k]);
            var s := Chunk(r.engine, cs[k]);
            Chunks(e, cs[..k + 1]) == Received(s.engine, r.out + s.out)
  {
    TakeMore(cs, k);
  }

  lemma {:induction false} RunConcat(e: Engine, skip: bool, x: seq<byte>, y: seq<byte>)
    ensures var r := Run(e, skip, x);
            var s := Run(r.engine, r.skip, y);
            Run(e, skip, x + y) == Stepped(s.engine, s.skip, r.out + s.out)
  {
    var r := Run(e, skip, x);
    if y == [] {
      PlusNothing(x);
      PlusNothing(r.out);
    } else {
      var init, b := y[..|y| - 1], y[|y| - 1];
      Unsnoc(y);
      Assoc(x, init, [b]);
      RunConcat(e, skip, x, init);
      RunSnoc(e, skip, x + init, b);
      var s := Run(r.engine, r.skip, init);
      Assoc(r.out, s.out, Step(s.engine, s.skip, b).out);
    }
  }

  lemma RunOne(e: Engine, skip: bool, b: byte)
    ensures Run(e, skip, [b]) == Step(e, skip, b)
  {
    RunSnoc(e, skip, [], b);
    assert [] + [b] == [b];
  }

  lemma RunCons(e: Engine, skip: bool, b: byte, y: seq<byte>)
    ensures var r := Step(e, skip, b);
            var s := Run(r.engine, r.skip, y);
            Run(e, skip, [b] + y) == Stepped(s.engine, s.skip, r.out + s.out)
  {
    RunOne(e, skip, b);
    RunConcat(e, skip, [b], y);
  }

  /** Only the MCCPv1 branch leaves the window one past the end, and always in InData. */
  lemma SkipInData(e: Engine, xs: seq<byte>)
    ensures Run(e, false, xs).skip ==> Run(e, false, xs).engine.mode == InData
  {
  }

  /** The last byte of `xs` completes an MCCPv1 sequence: it is 251, read as a payload byte of
      option 85. */
  predicate EndsOldCompress(e: Engine, xs: seq<byte>) {
    xs != [] &&
    var r := Run(e, false, xs[..|xs| - 1]).engine;
    r.mode == InSbData && r.sbTelopt == TELOPT_COMPRESS && xs[|xs| - 1] == WILL
  }

  lemma SkipsExactly(e: Engine, xs: seq<byte>)
    ensures Run(e, false, xs).skip <==> EndsOldCompress(e, xs)
  {
    if xs != [] { StepSkips(Run(e, false, xs[..|xs| - 1]).engine, Run(e, false, xs[..|xs| - 1]).skip, xs[|xs| - 1]); }
  }

  lemma StepSkips(e: Engine, skip: bool, b: byte)
    ensures Step(e, skip, b).skip <==> e.mode == InSbData && e.sbTelopt == TELOPT_COMPRESS && b == WILL
  {
  }

  // ----- Chunk independence -----

  /** What the flush at the end of a call adds. */
  function Tail(skip: bool): seq<Event> {
    if skip then [Wrapped] else []
  }

  lemma SplitInWindow(e: Engine, x: seq<byte>, y: seq<byte>)
    requires !Run(e, false, x).skip
    ensures Chunk(e, x + y).engine == Chunk(Chunk(e, x).engine, y).engine
    ensures Chunk(e, x + y).out == Chunk(e, x).out + Chunk(Chunk(e, x).engine, y).out
  {
    var r := Run(e, false, x);
    var s := Run(r.engine, false, y);
    RunConcat(e, false, x, y);
    PlusNothing(r.out);
    Assoc(r.out, s.out, Tail(s.skip));
  }

  /** Leaving the window behind changes the report of the next byte and nothing after it. */
  lemma SkipOnce(e: Engine, b: byte, z: seq<byte>)
    requires e.mode == InData
    ensures var s := Run(Step(e, false, b).engine, false, z);
            var plain := IsPlain(e.flags, b);
            && Run(e, true, [b] + z) == Stepped(s.engine, s.skip, (if plain then [] else [Wrapped]) + s.out)
            && Run(e, false, [b] + z) == Stepped(s.engine, s.skip, (if plain then [Data([b])] else []) + s.out)
  {
    RunCons(e, true, b, z);
    RunCons(e, false, b, z);
  }

  lemma SplitPastWindow(e: Engine, x: seq<byte>, b: byte, z: seq<byte>)
    requires Run(e, false, x).skip
    ensures var one, first := Chunk(e, x + ([b] + z)), Chunk(e, x);
            var second := Chunk(first.engine, [b] + z);
            && one.engine == second.engine
            && (one.out == first.out + second.out <==> !IsPlain(first.engine.flags, b))
  {
    var r := Run(e, false, x);
    SkipInData(e, x);
    RunConcat(e, false, x, [b] + z);
    SkipOnce(r.engine, b, z);
    var s := Run(Step(r.engine, false, b).engine, false, z);
    if IsPlain(r.engine.flags, b) {
      LongerCut(r.out, s.out, Tail(s.skip), Data([b]));
    } else {
      SameCut(r.out, s.out, Tail(s.skip));
    }
  }

  lemma SameCut(a: seq<Event>, b: seq<Event>, c: seq<Event>)
    ensures (a + ([Wrapped] + b)) + c == (a + [Wrapped]) + (([] + b) + c)
  {
  }

  lemma LongerCut(a: seq<Event>, b: seq<Event>, c: seq<Event>, d: Event)
    ensures (a + ([] + b)) + c != (a + [Wrapped]) + (([d] + b) + c)
  {
    assert |(a + ([] + b)) + c| < |(a + [Wrapped]) + (([d] + b) + c)|;
  }

  /** Processing x and then y leaves the state that processing x + y leaves; the events are
      the same, adjacent DATA merged, exactly unless x ends on an MCCPv1 sequence (251 read
      in the payload of option 85) and y starts with ordinary data. */
  lemma SplitPoint(e: Engine, x: seq<byte>, y: seq<byte>)
    ensures var one, first := Chunk(e, x + y), Chunk(e, x);
            var second := Chunk(first.engine, y);
            && one.engine == second.engine
            && (one.out == first.out + second.out <==>
                !(EndsOldCompress(e, x) && y != [] && IsPlain(first.engine.flags, y[0])))
  {
    SkipsExactly(e, x);
    if !Run(e, false, x).skip {
      SplitInWindow(e, x, y);
    } else if y == [] {
      PlusNothing(x);
      PlusNothing(Chunk(e, x).out);
    } else {
      assert y == [y[0]] + y[1..];
      SplitPastWindow(e, x, y[0], y[1..]);
    }
  }

  lemma RunThen(e: Engine, xs: seq<byte>, e1: Engine, b: byte, e2: Engine, skip: bool)
    requires Run(e, false, xs) == Stepped(e1, false, []) && Step(e1, false, b) == Stepped(e2, skip, [])
    ensures Run(e, false, xs + [b]) == Stepped(e2, skip, [])
  {
    RunSnoc(e, false, xs, b);
    PlusNothing<Event>([]);
  }

  lemma OldCompressRun(e: Engine)
    requires e.mode == InData && e.payload == []
    ensures Run(e, false, [IAC] + [SB] + [TELOPT_COMPRESS] + [WILL])
         == Stepped(e.(sbTelopt := TELOPT_COMPRESS), true, [])
  {
    var e1, e2, e4 := e.(mode := InIac), e.(mode := InSb), e.(sbTelopt := TELOPT_COMPRESS);
    var e3 := e4.(mode := InSbData);
    RunOne(e, false, IAC);
    RunThen(e, [IAC], e1, SB, e2, false);
    RunThen(e, [IAC] + [SB], e2, TELOPT_COMPRESS, e3, false);
    RunThen(e, [IAC] + [SB] + [TELOPT_COMPRESS], e3, WILL, e4, true);
  }

  /** The exception is real: cut after IAC SB 85 WILL, the next byte is reported; uncut, it is dropped. */
  lemma SplitMatters()
    ensures var e, x, y := Init(NoTable, false, false), [IAC] + [SB] + [TELOPT_COMPRESS] + [WILL], [65];
            && Chunk(e, x + y).out == []
            && Chunk(e, x).out + Chunk(Chunk(e, x).engine, y).out == [Wrapped, Data([65])]
  {
    var e, x, y := Init(NoTable, false, false), [IAC] + [SB] + [TELOPT_COMPRESS] + [WILL], [65];
    var e' := e.(sbTelopt := TELOPT_COMPRESS);
    OldCompressRun(e);
    RunConcat(e, false, x, y);
    RunOne(e', true, 65);
    RunOne(e', false, 65);
  }

  /** And with a command after it, the size of the next DATA event wraps. */
  lemma SizeWraps()
    ensures var e, x := Init(NoTable, false, false), [IAC] + [SB] + [TELOPT_COMPRESS] + [WILL];
            Run(e, false, x + [IAC] + [241]).out == [Wrapped, Iac(241)]
  {
    var e, x := Init(NoTable, false, false), [IAC] + [SB] + [TELOPT_COMPRESS] + [WILL];
    OldCompressRun(e);
    RunSnoc(e, false, x, IAC);
    PlusNothing([Wrapped]);
    RunSnoc(e, false, x + [IAC], 241);
    assert [Wrapped] + [Iac(241)] == [Wrapped, Iac(241)];
  }

  lemma RunSkip(e: Engine, skip: bool, xs: seq<byte>, ev: Event)
    requires !ev.Data? && !ev.Wrapped?
    ensures Run(e, skip, xs).engine == Run(e, false, xs).engine
    ensures ev in Run(e, skip, xs).out <==> ev in Run(e, false, xs).out
  {
    if xs != [] {
      Uncons(xs);
      RunCons(e, skip, xs[0], xs[1..]);
      RunCons(e, false, xs[0], xs[1..]);
      StepSkip(e, skip, xs[0]);
    }
  }

  /** Under every chunking, calm or not, the state is that of the whole stream, and so are the
      events other than DATA. */
  lemma {:induction false} StreamEvents(e: Engine, cs: seq<seq<byte>>, ev: Event)
    requires !ev.Data? && !ev.Wrapped?
    ensures Chunks(e, cs).engine == Run(e, false, Flat(cs)).engine
    ensures ev in Chunks(e, cs).out <==> ev in Run(e, false, Flat(cs)).out
  {
    if cs != [] {
      var init, c := Flat(cs[..|cs| - 1]), cs[|cs| - 1];
      var r := Run(e, false, init);
      StreamEvents(e, cs[..|cs| - 1], ev);
      RunConcat(e, false, init, c);
      RunSkip(r.engine, r.skip, c, ev);
    }
  }

  /** No prefix of the stream ends on an MCCPv1 sequence. */
  predicate Calm(e: Engine, xs: seq<byte>) {
    xs == [] || (Calm(e, xs[..|xs| - 1]) && !EndsOldCompress(e, xs))
  }

  lemma {:induction false} CalmPrefix(e: Engine, x: seq<byte>, y: seq<byte>)
    requires Calm(e, x + y)
    ensures Calm(e, x)
    decreases |y|
  {
    if y == [] {
      assert x + y == x;
    } else {
      assert (x + y)[..|x + y| - 1] == x + y[..|y| - 1];
      CalmPrefix(e, x, y[..|y| - 1]);
    }
  }

  lemma ChunkMore(e: Engine, x: seq<byte>, y: seq<byte>)
    requires !EndsOldCompress(e, x)
    ensures var s := Chunk(Chunk(e, x).engine, y); Chunk(e, x + y) == Received(s.engine, Chunk(e, x).out + s.out)
  {
    SplitPoint(e, x, y);
  }

  /** A calm stream gives the same state and events under every chunking. */
  lemma {:induction false} AnyChunking(e: Engine, cs: seq<seq<byte>>)
    requires Calm(e, Flat(cs))
    ensures Chunks(e, cs) == Chunk(e, Flat(cs))
  {
    if cs != [] {
      var init, c := Flat(cs[..|cs| - 1]), cs[|cs| - 1];
      CalmPrefix(e, init, c);
      AnyChunking(e, cs[..|cs| - 1]);
      ChunkMore(e, init, c);
    }
  }
}
