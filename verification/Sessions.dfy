/** The decoder undoes the encoders, however the network cuts the wire. */
module Sessions {
  import opened Sequences
  import opened Bytes
  import opened Events
  import opened QMethod
  import opened Decoder
  import opened Encoder
  import opened Delivery
  import opened Invariants
  import Environ
  import EnvironCodec
  import MsspCodec
  import ZmpCodec

  // ----- Subnegotiations -----

  /** Everything but the mode and the subnegotiation in progress. */
  predicate SameSetting(e: Engine, e': Engine) {
    e'.telopts == e.telopts && e'.flags == e.flags && e'.q == e.q
  }

  lemma PayloadByteGoes(e: Engine, b: byte) returns (e': Engine)
    requires e.mode == InSbData && BufferSound(e) && |e.payload| < LIMIT
    requires e.sbTelopt == TELOPT_COMPRESS ==> b != WILL
    ensures Goes(e, EscapeByte(b), e', [])
    ensures e'.mode == InSbData && BufferSound(e') && SameSetting(e, e')
    ensures e'.sbTelopt == e.sbTelopt && e'.payload == e.payload + [b]
  {
    if b == IAC {
      var e1 := e.(mode := InSbDataIac);
      BufferingKeeps(e1, IAC);
      e' := Buffering(e1, IAC).engine;
      IacGoes(e, e1, IAC, e', []);
    } else {
      BufferingKeeps(e, b);
      e' := Buffering(e, b).engine;
      GoesOne(e, b, e', []);
    }
  }

  /** While a payload fits, the buffer holds exactly what was sent, unescaped. */
  lemma {:induction false} PayloadGoes(e: Engine, p: seq<byte>) returns (e': Engine)
    requires e.mode == InSbData && BufferSound(e) && e.payload == []
    requires Carries(e.sbTelopt, p)
    ensures Goes(e, Escape(p), e', [])
    ensures e'.mode == InSbData && BufferSound(e') && SameSetting(e, e')
    ensures e'.sbTelopt == e.sbTelopt && e'.payload == p
    decreases |p|
  {
    if p == [] {
      GoesNowhere(e);
      e' := e;
    } else {
      var init, b := p[..|p| - 1], p[|p| - 1];
      assert p == init + [b];
      var e1 := PayloadGoes(e, init);
      e' := PayloadByteGoes(e1, b);
      GoesOn(e, Escape(init), e1, [], EscapeByte(b), e', []);
    }
  }

  /** The engine after IAC SB `telopt`. */
  function Started(e: Engine, telopt: byte): Engine {
    e.(mode := InSbData, sbTelopt := telopt, payload := [])
  }

  lemma HeaderGoes(e: Engine, telopt: byte)
    requires e.mode == InData
    ensures Goes(e, Header(telopt), Started(e, telopt), [])
  {
    var e1, e2 := e.(mode := InIac), e.(mode := InSb);
    GoesOne(e, IAC, e1, []);
    GoesOne(e1, SB, e2, []);
    GoesOne(e2, telopt, Started(e, telopt), []);
    GoesOn(e, [IAC], e1, [], [SB], e2, []);
    GoesOn(e, [IAC] + [SB], e2, [] + [], [telopt], Started(e, telopt), []);
    assert [IAC] + [SB] + [telopt] == Header(telopt);
  }

  lemma FooterGoes(e: Engine)
    requires e.mode == InSbData
    ensures Goes(e, FOOTER, e.(mode := InData, payload := []), SubEvents(e.sbTelopt, e.payload))
  {
    IacGoes(e, e.(mode := InSbDataIac), SE, e.(mode := InData, payload := []), SubEvents(e.sbTelopt, e.payload));
  }

  /** Header and payload, before the footer. */
  lemma StartGoes(e: Engine, telopt: byte, p: seq<byte>) returns (e': Engine)
    requires e.mode == InData && BufferSound(e) && Carries(telopt, p)
    ensures Goes(e, Header(telopt) + Escape(p), e', [])
    ensures e'.mode == InSbData && BufferSound(e') && SameSetting(e, e')
    ensures e'.sbTelopt == telopt && e'.payload == p
  {
    HeaderGoes(e, telopt);
    e' := PayloadGoes(Started(e, telopt), p);
    GoesOn(e, Header(telopt), Started(e, telopt), [], Escape(p), e', []);
  }

  lemma FrameGoes(e: Engine, telopt: byte, p: seq<byte>) returns (e': Engine)
    requires e.mode == InData && BufferSound(e) && Carries(telopt, p)
    ensures Goes(e, Frame(telopt, p), e', SubEvents(telopt, p))
    ensures e'.mode == InData && BufferSound(e') && SameSetting(e, e')
  {
    var e1 := StartGoes(e, telopt, p);
    FooterGoes(e1);
    e' := e1.(mode := InData, payload := []);
    GoesOn(e, Header(telopt) + Escape(p), e1, [], FOOTER, e', SubEvents(telopt, p));
    PlusNothing(SubEvents(telopt, p));
  }

  /** telnet_subnegotiation, under every chunking: the peer is told the option and payload,
      then what the payload means, exactly when the payload has at most 16384 bytes and (for
      option 85) no byte 251; otherwise it is never told that payload. */
  lemma FrameDelivered(e: Engine, telopt: byte, p: seq<byte>, cs: seq<seq<byte>>)
    requires e.mode == InData && BufferSound(e) && Flat(cs) == [255, 250, telopt] + Escape(p) + [255, 240]
    ensures var carried := |p| <= 16384 && (telopt == 85 ==> 251 !in p);
            && (Chunks(e, cs).out == SubEvents(telopt, p) <==> carried)
            && (Subnegotiation(telopt, p) in Chunks(e, cs).out <==> carried)
            && (carried ==> Chunks(e, cs).engine.mode == InData)
  {
    if Carries(telopt, p) {
      var e' := FrameGoes(e, telopt, p);
      Delivered(e, cs, e', SubEvents(telopt, p));
    } else {
      ChunksSound(e, cs);
      assert !Possible(Subnegotiation(telopt, p));
      assert Subnegotiation(telopt, p) == SubEvents(telopt, p)[0];
    }
  }

  lemma OverLimitGoes(e: Engine, b: byte)
    requires e.mode == InSbData && BufferSound(e) && |e.payload| == LIMIT
    requires e.sbTelopt == TELOPT_COMPRESS ==> b != WILL
    ensures Goes(e, EscapeByte(b), e.(mode := InData, payload := []), [Warning(BufferLimit)])
  {
    var e' := e.(mode := InData, payload := []);
    if b == IAC {
      IacGoes(e, e.(mode := InSbDataIac), IAC, e', [Warning(BufferLimit)]);
    } else {
      GoesOne(e, b, e', [Warning(BufferLimit)]);
    }
  }

  /** With the buffer full of a payload of 16384 bytes, the next byte ends the
      subnegotiation with one warning; with any shorter payload it is buffered. */
  lemma LimitIsExact(e: Engine, telopt: byte, p: seq<byte>, b: byte)
    requires e.mode == InData && BufferSound(e) && Carries(telopt, p)
    requires telopt == TELOPT_COMPRESS ==> b != WILL
    ensures var r := Run(e, false, Header(telopt) + Escape(p) + EscapeByte(b));
            if |p| == 16384 then r.engine.mode == InData && r.out == [Warning(BufferLimit)]
            else r.engine.mode == InSbData && r.engine.payload == p + [b] && r.out == []
  {
    var e1 := StartGoes(e, telopt, p);
    if |p| < LIMIT {
      var e2 := PayloadByteGoes(e1, b);
      GoesOn(e, Header(telopt) + Escape(p), e1, [], EscapeByte(b), e2, []);
    } else {
      var e2 := e1.(mode := InData, payload := []);
      OverLimitGoes(e1, b);
      GoesOn(e, Header(telopt) + Escape(p), e1, [], EscapeByte(b), e2, [Warning(BufferLimit)]);
      PlusNothing([Warning(BufferLimit)]);
    }
  }

  /** The input `xs` is `pre` and then SB, the option, and the escaped form of the buffer. */
  predicate Spells(xs: seq<byte>, pre: seq<byte>, e: Engine) {
    match e.mode
    case InSb => xs == pre + [SB]
    case InSbData => xs == pre + [SB, e.sbTelopt] + Escape(e.payload)
    case InSbDataIac => xs == pre + [SB, e.sbTelopt] + Escape(e.payload) + [IAC]
    case _ => true
  }

  /** The SB after `pre` opens a subnegotiation. */
  predicate Opens(e: Engine, pre: seq<byte>) {
    Run(e, false, pre + [SB]).engine.mode == InSb
  }

  predicate Inside(m: Mode) { m == InSb || InSubnegotiation(m) }

  lemma SpellsBuffered(xs: seq<byte>, pre: seq<byte>, e: Engine, b: byte)
    requires e.mode == InSbData && Spells(xs, pre, e)
    ensures xs + EscapeByte(b) == pre + [SB, e.sbTelopt] + Escape(e.payload + [b])
  {
    EscapeSnoc(e.payload, b);
    Assoc(pre + [SB, e.sbTelopt], Escape(e.payload), EscapeByte(b));
  }

  lemma SpellsEscaped(xs: seq<byte>, pre: seq<byte>, e: Engine)
    requires e.mode == InSbDataIac && Spells(xs, pre, e)
    ensures xs + [IAC] == pre + [SB, e.sbTelopt] + Escape(e.payload + [IAC])
  {
    var front := pre + [SB, e.sbTelopt] + Escape(e.payload);
    SpellsBuffered(front, pre, e.(mode := InSbData), IAC);
    Assoc(front, [IAC], [IAC]);
    assert [IAC] + [IAC] == EscapeByte(IAC);
  }

  lemma SpellsOption(pre: seq<byte>, telopt: byte)
    ensures (pre + [SB]) + [telopt] == pre + [SB, telopt] + Escape([])
  {
  }

  lemma SpellsInSbData(xs: seq<byte>, pre: seq<byte>, e: Engine, b: byte)
    requires e.mode == InSbData && Spells(xs, pre, e)
    ensures Spells(xs + [b], pre, StepSbData(e, b).engine)
  {
    if b != IAC { SpellsBuffered(xs, pre, e, b); }
  }

  lemma SpellsInSbDataIac(xs: seq<byte>, pre: seq<byte>, e: Engine, b: byte)
    requires e.mode == InSbDataIac && Spells(xs, pre, e)
    ensures Spells(xs + [b], if b == IAC then pre else xs, StepSbDataIac(e, b).engine)
  {
    if b == IAC { SpellsEscaped(xs, pre, e); }
  }

  /** The byte `b` leaves the opening SB where it is, or is itself an opening SB. */
  lemma SpellsStep(xs: seq<byte>, pre: seq<byte>, e: Engine, skip: bool, b: byte) returns (pre': seq<byte>)
    requires Spells(xs, pre, e)
    ensures var m := Step(e, skip, b).engine.mode;
            && Spells(xs + [b], pre', Step(e, skip, b).engine)
            && (Inside(m) ==> (pre' == pre && Inside(e.mode)) || (pre' == xs && b == SB && m == InSb))
  {
    pre' := pre;
    match e.mode
    case InData =>
    case InEol =>
    case InVerb(v) =>
    case InIac =>
      pre' := xs;
    case InSb =>
      SpellsOption(pre, b);
    case InSbData =>
      SpellsInSbData(xs, pre, e, b);
    case InSbDataIac =>
      pre' := if b == IAC then pre else xs;
      SpellsInSbDataIac(xs, pre, e, b);
  }

  /** Conversely, in every state inside a subnegotiation the input read so far ends in the SB
      that opened it, the option, and the escaped form of exactly what is buffered. */
  lemma {:induction false} BufferedIsReceived(e: Engine, xs: seq<byte>) returns (pre: seq<byte>)
    requires !Inside(e.mode)
    ensures var e' := Run(e, false, xs).engine; Spells(xs, pre, e') && (Inside(e'.mode) ==> Opens(e, pre))
    decreases |xs|
  {
    pre := [];
    if xs != [] {
      var init, b := xs[..|xs| - 1], xs[|xs| - 1];
      Unsnoc(xs);
      var r := Run(e, false, init);
      var before := BufferedIsReceived(e, init);
      pre := SpellsStep(init, before, r.engine, r.skip, b);
      RunSnoc(e, false, init, b);
    }
  }

  /** A payload is reported from the two states after IAC inside a subnegotiation. */
  lemma StepReports(e: Engine, skip: bool, b: byte, o: byte, p: seq<byte>)
    requires Subnegotiation(o, p) in Step(e, skip, b).out
    ensures e.mode == InSbDataIac && e.sbTelopt == o && e.payload == p
  {
    match e.mode
    case InVerb(v) =>
    case InSbDataIac => StrayReports(e, b, o, p);
    case _ =>
  }

  lemma StrayReports(e: Engine, b: byte, o: byte, p: seq<byte>)
    requires Subnegotiation(o, p) in StepSbDataIac(e, b).out
    ensures e.sbTelopt == o && e.payload == p
  {
    assert Subnegotiation(o, p) !in PayloadEvents(e.sbTelopt, e.payload);
    assert Subnegotiation(o, p) !in StepIac(e.(mode := InIac, payload := []), b).out;
    assert Subnegotiation(o, p) !in Buffering(e, IAC).out;
  }

  lemma OpensLater(e: Engine, pre: seq<byte>)
    requires e.mode == InData && Opens(e, pre)
    ensures pre != []
  {
    RunOne(e, false, SB);
    PlusNothing([SB]);
  }

  /** Nothing is reported that was not sent in full: IAC SB, the option, the escaped payload,
      IAC and one more byte. */
  lemma {:induction false} ReportedInFull(e: Engine, xs: seq<byte>, o: byte, p: seq<byte>)
    requires e.mode == InData && Subnegotiation(o, p) in Run(e, false, xs).out
    ensures |xs| >= |Escape(p)| + 5
  {
    var init, b := xs[..|xs| - 1], xs[|xs| - 1];
    var r := Run(e, false, init);
    if Subnegotiation(o, p) in r.out {
      ReportedInFull(e, init, o, p);
    } else {
      StepReports(r.engine, r.skip, b, o, p);
      var pre := BufferedIsReceived(e, init);
      OpensLater(e, pre);
    }
  }

  // ----- TERMINAL-TYPE -----

  /** telnet_ttype_is, under every chunking: the peer gets the name, exactly when the name holds
      no IAC, which is sent unescaped, and fits the buffer together with its command byte. */
  lemma TtypeRoundTrip(e: Engine, name: seq<byte>, cs: seq<seq<byte>>)
    requires e.mode == InData && BufferSound(e) && Flat(cs) == TtypeIsWire(name)
    ensures Chunks(e, cs).out == [Subnegotiation(24, [0] + name), Ttype(0, Some(name))]
            <==> 255 !in name && |name| < 16384
  {
    var p := [TTYPE_IS] + name;
    var told := [Subnegotiation(TELOPT_TTYPE, p), Ttype(TTYPE_IS, Some(name))];
    Cons(TTYPE_IS, name);
    if IAC in name {
      if Subnegotiation(TELOPT_TTYPE, p) in Chunks(e, cs).out { NeverInFull(e, name, cs); }
      assert Subnegotiation(TELOPT_TTYPE, p) in told;
    } else {
      TtypeIsFrame(name);
      FrameDelivered(e, TELOPT_TTYPE, p, cs);
      assert SubEvents(TELOPT_TTYPE, p) == told;
    }
  }

  lemma NeverInFull(e: Engine, name: seq<byte>, cs: seq<seq<byte>>)
    requires e.mode == InData && Flat(cs) == TtypeIsWire(name) && IAC in name
    ensures Subnegotiation(TELOPT_TTYPE, [TTYPE_IS] + name) !in Chunks(e, cs).out
  {
    var p := [TTYPE_IS] + name;
    StreamEvents(e, cs, Subnegotiation(TELOPT_TTYPE, p));
    EscapeLength(p);
    NoOccurrences(p, {IAC});
    assert p[1..] == name && IAC in p;
    if Subnegotiation(TELOPT_TTYPE, p) in Chunks(e, cs).out { ReportedInFull(e, Flat(cs), TELOPT_TTYPE, p); }
  }

  /** telnet_ttype_send is always understood. */
  lemma TtypeSendDelivered(e: Engine, cs: seq<seq<byte>>)
    requires e.mode == InData && BufferSound(e) && Flat(cs) == TTYPE_SEND_WIRE
    ensures Chunks(e, cs).out == [Subnegotiation(24, [1]), Ttype(1, None)]
  {
    TtypeSendFrame();
    FrameDelivered(e, TELOPT_TTYPE, [TTYPE_SEND], cs);
  }

  // ----- Stray commands -----

  lemma StrayGoes(e: Engine, xs: seq<byte>, e1: Engine, b: byte, s: Stepped)
    requires Goes(e, xs, e1, []) && e1.mode == InSbData && b != SE && b != IAC
    requires s == Step(e1.(mode := InSbDataIac), false, b)
    ensures Goes(e, xs + [IAC, b], s.engine, s.out)
  {
    IacGoes(e1, e1.(mode := InSbDataIac), b, s.engine, s.out);
    GoesOn(e, xs, e1, [], [IAC, b], s.engine, s.out);
    PlusNothing(s.out);
  }

  lemma EndedGoes(e: Engine, xs: seq<byte>, e1: Engine, b: byte, s: Stepped)
    requires Goes(e, xs, e1, []) && e1.mode == InSbData && s == StepIac(e1.(mode := InIac, payload := []), b)
    ensures Goes(e, xs + FOOTER + [IAC, b], s.engine, SubEvents(e1.sbTelopt, e1.payload) + s.out)
  {
    var e2 := e1.(mode := InData, payload := []);
    var out := SubEvents(e1.sbTelopt, e1.payload);
    FooterGoes(e1);
    GoesOn(e, xs, e1, [], FOOTER, e2, out);
    PlusNothing(out);
    IacGoes(e2, e1.(mode := InIac, payload := []), b, s.engine, s.out);
    GoesOn(e, xs + FOOTER, e2, out, [IAC, b], s.engine, s.out);
  }

  /** A subnegotiation ended by IAC and a stray command, under every chunking: after one warning
      everything goes as if IAC SE and IAC command had been sent, exactly unless the payload is
      a well-formed one of option 36 or 39. */
  lemma StrayCommandDelivered(e: Engine, o: byte, p: seq<byte>, b: byte, cs: seq<seq<byte>>)
    requires e.mode == InData && BufferSound(e) && Carries(o, p) && b != SE && b != IAC
    requires Flat(cs) == Header(o) + Escape(p) + [IAC, b]
    ensures var ended := Run(e, false, Frame(o, p) + [IAC, b]);
            Chunks(e, cs) == Received(ended.engine, [Warning(StrayCommand)] + ended.out)
            <==> !((o == 36 || o == 39) && Environ.WellFormed(p))
  {
    var e1 := StartGoes(e, o, p);
    var s := Step(e1.(mode := InSbDataIac), false, b);
    var t := StepIac(e1.(mode := InIac, payload := []), b);
    StrayGoes(e, Header(o) + Escape(p), e1, b, s);
    Delivered(e, cs, s.engine, s.out);
    EndedGoes(e, Header(o) + Escape(p), e1, b, t);
    StrayEither(e1, b, s, t);
  }

  lemma StrayEither(e1: Engine, b: byte, s: Stepped, t: Stepped)
    requires e1.mode == InSbData && b != SE && b != IAC
    requires s == Step(e1.(mode := InSbDataIac), false, b) && t == StepIac(e1.(mode := InIac, payload := []), b)
    ensures var told := SubEvents(e1.sbTelopt, e1.payload);
            s.engine == t.engine && s.out == [Warning(StrayCommand)] + (told + t.out)
            <==> !((e1.sbTelopt == 36 || e1.sbTelopt == 39) && Environ.WellFormed(e1.payload))
  {
    StrayIsCommand(e1.(mode := InSbDataIac), b);
    Assoc([Warning(StrayCommand)], SubEvents(e1.sbTelopt, e1.payload), t.out);
  }

  lemma Swallowed(e: Engine, b: byte)
    requires e.mode == InSbDataIac && e.sbTelopt == TELOPT_NEW_ENVIRON && e.payload == [Environ.IS]
    requires b != SE && b != IAC
    ensures Step(e, false, b)
         == Stepped(e.(mode := InIac, payload := []), false,
                    [Warning(StrayCommand)] + SubEvents(TELOPT_NEW_ENVIRON, [Environ.IS]))
  {
  }

  /** The exception is real: an ENVIRON payload swallows the command 241 that ends it, and the
      data byte after it is reported as a command. */
  lemma StrayCommandLost()
    ensures Run(Init(NoTable, false, false), false,
                Header(TELOPT_NEW_ENVIRON) + Escape([Environ.IS]) + [IAC, 241] + [65]).out
         == [Warning(StrayCommand)]
            + [Subnegotiation(TELOPT_NEW_ENVIRON, [Environ.IS]), Event.Environ(Environ.IS, [])] + [Iac(65)]
  {
    var e := Init(NoTable, false, false);
    var told := [Warning(StrayCommand)] + SubEvents(TELOPT_NEW_ENVIRON, [Environ.IS]);
    var e1 := StartGoes(e, TELOPT_NEW_ENVIRON, [Environ.IS]);
    var e2 := e1.(mode := InIac, payload := []);
    Swallowed(e1.(mode := InSbDataIac), 241);
    StrayGoes(e, Header(TELOPT_NEW_ENVIRON) + Escape([Environ.IS]), e1, 241, Stepped(e2, false, told));
    LostIac(e, Header(TELOPT_NEW_ENVIRON) + Escape([Environ.IS]) + [IAC, 241], e2, told);
    assert SubEvents(TELOPT_NEW_ENVIRON, [Environ.IS])
        == [Subnegotiation(TELOPT_NEW_ENVIRON, [Environ.IS]), Event.Environ(Environ.IS, [])];
  }

  lemma LostIac(e: Engine, xs: seq<byte>, e1: Engine, told: seq<Event>)
    requires Goes(e, xs, e1, told) && e1.mode == InIac
    ensures Run(e, false, xs + [65]).out == told + [Iac(65)]
  {
    GoesOne(e1, 65, e1.(mode := InData), [Iac(65)]);
    GoesOn(e, xs, e1, told, [65], e1.(mode := InData), [Iac(65)]);
  }

  // ----- Sessions -----

  predicate Deliverable(c: Call) {
    match c
    case CallSend(_) => true
    case CallIac(cmd) => !Framing(cmd)
    case CallNegotiate(_, _) => true
    case CallSub(o, p) => Carries(o, p)
  }

  /** A PROXY-mode engine between messages. */
  predicate Ready(e: Engine) {
    e.mode == InData && e.flags.proxy && BufferSound(e)
  }

  /** A receiver that translates line ends needs plain data (see DataRoundTrip). */
  predicate Suits(f: Flags, c: Call) {
    c.CallSend? && Translates(f) ==> Plain(c.bytes)
  }

  lemma VerbGoes(e: Engine, v: Verb, o: byte, e': Engine, out: seq<Event>)
    requires e.mode == InData && Step(e.(mode := InVerb(v)), false, o) == Stepped(e', false, out)
    ensures Goes(e, NegotiationBytes(v, o), e', out)
  {
    var e1, e2 := e.(mode := InIac), e.(mode := InVerb(v));
    IacGoes(e, e1, Code(v), e2, []);
    GoesOne(e2, o, e', out);
    GoesOn(e, [IAC, Code(v)], e2, [], [o], e', out);
    assert [IAC, Code(v)] + [o] == NegotiationBytes(v, o);
    PlusNothing(out);
  }

  lemma CallGoes(e: Engine, c: Call) returns (e': Engine)
    requires Ready(e) && Deliverable(c) && Suits(e.flags, c)
    ensures Goes(e, CallWire(c), e', Expected(c)) && Ready(e') && e'.flags == e.flags
  {
    e' := e;
    match c
    case CallSend(bs) =>
      if Translates(e.flags) { ListensAs(e, bs); } else { DataGoes(e, bs); }
    case CallIac(cmd) =>
      IacGoes(e, e.(mode := InIac), cmd, e, [Iac(cmd)]);
    case CallNegotiate(v, o) =>
      VerbGoes(e, v, o, e, [Negotiation(v, o)]);
    case CallSub(o, p) =>
      e' := FrameGoes(e, o, p);
  }

  lemma {:induction false} CallsGo(e: Engine, calls: seq<Call>) returns (e': Engine)
    requires Ready(e) && forall c :: c in calls ==> Deliverable(c) && Suits(e.flags, c)
    ensures Goes(e, CallsWire(calls), e', ExpectedAll(calls)) && Ready(e') && e'.flags == e.flags
    decreases |calls|
  {
    if calls == [] {
      GoesNowhere(e);
      e' := e;
    } else {
      var init, c := calls[..|calls| - 1], calls[|calls| - 1];
      var e1 := CallsGo(e, init);
      e' := CallGoes(e1, c);
      GoesOn(e, CallsWire(init), e1, ExpectedAll(init), CallWire(c), e', Expected(c));
    }
  }

  lemma {:induction false} UndeliverableImpossible(calls: seq<Call>, c: Call)
    requires c in calls && !Deliverable(c)
    ensures !AllPossible(ExpectedAll(calls))
  {
    var init, last := calls[..|calls| - 1], calls[|calls| - 1];
    if c == last {
      assert Expected(c)[0] in ExpectedAll(calls);
      assert !Possible(Expected(c)[0]);
    } else {
      assert calls == init + [last];
      UndeliverableImpossible(init, c);
    }
  }

  /** Any list of output calls, read by a PROXY-mode peer under any chunking of the wire,
      is reported call by call and in order, exactly when every telnet_iac command is a
      non-framing one and every subnegotiation can be carried; where the peer translates line
      ends this is said of data that is plain. */
  lemma SessionRoundTrip(e: Engine, calls: seq<Call>, cs: seq<seq<byte>>)
    requires Ready(e) && Flat(cs) == CallsWire(calls)
    ensures Chunks(e, cs).out == ExpectedAll(calls) ==> forall c :: c in calls ==> Deliverable(c)
    ensures (forall c :: c in calls ==> Deliverable(c) && Suits(e.flags, c))
            ==> Chunks(e, cs).out == ExpectedAll(calls) && Ready(Chunks(e, cs).engine)
  {
    if forall c :: c in calls ==> Deliverable(c) {
      if forall c :: c in calls ==> Suits(e.flags, c) {
        var e' := CallsGo(e, calls);
        Delivered(e, cs, e', ExpectedAll(calls));
      }
    } else {
      var c :| c in calls && !Deliverable(c);
      UndeliverableImpossible(calls, c);
      ChunksSound(e, cs);
    }
  }

  // ----- Negotiation, on the wire -----

  /** The stimuli a list of received messages is. */
  function Heard(ms: seq<Msg>): seq<Stimulus> {
    if ms == [] then [] else Heard(ms[..|ms| - 1]) + [Hear(ms[|ms| - 1].verb, ms[|ms| - 1].telopt)]
  }

  /** Outside PROXY mode a received IAC verb option is one stimulus of the Q method: same
      table, and the events are those of its reaction. */
  lemma HeardOnWire(e: Engine, v: Verb, o: byte) returns (e': Engine)
    requires e.mode == InData && !e.flags.proxy
    ensures Goes(e, NegotiationBytes(v, o), e', ReactionEvents(React(e.q, e.telopts, Hear(v, o)).1, o))
    ensures e'.mode == InData && !e'.flags.proxy && e'.telopts == e.telopts
    ensures e'.q == React(e.q, e.telopts, Hear(v, o)).0
  {
    var e2 := e.(mode := InVerb(v));
    HeardStep(e2, v, o);
    e' := Step(e2, false, o).engine;
    VerbGoes(e, v, o, e', ReactionEvents(React(e.q, e.telopts, Hear(v, o)).1, o));
  }

  lemma MsgBytesMore(ms: seq<Msg>, r: Reaction, o: byte)
    ensures MsgBytes(ms + Replies(r, o)) == MsgBytes(ms) + MsgBytes(Replies(r, o))
  {
    if r.reply.Some? {
      Snoc(ms, Msg(r.reply.value, o));
      OneMsg(Msg(r.reply.value, o));
    } else {
      PlusNothing(ms);
      PlusNothing(MsgBytes(ms));
    }
  }

  lemma {:induction false} MessagesGo(e: Engine, ms: seq<Msg>) returns (e': Engine, out: seq<Event>)
    requires e.mode == InData && !e.flags.proxy
    ensures Goes(e, MsgBytes(ms), e', out)
    ensures e'.mode == InData && !e'.flags.proxy && e'.telopts == e.telopts
    ensures e'.q == TableRun(e.q, e.telopts, Heard(ms)).0
    ensures Wire(out) == MsgBytes(TableRun(e.q, e.telopts, Heard(ms)).1)
    decreases |ms|
  {
    if ms == [] {
      GoesNowhere(e);
      e', out := e, [];
    } else {
      var init, m := ms[..|ms| - 1], ms[|ms| - 1];
      var e1, out1 := MessagesGo(e, init);
      e' := HeardOnWire(e1, m.verb, m.telopt);
      var r := React(e1.q, e.telopts, Hear(m.verb, m.telopt)).1;
      var more := ReactionEvents(r, m.telopt);
      GoesOn(e, MsgBytes(init), e1, out1, NegotiationBytes(m.verb, m.telopt), e', more);
      out := out1 + more;
      Snoc(Heard(init), Hear(m.verb, m.telopt));
      WireConcat(out1, more);
      ReactionWire(r, m.telopt);
      MsgBytesMore(TableRun(e.q, e.telopts, Heard(init)).1, r, m.telopt);
    }
  }

  /** Outside PROXY mode a stream of negotiation messages, under any chunking, has the effect
      of the same messages on the option table, and what goes back on the wire are the
      messages of QMethod. ByteNetwork has requests in between and both directions. */
  lemma NegotiationOnWire(e: Engine, ms: seq<Msg>, cs: seq<seq<byte>>)
    requires e.mode == InData && !e.flags.proxy && Flat(cs) == MsgBytes(ms)
    ensures var (t, sent) := TableRun(e.q, e.telopts, Heard(ms));
            && Chunks(e, cs).engine.mode == InData
            && Chunks(e, cs).engine.q == t
            && Wire(Chunks(e, cs).out) == MsgBytes(sent)
  {
    var e', out := MessagesGo(e, ms);
    Delivered(e, cs, e', out);
  }

  // ----- NEW-ENVIRON and ZMP, end to end -----

  lemma SecondEvent(first: Event, rest: seq<Event>, second: Event)
    ensures [first] + rest == [first, second] <==> rest == [second]
    ensures first in [first, second]
  {
    assert rest == ([first] + rest)[1..] && [second] == [first, second][1..];
  }

  /** A payload and what it is told to mean, under every chunking. */
  lemma Interpreted(e: Engine, o: byte, p: seq<byte>, cs: seq<seq<byte>>, told: Event, meant: bool)
    requires e.mode == InData && BufferSound(e) && Flat(cs) == Frame(o, p) && o != 85
    requires PayloadEvents(o, p) == [told] <==> meant
    ensures Chunks(e, cs).out == [Subnegotiation(o, p), told] <==> |p| <= 16384 && meant
  {
    FrameDelivered(e, o, p, cs);
    SecondEvent(Subnegotiation(o, p), PayloadEvents(o, p), told);
  }

  /** Will the peer read this form back? */
  predicate EnvironReadable(cmd: byte, esc: bool, ss: seq<EnvironCodec.Setting>) {
    && cmd <= 2
    && if esc then ss == [] || EnvironCodec.Payload(cmd, esc, ss)[|EnvironCodec.Payload(cmd, esc, ss)| - 1] != 2
       else EnvironCodec.AllLegible(false, ss)
  }

  lemma EnvironOutcome(cmd: byte, esc: bool, ss: seq<EnvironCodec.Setting>)
    ensures Environ.Outcome(EnvironCodec.Payload(cmd, esc, ss)) == [Event.Environ(cmd, EnvironCodec.AsVars(ss))]
            <==> EnvironReadable(cmd, esc, ss)
    ensures cmd > 2 ==> Environ.Outcome(EnvironCodec.Payload(cmd, esc, ss)) == [Warning(BadEnviron)]
  {
    if esc { EnvironCodec.EscapeRoundTrip(cmd, ss); } else { EnvironCodec.PlainRoundTrip(cmd, ss); }
  }

  /** A list of variables in either written form, as the payload of ENVIRON (36) or NEW-ENVIRON
      (39), under every chunking: the peer gets command and variables back, exactly when the
      payload fits, the command is 0, 1 or 2, and the written form can be read back: with ESC
      encoding unless it ends in ESC, without it unless a string holds a mark. */
  lemma EnvironDelivered(e: Engine, o: byte, cmd: byte, esc: bool, ss: seq<EnvironCodec.Setting>, cs: seq<seq<byte>>)
    requires e.mode == InData && BufferSound(e) && (o == 36 || o == 39)
    requires Flat(cs) == Frame(o, EnvironCodec.Payload(cmd, esc, ss))
    ensures var p := EnvironCodec.Payload(cmd, esc, ss);
            Chunks(e, cs).out == [Subnegotiation(o, p), Event.Environ(cmd, EnvironCodec.AsVars(ss))]
            <==> |p| <= 16384 && EnvironReadable(cmd, esc, ss)
  {
    var p := EnvironCodec.Payload(cmd, esc, ss);
    EnvironOutcome(cmd, esc, ss);
    Interpreted(e, o, p, cs, Event.Environ(cmd, EnvironCodec.AsVars(ss)), EnvironReadable(cmd, esc, ss));
  }

  /** With any other command the peer gets one warning, if the payload fits. */
  lemma EnvironRefused(e: Engine, o: byte, cmd: byte, esc: bool, ss: seq<EnvironCodec.Setting>, cs: seq<seq<byte>>)
    requires e.mode == InData && BufferSound(e) && (o == 36 || o == 39) && cmd > 2
    requires Flat(cs) == Frame(o, EnvironCodec.Payload(cmd, esc, ss))
    ensures var p := EnvironCodec.Payload(cmd, esc, ss);
            Chunks(e, cs).out == [Subnegotiation(o, p), Warning(BadEnviron)] <==> |p| <= 16384
  {
    EnvironOutcome(cmd, esc, ss);
    Interpreted(e, o, EnvironCodec.Payload(cmd, esc, ss), cs, Warning(BadEnviron), true);
  }

  /** telnet_begin_newenviron, any list of variables through telnet_newenviron_value, and
      telnet_finish_newenviron: the peer gets them back, under every chunking, exactly when
      the payload fits, the command is 0, 1 or 2, and no string holds a byte the parser takes
      for a mark. */
  lemma NewEnvironRoundTrip(e: Engine, cmd: byte, ss: seq<EnvironCodec.Setting>, cs: seq<seq<byte>>)
    requires e.mode == InData && BufferSound(e) && Flat(cs) == NewEnvironWire(cmd, ss)
    ensures var p := EnvironCodec.Payload(cmd, false, ss);
            Chunks(e, cs).out == [Subnegotiation(39, p), Event.Environ(cmd, EnvironCodec.AsVars(ss))]
            <==> |p| <= 16384 && cmd <= 2 && EnvironCodec.AllLegible(false, ss)
    ensures var p := EnvironCodec.Payload(cmd, false, ss);
            |p| <= 16384 && cmd > 2 ==> Chunks(e, cs).out == [Subnegotiation(39, p), Warning(BadEnviron)]
  {
    NewEnvironWireIsFrame(cmd, ss);
    EnvironDelivered(e, 39, cmd, false, ss, cs);
    if cmd > 2 { EnvironRefused(e, 39, cmd, false, ss, cs); }
  }

  /** An MSSP list written as a payload of option 70, under every chunking: one event with one
      cell per value, in order, each under its own name, exactly when the payload fits, there is
      a variable, no string holds byte 2, no value and no name that has a value holds byte 1,
      and the last value written is not empty. */
  lemma MsspRoundTrip(e: Engine, ws: seq<MsspCodec.Variable>, cs: seq<seq<byte>>)
    requires e.mode == InData && BufferSound(e) && Flat(cs) == Frame(70, MsspCodec.Payload(ws))
    ensures var p := MsspCodec.Payload(ws);
            Chunks(e, cs).out == [Subnegotiation(70, p), Event.Mssp(MsspCodec.Told(MsspCodec.AllPairs(ws)))]
            <==> |p| <= 16384 && ws != [] && MsspCodec.NoTwo(ws) && MsspCodec.NoOne(ws) && !MsspCodec.EndsEmpty(ws)
  {
    var p := MsspCodec.Payload(ws);
    MsspCodec.RoundTrip(ws);
    Interpreted(e, 70, p, cs, Event.Mssp(MsspCodec.Told(MsspCodec.AllPairs(ws))),
                ws != [] && MsspCodec.NoTwo(ws) && MsspCodec.NoOne(ws) && !MsspCodec.EndsEmpty(ws));
  }

  /** telnet_send_zmp: one ZMP event with the same arguments, under every chunking, exactly
      when there is an argument, none holds NUL, and the payload fits. */
  lemma ZmpRoundTrip(e: Engine, args: seq<seq<byte>>, cs: seq<seq<byte>>)
    requires e.mode == InData && BufferSound(e) && Flat(cs) == ZmpWire(args)
    ensures var p := ZmpCodec.Joined(args);
            Chunks(e, cs).out == [Subnegotiation(93, p), Event.Zmp(args)]
            <==> |p| <= 16384 && args != [] && forall a :: a in args ==> NUL !in a
  {
    var p := ZmpCodec.Joined(args);
    ArgsWireIs(args);
    ZmpCodec.JoinedRoundTrip(args);
    Interpreted(e, 93, p, cs, Event.Zmp(args), args != [] && forall a :: a in args ==> NUL !in a);
  }

  // ----- Every payload, well-formed or not -----

  /** What each option makes of a payload, by its first and last bytes. */
  ghost predicate Verdict(o: byte, p: seq<byte>, told: seq<Event>) {
    && |told| <= 1
    && (o == 24 ==> told == if p == [] || p[0] > 1 then [Warning(BadTtype)]
                            else if p[0] == 0 then [Ttype(0, Some(p[1..]))] else [Ttype(1, None)])
    && (o == 36 || o == 39 ==> if p == [] then told == []
                               else if Environ.WellFormed(p) then |told| == 1 && told[0].Environ? && told[0].cmd == p[0]
                               else told == [Warning(BadEnviron)])
    && (o == 70 ==> if p == [] then told == [] else if p[0] == 1 then |told| == 1 && told[0].Mssp?
                    else told == [Warning(BadMssp)])
    && (o == 93 ==> if p == [] || p[|p| - 1] != 0 then told == [Warning(BadZmp)] else |told| == 1 && told[0].Zmp?)
    && (o !in {24, 36, 39, 70, 93} ==> told == [])
  }

  lemma VerdictIs(o: byte, p: seq<byte>)
    ensures Verdict(o, p, PayloadEvents(o, p))
  {
    Environ.AcceptsWellFormed(p);
  }

  /** What the application is told of a payload after the payload itself, by option number and
      first and last bytes, for every payload that can be carried and under every chunking. */
  lemma PayloadVerdict(e: Engine, o: byte, p: seq<byte>, cs: seq<seq<byte>>)
    requires e.mode == InData && BufferSound(e) && Carries(o, p) && Flat(cs) == Frame(o, p)
    ensures var out := Chunks(e, cs).out;
            out != [] && out[0] == Subnegotiation(o, p) && Verdict(o, p, out[1..])
  {
    FrameDelivered(e, o, p, cs);
    VerdictIs(o, p);
    Cons(Subnegotiation(o, p), PayloadEvents(o, p));
  }
}
