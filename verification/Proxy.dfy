/** The forwarding proxy of util/telnet-proxy.c: what it decodes on one connection it sends
    again on the other. */
module Proxy {
  import opened Sequences
  import opened Bytes
  import opened Events
  import opened Decoder
  import opened Encoder
  import opened Invariants
  import opened Sessions

  /** The call `_event_handler` makes on the far engine; the other events are only printed. */
  function CallOf(ev: Event): Option<Call> {
    match ev
    case Data(bs) => Some(CallSend(bs))
    case Iac(cmd) => Some(CallIac(cmd))
    case Negotiation(v, o) => Some(CallNegotiate(v, o))
    case Subnegotiation(o, p) => Some(CallSub(o, p))
    case _ => None
  }

  function CallsOf(es: seq<Event>): seq<Call> {
    if es == [] then [] else
      var c := CallOf(es[|es| - 1]);
      CallsOf(es[..|es| - 1]) + if c.Some? then [c.value] else []
  }

  /** The bytes one event sends to the far side. */
  function ForwardBytes(ev: Event): seq<byte> {
    var c := CallOf(ev);
    if c.Some? then CallWire(c.value) else []
  }

  /** The bytes the proxy sends to the far side for a log of events. */
  function Forwarded(es: seq<Event>): seq<byte> {
    if es == [] then [] else Forwarded(es[..|es| - 1]) + ForwardBytes(es[|es| - 1])
  }

  /** The log without its WARNING events. */
  function Unwarned(es: seq<Event>): seq<Event> {
    if es == [] then [] else
      Unwarned(es[..|es| - 1]) + if es[|es| - 1].Warning? then [] else [es[|es| - 1]]
  }

  lemma CallsOfSnoc(es: seq<Event>, ev: Event)
    ensures CallsOf(es + [ev]) == CallsOf(es) + if CallOf(ev).Some? then [CallOf(ev).value] else []
  {
    assert (es + [ev])[..|es + [ev]| - 1] == es;
  }

  lemma UnwarnedSnoc(es: seq<Event>, ev: Event)
    ensures Unwarned(es + [ev]) == Unwarned(es) + if ev.Warning? then [] else [ev]
  {
    assert (es + [ev])[..|es + [ev]| - 1] == es;
  }

  lemma ForwardedSnoc(es: seq<Event>, ev: Event)
    ensures Forwarded(es + [ev]) == Forwarded(es) + ForwardBytes(ev)
  {
    assert (es + [ev])[..|es + [ev]| - 1] == es;
  }

  lemma ForwardedMore(es: seq<Event>, i: nat)
    requires i < |es|
    ensures Forwarded(es[..i + 1]) == Forwarded(es[..i]) + ForwardBytes(es[i])
  {
    TakeMore(es, i);
  }

  lemma {:induction false} UnwarnedConcat(a: seq<Event>, b: seq<Event>)
    ensures Unwarned(a + b) == Unwarned(a) + Unwarned(b)
  {
    if b == [] {
      assert a + b == a;
    } else {
      var init, x := b[..|b| - 1], b[|b| - 1];
      assert b == init + [x];
      Assoc(a, init, [x]);
      UnwarnedSnoc(a + init, x);
      UnwarnedConcat(a, init);
      UnwarnedSnoc(init, x);
      Assoc(Unwarned(a), Unwarned(init), if x.Warning? then [] else [x]);
    }
  }

  lemma {:induction false} CallsOfConcat(a: seq<Event>, b: seq<Event>)
    ensures CallsOf(a + b) == CallsOf(a) + CallsOf(b)
  {
    if b == [] {
      assert a + b == a;
    } else {
      var init, x := b[..|b| - 1], b[|b| - 1];
      assert b == init + [x];
      Assoc(a, init, [x]);
      CallsOfSnoc(a + init, x);
      CallsOfConcat(a, init);
      CallsOfSnoc(init, x);
      Assoc(CallsOf(a), CallsOf(init), if CallOf(x).Some? then [CallOf(x).value] else []);
    }
  }

  lemma {:induction false} ExpectedAllConcat(a: seq<Call>, b: seq<Call>)
    ensures ExpectedAll(a + b) == ExpectedAll(a) + ExpectedAll(b)
  {
    if b == [] {
      assert a + b == a;
    } else {
      var init, c := b[..|b| - 1], b[|b| - 1];
      assert (a + b)[..|a + b| - 1] == a + init;
      ExpectedAllConcat(a, init);
      Assoc(ExpectedAll(a), ExpectedAll(init), Expected(c));
    }
  }

  lemma ExpectedOne(c: Call)
    ensures ExpectedAll([c]) == Expected(c)
  {
    assert [c][..0] == [];
    assert [] + Expected(c) == Expected(c);
  }

  lemma {:induction false} ForwardedIsCallsWire(es: seq<Event>)
    ensures Forwarded(es) == CallsWire(CallsOf(es))
  {
    if es != [] {
      var init, c := es[..|es| - 1], CallOf(es[|es| - 1]);
      ForwardedIsCallsWire(init);
      if c.Some? {
        assert (CallsOf(init) + [c.value])[..|CallsOf(init)|] == CallsOf(init);
      } else {
        assert CallsOf(es) == CallsOf(init) && Forwarded(es) == Forwarded(init);
      }
    }
  }

  /** Forwarding does not depend on how the data was cut into DATA events. */
  lemma {:induction false} ForwardedAtoms(es: seq<Event>)
    ensures Forwarded(Atoms(es)) == Forwarded(es)
  {
    if es != [] {
      var init, ev := es[..|es| - 1], es[|es| - 1];
      ForwardedAtoms(init);
      if ev.Data? {
        ForwardedSingles(Atoms(init), ev.bytes);
      } else {
        ForwardedSnoc(Atoms(init), ev);
      }
    }
  }

  lemma {:induction false} ForwardedSingles(es: seq<Event>, bs: seq<byte>)
    ensures Forwarded(es + Singles(bs)) == Forwarded(es) + Escape(bs)
  {
    if bs == [] {
      assert es + Singles(bs) == es;
    } else {
      var init, b := bs[..|bs| - 1], bs[|bs| - 1];
      assert bs == init + [b];
      ForwardedSingles(es, init);
      SinglesSnoc(init, b);
      Assoc(es, Singles(init), [Data([b])]);
      ForwardedSnoc(es + Singles(init), Data([b]));
      EscapeSnoc([], b);
      assert [] + [b] == [b] && [] + EscapeByte(b) == EscapeByte(b);
      Assoc(Forwarded(es), Escape(init), EscapeByte(b));
    }
  }

  // ----- Transparency -----

  /** Sending `es` again tells the far peer `es`, WARNINGs aside. */
  predicate Echoes(es: seq<Event>) {
    && Unwarned(ExpectedAll(CallsOf(es))) == Unwarned(es)
    && forall c :: c in CallsOf(es) ==> Deliverable(c)
  }

  lemma EchoesConcat(a: seq<Event>, b: seq<Event>)
    requires Echoes(a) && Echoes(b)
    ensures Echoes(a + b)
  {
    CallsOfConcat(a, b);
    ExpectedAllConcat(CallsOf(a), CallsOf(b));
    UnwarnedConcat(ExpectedAll(CallsOf(a)), ExpectedAll(CallsOf(b)));
    UnwarnedConcat(a, b);
  }

  /** An event that is forwarded, followed by the events it implies. */
  lemma EchoesCall(c: Call, es: seq<Event>)
    requires Deliverable(c) && CallsOf(es) == [c] && Expected(c) == es
    ensures Echoes(es)
  {
    ExpectedOne(c);
  }

  lemma EchoesData(b: byte)
    ensures Echoes([Data([b])])
  {
    CallsOfSnoc([], Data([b]));
    assert [] + [Data([b])] == [Data([b])];
    SinglesSnoc([], b);
    assert [] + [b] == [b];
    EchoesCall(CallSend([b]), [Data([b])]);
  }

  lemma EchoesOther(ev: Event)
    requires CallOf(ev).Some? && !ev.Data? && !ev.Subnegotiation? && Possible(ev)
    ensures Echoes([ev])
  {
    CallsOfSnoc([], ev);
    assert [] + [ev] == [ev];
    EchoesCall(CallOf(ev).value, [ev]);
  }

  lemma EchoesWarning(w: Problem)
    ensures Echoes([Warning(w)])
  {
    CallsOfSnoc([], Warning(w));
    UnwarnedSnoc([], Warning(w));
    assert [] + [Warning(w)] == [Warning(w)];
    assert CallsOf([Warning(w)]) == [] && Unwarned([Warning(w)]) == [];
  }

  lemma PayloadSilent(o: byte, p: seq<byte>)
    ensures var es := PayloadEvents(o, p); es == [] || (|es| == 1 && CallOf(es[0]).None?)
  {
  }

  lemma EchoesSub(o: byte, p: seq<byte>)
    requires Carries(o, p)
    ensures Echoes(SubEvents(o, p))
  {
    var s, rest := Subnegotiation(o, p), PayloadEvents(o, p);
    CallsOfSnoc([], s);
    PlusNothing([s]);
    PayloadSilent(o, p);
    if rest != [] {
      assert rest == [rest[0]];
      CallsOfSnoc([s], rest[0]);
    }
    EchoesCall(CallSub(o, p), SubEvents(o, p));
  }

  lemma EchoesNothing()
    ensures Echoes([])
  {
  }

  lemma EchoesIac(e: Engine, b: byte)
    requires b != IAC
    ensures Echoes(StepIac(e, b).out)
  {
    EchoesNothing();
    if !Framing(b) { EchoesOther(Iac(b)); }
  }

  lemma EchoesStray(e: Engine, b: byte)
    requires Carries(e.sbTelopt, e.payload) && b != IAC && b != SE
    ensures Echoes(StepSbDataIac(e, b).out)
  {
    var first := [Warning(StrayCommand)] + SubEvents(e.sbTelopt, e.payload);
    EchoesWarning(StrayCommand);
    EchoesSub(e.sbTelopt, e.payload);
    EchoesConcat([Warning(StrayCommand)], SubEvents(e.sbTelopt, e.payload));
    var e' := e.(mode := InIac, payload := []);
    EchoesIac(e', b);
    EchoesConcat(first, StepIac(e', b).out);
  }

  lemma EchoesPair(a: byte, b: byte)
    ensures Echoes([Data([a])] + [Data([b])])
  {
    EchoesData(a);
    EchoesData(b);
    EchoesConcat([Data([a])], [Data([b])]);
  }

  lemma EchoesEol(e: Engine, b: byte)
    ensures Echoes(StepEol(e, b).out)
  {
    if b == LF || b == NUL {
      EchoesData(if b == LF then LF else CR);
    } else {
      EchoesPair(CR, b);
      assert [Data([CR])] + [Data([b])] == [Data([CR]), Data([b])];
    }
  }

  lemma EchoesInData(e: Engine, skip: bool, b: byte)
    requires Wrapped !in StepData(e, skip, b).out
    ensures Echoes(StepData(e, skip, b).out)
  {
    if IsPlain(e.flags, b) && !skip {
      EchoesData(b);
    } else {
      EchoesNothing();
      assert skip ==> Wrapped in [Wrapped];
    }
  }

  lemma EchoesInIac(e: Engine, b: byte)
    ensures Echoes(StepIac(e, b).out)
  {
    if b == IAC {
      assert StepIac(e, b).out == [Data([IAC])];
      EchoesData(IAC);
    } else {
      EchoesIac(e, b);
    }
  }

  lemma EchoesVerb(e: Engine, v: Verb, o: byte)
    requires e.flags.proxy
    ensures Echoes(StepVerb(e, v, o).out)
  {
    EchoesOther(Negotiation(v, o));
  }

  lemma EchoesBuffering(e: Engine, b: byte)
    ensures Echoes(Buffering(e, b).out)
  {
    if BufferByte(e, b).ok { EchoesNothing(); } else { EchoesWarning(BufferLimit); }
  }

  lemma EchoesSbData(e: Engine, b: byte)
    ensures Echoes(StepSbData(e, b).out)
  {
    if b == IAC || OldCompress(e, b) { EchoesNothing(); } else { EchoesBuffering(e, b); }
  }

  lemma EchoesSbDataIac(e: Engine, b: byte)
    requires Carries(e.sbTelopt, e.payload)
    ensures Echoes(StepSbDataIac(e, b).out)
  {
    if b == SE { EchoesSub(e.sbTelopt, e.payload); }
    else if b == IAC { EchoesBuffering(e, IAC); }
    else { EchoesStray(e, b); }
  }

  /** Everything one byte makes a PROXY-mode decoder report is echoed. */
  lemma EchoesStep(e: Engine, skip: bool, b: byte)
    requires BufferSound(e) && e.flags.proxy && Wrapped !in Step(e, skip, b).out
    ensures Echoes(Step(e, skip, b).out)
  {
    match e.mode
    case InData => EchoesInData(e, skip, b);
    case InEol => EchoesEol(e, b);
    case InIac => EchoesInIac(e, b);
    case InVerb(v) => EchoesVerb(e, v, b);
    case InSb => EchoesNothing();
    case InSbData => EchoesSbData(e, b);
    case InSbDataIac => EchoesSbDataIac(e, b);
  }

  lemma FlagsKept(e: Engine, skip: bool, b: byte)
    requires e.flags.proxy
    ensures Step(e, skip, b).engine.flags == e.flags
  {
    if !e.mode.InVerb? { QuietStep(e, b, skip); }
  }

  lemma {:induction false} EchoesRun(e: Engine, xs: seq<byte>)
    requires BufferSound(e) && e.flags.proxy && Wrapped !in Run(e, false, xs).out
    ensures Echoes(Run(e, false, xs).out) && Run(e, false, xs).engine.flags == e.flags
  {
    if xs == [] {
      EchoesNothing();
    } else {
      var init, b := xs[..|xs| - 1], xs[|xs| - 1];
      var r := Run(e, false, init);
      EchoesRun(e, init);
      RunSound(e, init);
      EchoesStep(r.engine, r.skip, b);
      EchoesConcat(r.out, Step(r.engine, r.skip, b).out);
      FlagsKept(r.engine, r.skip, b);
    }
  }

  lemma WrappedLast(a: seq<Event>, b: seq<Event>)
    ensures Wrapped in a + (b + [Wrapped])
  {
    assert (b + [Wrapped])[|b|] == Wrapped;
  }

  lemma {:induction false} EchoesChunks(e: Engine, cs: seq<seq<byte>>)
    requires BufferSound(e) && e.flags.proxy && Wrapped !in Chunks(e, cs).out
    ensures Echoes(Chunks(e, cs).out) && Chunks(e, cs).engine.flags == e.flags
  {
    if cs == [] {
      EchoesNothing();
    } else {
      var r, c := Chunks(e, cs[..|cs| - 1]), cs[|cs| - 1];
      EchoesChunks(e, cs[..|cs| - 1]);
      ChunksSound(e, cs[..|cs| - 1]);
      var run := Run(r.engine, false, c);
      WrappedLast(r.out, run.out);
      assert !run.skip;
      assert run.out + [] == run.out;
      EchoesRun(r.engine, c);
      EchoesConcat(r.out, run.out);
    }
  }

  /** Whatever the input and however it and the proxy's output are cut, decoding what the
      proxy sends reports what decoding the input reports, WARNINGs aside. */
  lemma Transparent(near: Engine, cs: seq<seq<byte>>, es: seq<Event>, far: Engine, ds: seq<seq<byte>>)
    requires BufferSound(near) && near.flags.proxy && Ready(far) && !far.flags.nvtEol
    requires Atoms(es) == Chunks(near, cs).out && Wrapped !in es
    requires Flat(ds) == Forwarded(es)
    ensures Unwarned(Chunks(far, ds).out) == Unwarned(Chunks(near, cs).out)
  {
    var out := Chunks(near, cs).out;
    NoWrappedAtom(es);
    EchoesChunks(near, cs);
    ForwardedAtoms(es);
    ForwardedIsCallsWire(out);
    SessionRoundTrip(far, CallsOf(out), ds);
  }

  lemma {:induction false} NoWrappedAtom(es: seq<Event>)
    requires Wrapped !in es
    ensures Wrapped !in Atoms(es)
  {
    if es != [] {
      assert es[|es| - 1] in es;
      NoWrappedAtom(es[..|es| - 1]);
    }
  }

  lemma PayloadNeverWraps(o: byte, p: seq<byte>)
    ensures Wrapped !in SubEvents(o, p)
  {
  }

  /** Only a window left behind makes a size wrap. */
  lemma StepWraps(e: Engine, b: byte)
    requires e.flags.proxy
    ensures Wrapped !in Step(e, false, b).out
  {
    match e.mode
    case InSbDataIac =>
      PayloadNeverWraps(e.sbTelopt, e.payload);
      assert Wrapped !in StepIac(e.(mode := InIac, payload := []), b).out;
      assert Wrapped !in Buffering(e, IAC).out;
    case _ =>
  }

  lemma {:induction false} CalmNeverWraps(e: Engine, xs: seq<byte>)
    requires e.flags.proxy && Calm(e, xs)
    ensures Wrapped !in Run(e, false, xs).out && Run(e, false, xs).engine.flags == e.flags
  {
    if xs != [] {
      var init, b := xs[..|xs| - 1], xs[|xs| - 1];
      CalmNeverWraps(e, init);
      var r := Run(e, false, init);
      SkipsExactly(e, init);
      StepWraps(r.engine, b);
      FlagsKept(r.engine, r.skip, b);
    }
  }

  lemma CalmChunks(e: Engine, cs: seq<seq<byte>>)
    requires e.flags.proxy && Calm(e, Flat(cs))
    ensures Wrapped !in Chunks(e, cs).out
  {
    AnyChunking(e, cs);
    CalmNeverWraps(e, Flat(cs));
    SkipsExactly(e, Flat(cs));
    PlusNothing(Run(e, false, Flat(cs)).out);
  }

  /** In particular for every input that never reaches an MCCPv1 sequence. */
  lemma TransparentWhenCalm(near: Engine, cs: seq<seq<byte>>, es: seq<Event>, far: Engine, ds: seq<seq<byte>>)
    requires BufferSound(near) && near.flags.proxy && Ready(far) && !far.flags.nvtEol
    requires Calm(near, Flat(cs))
    requires Atoms(es) == Chunks(near, cs).out && Flat(ds) == Forwarded(es)
    ensures Unwarned(Chunks(far, ds).out) == Unwarned(Chunks(near, cs).out)
  {
    CalmChunks(near, cs);
    if Wrapped in es { WrappedAtom(es); }
    Transparent(near, cs, es, far, ds);
  }

  lemma {:induction false} WrappedAtom(es: seq<Event>)
    requires Wrapped in es
    ensures Wrapped in Atoms(es)
  {
    Unsnoc(es);
    var init, ev := es[..|es| - 1], es[|es| - 1];
    if ev != Wrapped { WrappedAtom(init); } else { assert AtomsOf(ev)[0] == Wrapped; }
  }
}
