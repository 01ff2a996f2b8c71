/** The state tracker of libtelnet.c: `struct telnet_t` and the functions that update it in
    place, each proved against the transducer, the Q method or the encoders. The application's
    handler is the log `events`. */
module TelnetEngine {
  import opened Sequences
  import opened Bytes
  import opened Events
  import opened QMethod
  import opened Decoder
  import opened Encoder
  import opened Invariants
  import opened Window
  import Environ
  import Mssp
  import ZmpCodec

  function VerbOf(cmd: byte): (v: Option<Verb>)
    ensures v.Some? ==> Code(v.value) == cmd
  {
    if cmd == WILL then Some(VWill) else if cmd == WONT then Some(VWont)
    else if cmd == DO then Some(VDo) else if cmd == DONT then Some(VDont) else None
  }

  const BUFFER_SIZES: seq<nat> := [0, 512, 2048, 8192, 16384]

  /** From `before` to `after` only SEND events were raised, carrying `bytes`. */
  predicate Sent(before: seq<Event>, after: seq<Event>, bytes: seq<byte>) {
    && |before| <= |after| && after[..|before|] == before
    && (forall i :: |before| <= i < |after| ==> after[i].Send?)
    && Wire(after) == Wire(before) + bytes
  }

  lemma SentNothing(log: seq<Event>)
    ensures Sent(log, log, [])
  {
  }

  lemma SentMore(before: seq<Event>, after: seq<Event>, xs: seq<byte>, ys: seq<byte>)
    requires Sent(before, after, xs)
    ensures Sent(before, after + [Send(ys)], xs + ys)
  {
    WireSnoc(after, Send(ys));
    Assoc(Wire(before), xs, ys);
  }

  lemma SentThen(a: seq<Event>, b: seq<Event>, c: seq<Event>, xs: seq<byte>, ys: seq<byte>)
    requires Sent(a, b, xs) && Sent(b, c, ys)
    ensures Sent(a, c, xs + ys)
  {
    Assoc(Wire(a), xs, ys);
    assert c[..|a|] == c[..|b|][..|a|];
    forall i | |a| <= i < |c| ensures c[i].Send? {
      if i < |b| { assert c[i] == c[..|b|][i]; }
    }
  }

  lemma NothingPending(sent: seq<byte>, bytes: seq<byte>, l: nat)
    requires l <= |bytes|
    ensures sent + bytes[l..l] == sent
  {
  }

  /** Of a sender's output `whole`, `sent` has gone out since `log`, and bytes[l..i] is pending. */
  ghost predicate Outgoing(log: seq<Event>, now: seq<Event>, sent: seq<byte>, bytes: seq<byte>, l: nat, i: nat,
                           whole: seq<byte>)
  {
    l <= i <= |bytes| && Sent(log, now, sent) && sent + bytes[l..i] == whole
  }

  lemma PendingMore(log: seq<Event>, now: seq<Event>, sent: seq<byte>, bytes: seq<byte>, l: nat, i: nat,
                    whole: seq<byte>)
    requires i < |bytes| && Outgoing(log, now, sent, bytes, l, i, whole)
    ensures Outgoing(log, now, sent, bytes, l, i + 1, whole + [bytes[i]])
  {
    assert bytes[l..i + 1] == bytes[l..i] + [bytes[i]];
    Assoc(sent, bytes[l..i], [bytes[i]]);
  }

  /** The log with what a reaction raises, event by event. */
  function Logged(log: seq<Event>, r: Reaction, o: byte): seq<Event> {
    var log1 := if r.reply.Some? then log + [Send(NegotiationBytes(r.reply.value, o))] else log;
    var log2 := if r.notice.Some? then log1 + [Negotiation(r.notice.value, o)] else log1;
    if r.warned then log2 + [Warning(AnsweredBackwards)] else log2
  }

  lemma LoggedIs(log: seq<Event>, r: Reaction, o: byte)
    ensures Logged(log, r, o) == log + ReactionEvents(r, o)
  {
  }

  /** What a reaction does, without the packing. */
  lemma ReactedIs(e: Engine, log: seq<Event>, x: Stimulus)
    ensures var q := e.q[x.telopt];
            var r := SideReaction(q, e.telopts, x);
            var same := r.next == if ForUs(x) then QUs(q) else QHim(q);
            && log + Reacted(e, x).1 == Logged(log, r, x.telopt)
            && Reacted(e, x).0 == if same then e else Store(e, x.telopt, WithSide(q, ForUs(x), r.next))
  {
    LoggedIs(log, SideReaction(e.q[x.telopt], e.telopts, x), x.telopt);
  }

  class Telnet {
    const telopts: Telopts
    const q: array<byte>
    var buffer: array<byte>
    var bufferSize: nat
    var bufferPos: nat
    var state: Mode
    var flags: Flags
    var sbTelopt: byte
    var events: seq<Event>
    ghost var inputs: seq<Input>

    ghost predicate Valid()
      reads this
    {
      && q.Length == 256 && buffer != q
      && buffer.Length == bufferSize && bufferPos <= bufferSize && BufferSize(bufferSize)
    }

    /** The transducer state this object represents. Outside a subnegotiation the buffer's
        contents mean nothing: the payload parsers scramble them. */
    ghost function Abs(): Engine
      requires Valid()
      reads this, q, buffer
    {
      Engine(telopts, state, flags, q[..], sbTelopt,
             if InSubnegotiation(state) then buffer[..bufferPos] else [], bufferSize)
    }

    /** `inputs` is everything received and requested since telnet_init. */
    ghost predicate Traced()
      requires Valid()
      reads this, q, buffer
    {
      Traces(Abs(), inputs)
    }

    /** So the invariants of reachable engines hold of this object, and a side that is neither
        supported nor requested is off. */
    lemma Reached()
      requires Valid() && Traced()
      ensures Sound(Abs())
      ensures forall o: byte :: !Offers(telopts, o) && Request(VWill, o) !in inputs ==> QUs(q[o]) == Q_NO
      ensures forall o: byte :: !Accepts(telopts, o) && Request(VDo, o) !in inputs ==> QHim(q[o]) == Q_NO
    {
      AlwaysSound(telopts, flags.proxy, flags.nvtEol, inputs);
      forall o: byte
        ensures !Offers(telopts, o) && Request(VWill, o) !in inputs ==> QUs(q[o]) == Q_NO
        ensures !Accepts(telopts, o) && Request(VDo, o) !in inputs ==> QHim(q[o]) == Q_NO
      {
        UnsupportedStaysOff(telopts, flags.proxy, flags.nvtEol, inputs, o);
      }
    }

    /** `telnet_init`. */
    constructor (telopts: Telopts, proxy: bool, nvtEol: bool)
      ensures Valid() && fresh(q) && fresh(buffer)
      ensures Abs() == Init(telopts, proxy, nvtEol) && events == [] && Traced() && inputs == []
    {
      this.telopts := telopts;
      q := new byte[256](_ => 0);
      buffer := new byte[0];
      bufferSize, bufferPos := 0, 0;
      state := InData;
      flags := Flags(proxy, nvtEol, false, false);
      sbTelopt := 0;
      events := [];
      inputs := [];
    }

    method Raise(ev: Event)
      modifies this`events
      ensures events == old(events) + [ev]
    {
      events := events + [ev];
    }

    // ----- Sending -----

    /** `_send`. */
    method SendBytes(bytes: seq<byte>)
      modifies this`events
      ensures events == old(events) + [Send(bytes)] && Sent(old(events), events, bytes)
    {
      Raise(Send(bytes));
      SentNothing(old(events));
      SentMore(old(events), old(events), [], bytes);
      assert [] + bytes == bytes;
    }

    /** `telnet_iac`. */
    method TelnetIac(cmd: byte)
      modifies this`events
      ensures Sent(old(events), events, [IAC, cmd])
    {
      SendBytes([IAC, cmd]);
    }

    /** Sends the pending part of a sender's input, if there is one. */
    method SendPart(bytes: seq<byte>, l: nat, i: nat)
      requires l <= i <= |bytes|
      modifies this`events
      ensures Sent(old(events), events, bytes[l..i])
    {
      if i != l {
        SendBytes(bytes[l..i]);
      } else {
        SentNothing(events);
      }
    }

    /** The pending part of a sender's input, then one replacement sequence. */
    method SendPartThen(bytes: seq<byte>, l: nat, i: nat, extra: seq<byte>,
                        ghost log: seq<Event>, ghost sent: seq<byte>, ghost whole: seq<byte>)
      requires i < |bytes| && Outgoing(log, events, sent, bytes, l, i, whole)
      modifies this`events
      ensures Outgoing(log, events, whole + extra, bytes, i + 1, i + 1, whole + extra)
    {
      ghost var before := events;
      SendPart(bytes, l, i);
      SentThen(log, before, events, sent, bytes[l..i]);
      before := events;
      SendBytes(extra);
      SentThen(log, before, events, whole, extra);
      NothingPending(whole + extra, bytes, i + 1);
    }

    /** What is still pending when the input ends. */
    method SendRest(bytes: seq<byte>, l: nat, ghost log: seq<Event>, ghost sent: seq<byte>, ghost whole: seq<byte>)
      requires Outgoing(log, events, sent, bytes, l, |bytes|, whole)
      modifies this`events
      ensures Sent(log, events, whole)
    {
      ghost var before := events;
      SendPart(bytes, l, |bytes|);
      SentThen(log, before, events, sent, bytes[l..|bytes|]);
    }

    /** One byte of telnet_send: left pending, or doubled. */
    method SendTurn(bytes: seq<byte>, i: nat, l0: nat, ghost log: seq<Event>, ghost sent0: seq<byte>,
                    ghost whole: seq<byte>)
      returns (l: nat, ghost sent: seq<byte>)
      requires i < |bytes| && Outgoing(log, events, sent0, bytes, l0, i, whole)
      modifies this`events
      ensures Outgoing(log, events, sent, bytes, l, i + 1, whole + EscapeByte(bytes[i]))
    {
      l, sent := l0, sent0;
      if bytes[i] == IAC {
        SendPartThen(bytes, l, i, [IAC, IAC], log, sent, whole);
        l, sent := i + 1, whole + [IAC, IAC];
      } else {
        PendingMore(log, events, sent, bytes, l, i, whole);
      }
    }

    /** `telnet_send`. */
    method TelnetSend(bytes: seq<byte>)
      modifies this`events
      ensures Sent(old(events), events, Escape(bytes))
    {
      ghost var log, sent, whole := events, [], [];
      var i: nat, l: nat := 0, 0;
      SentNothing(log);
      while i != |bytes|
        invariant i <= |bytes| && whole == Escape(bytes[..i]) && Outgoing(log, events, sent, bytes, l, i, whole)
        decreases |bytes| - i
      {
        EscapeMore(bytes, i);
        l, sent := SendTurn(bytes, i, l, log, sent, whole);
        whole := whole + EscapeByte(bytes[i]);
        i := i + 1;
      }
      TakeAll(bytes, i);
      SendRest(bytes, l, log, sent, whole);
    }

    /** One byte of telnet_send_text: left pending, or replaced. */
    method TextTurn(bytes: seq<byte>, i: nat, l0: nat, ghost log: seq<Event>, ghost sent0: seq<byte>,
                    ghost whole: seq<byte>)
      returns (l: nat, ghost sent: seq<byte>)
      requires i < |bytes| && Outgoing(log, events, sent0, bytes, l0, i, whole)
      modifies this`events
      ensures Outgoing(log, events, sent, bytes, l, i + 1, whole + TextByte(bytes[i], flags.transmitBinary))
    {
      l, sent := l0, sent0;
      if bytes[i] == IAC || (!flags.transmitBinary && (bytes[i] == CR || bytes[i] == LF)) {
        // IAC IAC through telnet_iac; CR NUL for CR and CR LF for LF
        var extra := if bytes[i] == IAC then [IAC, IAC] else if bytes[i] == CR then [CR, NUL] else [CR, LF];
        SendPartThen(bytes, l, i, extra, log, sent, whole);
        l, sent := i + 1, whole + extra;
      } else {
        PendingMore(log, events, sent, bytes, l, i, whole);
      }
    }

    /** `telnet_send_text`. */
    method TelnetSendText(bytes: seq<byte>)
      modifies this`events
      ensures Sent(old(events), events, EncodeText(bytes, flags.transmitBinary))
    {
      ghost var log, sent, whole, binary := events, [], [], flags.transmitBinary;
      var i: nat, l: nat := 0, 0;
      SentNothing(log);
      while i != |bytes|
        invariant i <= |bytes| && whole == EncodeText(bytes[..i], binary)
        invariant Outgoing(log, events, sent, bytes, l, i, whole)
        decreases |bytes| - i
      {
        EncodeTextMore(bytes, i, binary);
        l, sent := TextTurn(bytes, i, l, log, sent, whole);
        whole := whole + TextByte(bytes[i], binary);
        i := i + 1;
      }
      TakeAll(bytes, i);
      SendRest(bytes, l, log, sent, whole);
    }

    /** `telnet_begin_sb`. */
    method BeginSb(telopt: byte)
      modifies this`events
      ensures Sent(old(events), events, Header(telopt))
    {
      SendBytes([IAC, SB, telopt]);
    }

    /** `telnet_subnegotiation`. */
    method TelnetSubnegotiation(telopt: byte, payload: seq<byte>)
      modifies this`events
      ensures Sent(old(events), events, Frame(telopt, payload))
    {
      ghost var log := events;
      SendBytes([IAC, SB, telopt]);
      ghost var before := events;
      TelnetSend(payload);
      SentThen(log, before, events, Header(telopt), Escape(payload));
      before := events;
      SendBytes([IAC, SE]);
      SentThen(log, before, events, Header(telopt) + Escape(payload), FOOTER);
    }

    /** `telnet_begin_newenviron`. */
    method BeginNewEnviron(cmd: byte)
      modifies this`events
      ensures Sent(old(events), events, Header(TELOPT_NEW_ENVIRON) + Escape([cmd]))
    {
      ghost var log := events;
      BeginSb(TELOPT_NEW_ENVIRON);
      ghost var before := events;
      TelnetSend([cmd]);
      SentThen(log, before, events, Header(TELOPT_NEW_ENVIRON), Escape([cmd]));
    }

    /** `telnet_newenviron_value`; a null string sends only the type byte. */
    method NewEnvironValue(kind: byte, s: Option<seq<byte>>)
      modifies this`events
      ensures Sent(old(events), events, ValueWire(kind, if s.Some? then s.value else []))
    {
      ghost var log := events;
      TelnetSend([kind]);
      if s.Some? {
        ghost var before := events;
        TelnetSend(s.value);
        SentThen(log, before, events, Escape([kind]), Escape(s.value));
      } else {
        assert Escape([kind]) + Escape([]) == Escape([kind]);
      }
    }

    /** `telnet_ttype_send`. */
    method TtypeSend()
      modifies this`events
      ensures Sent(old(events), events, TTYPE_SEND_WIRE)
    {
      SendBytes([IAC, SB, TELOPT_TTYPE, TTYPE_SEND, IAC, SE]);
    }

    /** `telnet_ttype_is`: the name is not escaped. */
    method TtypeIs(name: seq<byte>)
      modifies this`events
      ensures Sent(old(events), events, TtypeIsWire(name))
    {
      ghost var log, start := events, [IAC, SB, TELOPT_TTYPE, TTYPE_IS];
      SendBytes([IAC, SB, TELOPT_TTYPE, TTYPE_IS]);
      ghost var before := events;
      SendBytes(name);
      SentThen(log, before, events, start, name);
      before := events;
      TelnetIac(SE);
      SentThen(log, before, events, start + name, FOOTER);
    }

    /** `telnet_zmp_arg`: the string and its NUL. */
    method ZmpArg(arg: seq<byte>)
      modifies this`events
      ensures Sent(old(events), events, Escape(arg + [NUL]))
    {
      TelnetSend(arg + [NUL]);
    }

    /** `telnet_send_zmp`; the source reads argv[0] without looking at argc. */
    method SendZmp(argv: seq<seq<byte>>)
      requires argv != []
      modifies this`events
      ensures Sent(old(events), events, ZmpWire(argv))
    {
      ghost var log := events;
      BeginSb(TELOPT_ZMP);
      ghost var before := events;
      ZmpArg(argv[0]);
      assert argv[..1] == [argv[0]] && argv[..1][..0] == [];
      assert ArgsWire([]) + Escape(argv[0] + [NUL]) == Escape(argv[0] + [NUL]);
      SentThen(log, before, events, Header(TELOPT_ZMP), ArgsWire(argv[..1]));
      var i := 1;
      while i != |argv|
        invariant 1 <= i <= |argv|
        invariant Sent(log, events, Header(TELOPT_ZMP) + ArgsWire(argv[..i]))
        decreases |argv| - i
      {
        before := events;
        ZmpArg(argv[i]);
        SentThen(log, before, events, Header(TELOPT_ZMP) + ArgsWire(argv[..i]), Escape(argv[i] + [NUL]));
        assert argv[..i + 1][..i] == argv[..i];
        Assoc(Header(TELOPT_ZMP), ArgsWire(argv[..i]), Escape(argv[i] + [NUL]));
        i := i + 1;
      }
      assert argv[..i] == argv;
      before := events;
      TelnetIac(SE);
      SentThen(log, before, events, Header(TELOPT_ZMP) + ArgsWire(argv), FOOTER);
    }

    // ----- Negotiation -----

    /** `_set_rfc1143`. */
    method SetRfc1143(telopt: byte, us: nibble, him: nibble)
      requires Valid()
      modifies q, this`flags
      ensures Valid() && Abs() == Store(old(Abs()), telopt, QMake(us, him))
    {
      q[telopt] := QMake(us, him);
      if telopt != TELOPT_BINARY {
        return;
      }
      flags := flags.(transmitBinary := false, receiveBinary := false);
      if us == Q_YES {
        flags := flags.(transmitBinary := true);
      }
      if him == Q_YES {
        flags := flags.(receiveBinary := true);
      }
    }

    /** `_send_negotiate`. */
    method SendNegotiate(v: Verb, telopt: byte)
      modifies this`events
      ensures events == old(events) + [Send(NegotiationBytes(v, telopt))]
    {
      SendBytes([IAC, Code(v), telopt]);
    }

    /** WILL heard while the side is off: agree or refuse. */
    method AnswerWill(telopt: byte)
      requires Valid() && QHim(q[telopt]) == Q_NO
      modifies q, this`flags, this`events
      ensures Valid() && Abs() == Reacted(old(Abs()), Hear(VWill, telopt)).0
      ensures events == old(events) + Reacted(old(Abs()), Hear(VWill, telopt)).1
    {
      ReactedIs(Abs(), events, Hear(VWill, telopt));
      if SupportsRemote(telopts, telopt) {
        SetRfc1143(telopt, QUs(q[telopt]), Q_YES);
        SendNegotiate(VDo, telopt);
        Raise(Negotiation(VWill, telopt));
      } else {
        SendNegotiate(VDont, telopt);
      }
    }

    /** The WILL case of `_negotiate`. */
    method ReceiveWill(telopt: byte)
      requires Valid()
      modifies q, this`flags, this`events
      ensures Valid() && Abs() == Reacted(old(Abs()), Hear(VWill, telopt)).0
      ensures events == old(events) + Reacted(old(Abs()), Hear(VWill, telopt)).1
    {
      ReactedIs(Abs(), events, Hear(VWill, telopt));
      var us, him := QUs(q[telopt]), QHim(q[telopt]);
      if him == Q_NO {
        AnswerWill(telopt);
      } else if him == Q_WANTNO {
        SetRfc1143(telopt, us, Q_NO);
        Raise(Negotiation(VWont, telopt));
        Raise(Warning(AnsweredBackwards));
      } else if him == Q_WANTNO_OP {
        SetRfc1143(telopt, us, Q_YES);
        Raise(Negotiation(VWill, telopt));
        Raise(Warning(AnsweredBackwards));
      } else if him == Q_WANTYES {
        SetRfc1143(telopt, us, Q_YES);
        Raise(Negotiation(VWill, telopt));
      } else if him == Q_WANTYES_OP {
        SetRfc1143(telopt, us, Q_WANTNO);
        SendNegotiate(VDont, telopt);
        Raise(Negotiation(VWill, telopt));
      }
    }

    /** The WONT case; in Q_WANTNO_OP no DO is sent. */
    method ReceiveWont(telopt: byte)
      requires Valid()
      modifies q, this`flags, this`events
      ensures Valid() && Abs() == Reacted(old(Abs()), Hear(VWont, telopt)).0
      ensures events == old(events) + Reacted(old(Abs()), Hear(VWont, telopt)).1
    {
      ReactedIs(Abs(), events, Hear(VWont, telopt));
      var us, him := QUs(q[telopt]), QHim(q[telopt]);
      if him == Q_YES {
        SetRfc1143(telopt, us, Q_NO);
        SendNegotiate(VDont, telopt);
        Raise(Negotiation(VWont, telopt));
      } else if him == Q_WANTNO {
        SetRfc1143(telopt, us, Q_NO);
        Raise(Negotiation(VWont, telopt));
      } else if him == Q_WANTNO_OP {
        SetRfc1143(telopt, us, Q_WANTYES);
        Raise(Negotiation(VDo, telopt));
      } else if him == Q_WANTYES || him == Q_WANTYES_OP {
        SetRfc1143(telopt, us, Q_NO);
      }
    }

    /** DO heard while the side is off: agree or refuse. */
    method AnswerDo(telopt: byte)
      requires Valid() && QUs(q[telopt]) == Q_NO
      modifies q, this`flags, this`events
      ensures Valid() && Abs() == Reacted(old(Abs()), Hear(VDo, telopt)).0
      ensures events == old(events) + Reacted(old(Abs()), Hear(VDo, telopt)).1
    {
      ReactedIs(Abs(), events, Hear(VDo, telopt));
      if SupportsLocal(telopts, telopt) {
        SetRfc1143(telopt, Q_YES, QHim(q[telopt]));
        SendNegotiate(VWill, telopt);
        Raise(Negotiation(VDo, telopt));
      } else {
        SendNegotiate(VWont, telopt);
      }
    }

    /** The DO case. */
    method ReceiveDo(telopt: byte)
      requires Valid()
      modifies q, this`flags, this`events
      ensures Valid() && Abs() == Reacted(old(Abs()), Hear(VDo, telopt)).0
      ensures events == old(events) + Reacted(old(Abs()), Hear(VDo, telopt)).1
    {
      ReactedIs(Abs(), events, Hear(VDo, telopt));
      var us, him := QUs(q[telopt]), QHim(q[telopt]);
      if us == Q_NO {
        AnswerDo(telopt);
      } else if us == Q_WANTNO {
        SetRfc1143(telopt, Q_NO, him);
        Raise(Negotiation(VDont, telopt));
        Raise(Warning(AnsweredBackwards));
      } else if us == Q_WANTNO_OP {
        SetRfc1143(telopt, Q_YES, him);
        Raise(Negotiation(VDo, telopt));
        Raise(Warning(AnsweredBackwards));
      } else if us == Q_WANTYES {
        SetRfc1143(telopt, Q_YES, him);
        Raise(Negotiation(VDo, telopt));
      } else if us == Q_WANTYES_OP {
        SetRfc1143(telopt, Q_WANTNO, him);
        SendNegotiate(VWont, telopt);
        Raise(Negotiation(VDo, telopt));
      }
    }

    /** The DONT case. */
    method ReceiveDont(telopt: byte)
      requires Valid()
      modifies q, this`flags, this`events
      ensures Valid() && Abs() == Reacted(old(Abs()), Hear(VDont, telopt)).0
      ensures events == old(events) + Reacted(old(Abs()), Hear(VDont, telopt)).1
    {
      ReactedIs(Abs(), events, Hear(VDont, telopt));
      var us, him := QUs(q[telopt]), QHim(q[telopt]);
      if us == Q_YES {
        SetRfc1143(telopt, Q_NO, him);
        SendNegotiate(VWont, telopt);
        Raise(Negotiation(VDont, telopt));
      } else if us == Q_WANTNO {
        SetRfc1143(telopt, Q_NO, him);
        Raise(Negotiation(VWont, telopt));
      } else if us == Q_WANTNO_OP {
        SetRfc1143(telopt, Q_WANTYES, him);
        SendNegotiate(VWill, telopt);
        Raise(Negotiation(VWill, telopt));
      } else if us == Q_WANTYES || us == Q_WANTYES_OP {
        SetRfc1143(telopt, Q_NO, him);
      }
    }

    /** `_negotiate`: the verb is the decoder's state. */
    method NegotiateOption(telopt: byte)
      requires Valid() && state.InVerb?
      modifies q, this`flags, this`events
      ensures Valid() && Abs() == Negotiate(old(Abs()), old(state.verb), telopt).0
      ensures events == old(events) + Negotiate(old(Abs()), old(state.verb), telopt).1
    {
      if flags.proxy {
        Raise(Negotiation(state.verb, telopt));
        return;
      }
      match state.verb {
        case VWill => ReceiveWill(telopt);
        case VWont => ReceiveWont(telopt);
        case VDo => ReceiveDo(telopt);
        case VDont => ReceiveDont(telopt);
      }
    }

    /** The WILL case of `telnet_negotiate`. */
    method AskWill(telopt: byte)
      requires Valid()
      modifies q, this`flags, this`events
      ensures Valid() && Abs() == Reacted(old(Abs()), Ask(VWill, telopt)).0
      ensures events == old(events) + Reacted(old(Abs()), Ask(VWill, telopt)).1
    {
      ReactedIs(Abs(), events, Ask(VWill, telopt));
      var us, him := QUs(q[telopt]), QHim(q[telopt]);
      if us == Q_NO {
        SetRfc1143(telopt, Q_WANTYES, him);
        SendNegotiate(VWill, telopt);
      } else if us == Q_WANTNO {
        SetRfc1143(telopt, Q_WANTNO_OP, him);
      } else if us == Q_WANTYES_OP {
        SetRfc1143(telopt, Q_WANTYES, him);
      }
    }

    /** The WONT case of `telnet_negotiate`. */
    method AskWont(telopt: byte)
      requires Valid()
      modifies q, this`flags, this`events
      ensures Valid() && Abs() == Reacted(old(Abs()), Ask(VWont, telopt)).0
      ensures events == old(events) + Reacted(old(Abs()), Ask(VWont, telopt)).1
    {
      ReactedIs(Abs(), events, Ask(VWont, telopt));
      var us, him := QUs(q[telopt]), QHim(q[telopt]);
      if us == Q_YES {
        SetRfc1143(telopt, Q_WANTNO, him);
        SendNegotiate(VWont, telopt);
      } else if us == Q_WANTYES {
        SetRfc1143(telopt, Q_WANTYES_OP, him);
      } else if us == Q_WANTNO_OP {
        SetRfc1143(telopt, Q_WANTNO, him);
      }
    }

    /** The DO case of `telnet_negotiate`. */
    method AskDo(telopt: byte)
      requires Valid()
      modifies q, this`flags, this`events
      ensures Valid() && Abs() == Reacted(old(Abs()), Ask(VDo, telopt)).0
      ensures events == old(events) + Reacted(old(Abs()), Ask(VDo, telopt)).1
    {
      ReactedIs(Abs(), events, Ask(VDo, telopt));
      var us, him := QUs(q[telopt]), QHim(q[telopt]);
      if him == Q_NO {
        SetRfc1143(telopt, us, Q_WANTYES);
        SendNegotiate(VDo, telopt);
      } else if him == Q_WANTNO {
        SetRfc1143(telopt, us, Q_WANTNO_OP);
      } else if him == Q_WANTYES_OP {
        SetRfc1143(telopt, us, Q_WANTYES);
      }
    }

    /** The DONT case of `telnet_negotiate`. */
    method AskDont(telopt: byte)
      requires Valid()
      modifies q, this`flags, this`events
      ensures Valid() && Abs() == Reacted(old(Abs()), Ask(VDont, telopt)).0
      ensures events == old(events) + Reacted(old(Abs()), Ask(VDont, telopt)).1
    {
      ReactedIs(Abs(), events, Ask(VDont, telopt));
      var us, him := QUs(q[telopt]), QHim(q[telopt]);
      if him == Q_YES {
        SetRfc1143(telopt, us, Q_WANTNO);
        SendNegotiate(VDont, telopt);
      } else if him == Q_WANTYES {
        SetRfc1143(telopt, us, Q_WANTYES_OP);
      } else if him == Q_WANTNO_OP {
        SetRfc1143(telopt, us, Q_WANTNO);
      }
    }

    /** `telnet_negotiate`. In PROXY mode any command byte goes out as it is; otherwise a
        byte that is no verb is ignored. */
    method TelnetNegotiate(cmd: byte, telopt: byte)
      requires Valid()
      modifies q, this`flags, this`events, this`inputs
      ensures Valid() && (old(Traced()) ==> Traced())
      ensures inputs == old(inputs) + Requested(VerbOf(cmd), telopt)
      ensures old(flags).proxy ==> Abs() == old(Abs()) && events == old(events) + [Send([IAC, cmd, telopt])]
                                   && Sent(old(events), events, [IAC, cmd, telopt])
      ensures !old(flags).proxy && VerbOf(cmd).None? ==> Abs() == old(Abs()) && events == old(events)
      ensures VerbOf(cmd).Some? ==> var r := RequestOption(old(Abs()), VerbOf(cmd).value, telopt);
                                    Abs() == r.0 && events == old(events) + r.1
    {
      ghost var before := Abs();
      if flags.proxy {
        SendBytes([IAC, cmd, telopt]);
      } else if cmd == WILL {
        AskWill(telopt);
      } else if cmd == WONT {
        AskWont(telopt);
      } else if cmd == DO {
        AskDo(telopt);
      } else if cmd == DONT {
        AskDont(telopt);
      }
      inputs := inputs + Requested(VerbOf(cmd), telopt);
      if Traces(before, old(inputs)) { TracesRequest(before, old(inputs), VerbOf(cmd), telopt); }
    }

    // ----- Receiving -----

    /** `_buffer_byte`: grows the buffer one step when it is full. */
    method StoreByte(b: byte) returns (ok: bool)
      requires Valid() && InSubnegotiation(state)
      modifies this`buffer, this`bufferSize, this`bufferPos, this`events, buffer
      ensures Valid() && (buffer == old(buffer) || fresh(buffer))
      ensures var r := BufferByte(old(Abs()), b);
              && ok == r.ok && Abs() == r.engine
              && events == old(events) + if ok then [] else [Warning(BufferLimit)]
    {
      ghost var payload := buffer[..bufferPos];
      if bufferPos == bufferSize {
        var i := 0;
        while i != |BUFFER_SIZES| && BUFFER_SIZES[i] != bufferSize
          invariant 0 <= i <= |BUFFER_SIZES|
          invariant forall k :: 0 <= k < i ==> BUFFER_SIZES[k] != bufferSize
          decreases |BUFFER_SIZES| - i
        {
          i := i + 1;
        }
        assert BUFFER_SIZES == [0, 512, 2048, 8192, 16384];
        if i >= |BUFFER_SIZES| - 1 {
          assert forall k :: 0 <= k < 4 ==> BUFFER_SIZES[k] != bufferSize;
          assert BUFFER_SIZES[0] != bufferSize && BUFFER_SIZES[1] != bufferSize
                 && BUFFER_SIZES[2] != bufferSize && BUFFER_SIZES[3] != bufferSize;
          Raise(Warning(BufferLimit));
          return false;
        }
        Reallocate(BUFFER_SIZES[i + 1]);
      }
      buffer[bufferPos] := b;
      bufferPos := bufferPos + 1;
      assert buffer[..bufferPos] == payload + [b];
      return true;
    }

    /** `realloc` to the next size; the old contents move along. */
    method Reallocate(size: nat)
      requires Valid() && BufferSize(size) && bufferSize <= size
      modifies this`buffer, this`bufferSize
      ensures Valid() && fresh(buffer) && bufferSize == size
      ensures buffer[..bufferPos] == old(buffer[..bufferPos])
    {
      var bigger := new byte[size](_ => 0);
      var k := 0;
      while k < bufferPos
        invariant 0 <= k <= bufferPos <= bigger.Length
        invariant buffer == old(buffer) && fresh(bigger)
        invariant bigger[..k] == buffer[..k]
      {
        bigger[k] := buffer[k];
        k := k + 1;
      }
      buffer, bufferSize := bigger, size;
    }

    /** `_ttype_telnet`, which always returns 0. */
    method ParseTtype(size: nat) returns (out: seq<Event>)
      requires size <= buffer.Length
      ensures out == TtypeOutcome(buffer[..size])
    {
      if size == 0 || (buffer[0] != TTYPE_IS && buffer[0] != TTYPE_SEND) {
        return [Warning(BadTtype)];
      }
      if buffer[0] == TTYPE_IS {
        assert buffer[1..size] == buffer[..size][1..];
        return [Ttype(TTYPE_IS, Some(buffer[1..size]))];
      }
      return [Ttype(TTYPE_SEND, None)];
    }

    /** `_subnegotiate`: the caller has already left the subnegotiation state. */
    method Subnegotiate() returns (restart: bool)
      requires Valid() && !InSubnegotiation(state)
      modifies this`events, buffer
      ensures Valid() && Abs() == old(Abs())
      ensures events == old(events) + SubEvents(sbTelopt, old(buffer[..bufferPos]))
      ensures restart == SubRestarts(sbTelopt, old(buffer[..bufferPos]))
    {
      ghost var payload := buffer[..bufferPos];
      Raise(Subnegotiation(sbTelopt, buffer[..bufferPos]));
      restart := false;
      var out := [];
      if sbTelopt == TELOPT_ZMP {
        out := ZmpCodec.ParseZmp(buffer, bufferPos);
      } else if sbTelopt == TELOPT_TTYPE {
        out := ParseTtype(bufferPos);
      } else if sbTelopt == TELOPT_ENVIRON || sbTelopt == TELOPT_NEW_ENVIRON {
        out, restart := Environ.ParseEnviron(buffer, bufferPos);
      } else if sbTelopt == TELOPT_MSSP {
        out := Mssp.ParseMssp(buffer, bufferPos);
      }
      events := events + out;
      Assoc(old(events), [Subnegotiation(sbTelopt, payload)], PayloadEvents(sbTelopt, payload));
    }

    /** Reports a part of the window, or the wrapped size if the window has none. */
    method FlushWindow(input: seq<byte>, start: nat, i: nat)
      requires i <= |input|
      modifies this`events
      ensures events == old(events) + Flush(input, start, i)
    {
      if i != start {
        if start < i {
          Raise(Data(input[start..i]));
        } else {
          Raise(Wrapped);
        }
      }
    }

    // One method per case of the switch in `_process`; each returns the new window start.

    method OnData(input: seq<byte>, i: nat, start: nat)
      requires Valid() && state == InData && i < |input| && start <= i + 1
      modifies this`state, this`events
      ensures Valid() && Advances(input, i, start, old(Abs()), old(events), start, Abs(), events)
    {
      ghost var e, log := Abs(), events;
      if input[i] == IAC {
        FlushWindow(input, start, i);
        state := InIac;
        FlushAdvances(input, i, start, e, log, Abs(), events);
      } else if input[i] == CR && flags.nvtEol && !flags.receiveBinary {
        FlushWindow(input, start, i);
        state := InEol;
        FlushAdvances(input, i, start, e, log, Abs(), events);
      } else {
        PlainAdvances(input, i, start, e, log);
      }
    }

    method OnEol(input: seq<byte>, i: nat, ghost start: nat) returns (start': nat)
      requires Valid() && state == InEol && i < |input|
      modifies this`state, this`events
      ensures Valid() && Advances(input, i, start, old(Abs()), old(events), start', Abs(), events)
    {
      ghost var e, log := Abs(), events;
      if input[i] != LF {
        Raise(Data([CR]));
      }
      assert events == log + EolFirst(input[i]);
      start' := i;
      if input[i] == NUL {
        start' := start' + 1;
      }
      state := InData;
      assert log + [] == log;
      EolAdvances(input, i, start, e, log, start', Abs(), events);
    }

    method OnIac(input: seq<byte>, i: nat, start: nat) returns (start': nat)
      requires Valid() && state == InIac && i < |input|
      modifies this`state, this`events
      ensures Valid() && Advances(input, i, start, old(Abs()), old(events), start', Abs(), events)
    {
      ghost var e, log := Abs(), events;
      var b := input[i];
      start' := start;
      if b == SB {
        state := InSb;
      } else if VerbOf(b).Some? {
        state := InVerb(VerbOf(b).value);
      } else {
        Raise(if b == IAC then Data([b]) else Iac(b));
        start' := i + 1;
        state := InData;
      }
      assert log + [] == log;
      OtherAdvances(input, i, start, e, log, start', Abs(), events, Step(e, false, b));
    }

    method OnVerb(input: seq<byte>, i: nat, ghost start: nat) returns (start': nat)
      requires Valid() && state.InVerb? && i < |input|
      modifies q, this`flags, this`state, this`events
      ensures Valid() && Advances(input, i, start, old(Abs()), old(events), start', Abs(), events)
    {
      ghost var e, log := Abs(), events;
      NegotiateOption(input[i]);
      start' := i + 1;
      state := InData;
      OtherAdvances(input, i, start, e, log, start', Abs(), events, Step(e, false, input[i]));
    }

    method OnSb(input: seq<byte>, i: nat, ghost start: nat)
      requires Valid() && state == InSb && i < |input|
      modifies this`sbTelopt, this`bufferPos, this`state
      ensures Valid() && Advances(input, i, start, old(Abs()), events, start, Abs(), events)
    {
      ghost var e := Abs();
      sbTelopt := input[i];
      bufferPos := 0;
      state := InSbData;
      assert buffer[..0] == [] && events + [] == events;
      OtherAdvances(input, i, start, e, events, start, Abs(), events, Step(e, false, input[i]));
    }

    method OnSbData(input: seq<byte>, i: nat, start: nat) returns (start': nat)
      requires Valid() && state == InSbData && i < |input|
      modifies this`state, this`buffer, this`bufferSize, this`bufferPos, this`events, buffer
      ensures Valid() && (buffer == old(buffer) || fresh(buffer))
      ensures Advances(input, i, start, old(Abs()), old(events), start', Abs(), events)
    {
      ghost var e, log := Abs(), events;
      start' := start;
      if input[i] == IAC {
        state := InSbDataIac;
        assert log + [] == log;
      } else if sbTelopt == TELOPT_COMPRESS && input[i] == WILL {
        start' := i + 2;
        state := InData;
        assert log + [] == log;
      } else {
        var ok := StoreByte(input[i]);
        if !ok {
          start' := i + 1;
          state := InData;
        }
        assert log + [] == log;
      }
      OtherAdvances(input, i, start, e, log, start', Abs(), events, Step(e, false, input[i]));
    }

    /** IAC IAC inside a subnegotiation. */
    method OnEscapedIac(input: seq<byte>, i: nat, start: nat) returns (start': nat)
      requires Valid() && state == InSbDataIac && i < |input| && input[i] == IAC
      modifies this`state, this`buffer, this`bufferSize, this`bufferPos, this`events, buffer
      ensures Valid() && (buffer == old(buffer) || fresh(buffer))
      ensures Advances(input, i, start, old(Abs()), old(events), start', Abs(), events)
    {
      ghost var e, log := Abs(), events;
      start' := start;
      var ok := StoreByte(IAC);
      if !ok {
        start' := i + 1;
        state := InData;
      } else {
        state := InSbData;
      }
      assert log + [] == log;
      OtherAdvances(input, i, start, e, log, start', Abs(), events, Step(e, false, input[i]));
    }

    /** IAC SE. */
    method OnSubEnd(input: seq<byte>, i: nat, ghost start: nat) returns (start': nat, restart: bool)
      requires Valid() && state == InSbDataIac && i < |input| && input[i] == SE
      modifies this`state, this`events, buffer
      ensures Valid() && state == InData && start' == i + 1
      ensures Advances(input, i, start, old(Abs()), old(events), start', Abs(), events)
    {
      ghost var e, log := Abs(), events;
      start' := i + 1;
      state := InData;
      restart := Subnegotiate();
      OtherAdvances(input, i, start, e, log, start', Abs(), events, Step(e, false, input[i]));
    }

    /** Any other byte after IAC inside a subnegotiation, up to the call that reads it again. */
    method OnStray(input: seq<byte>, i: nat, ghost start: nat) returns (start': nat, restart: bool)
      requires Valid() && state == InSbDataIac && i < |input| && input[i] != SE && input[i] != IAC
      modifies this`state, this`events, buffer
      ensures Valid() && start' == i + 1
      ensures Abs() == old(Abs()).(mode := InIac, payload := [])
      ensures events == old(events) + ([Warning(StrayCommand)] + SubEvents(old(Abs()).sbTelopt, old(Abs()).payload))
      ensures restart == SubRestarts(old(Abs()).sbTelopt, old(Abs()).payload)
      ensures restart ==> Advances(input, i, start, old(Abs()), old(events), start', Abs(), events)
    {
      ghost var e, log := Abs(), events;
      Raise(Warning(StrayCommand));
      start' := i + 1;
      state := InIac;
      restart := Subnegotiate();
      Assoc(log, [Warning(StrayCommand)], SubEvents(e.sbTelopt, e.payload));
      if restart {
        RestartAdvances(input, i, start, e, log, Abs(), events);
      }
    }

    /** The IAC-in-subnegotiation case, with its one-byte call. */
    method OnSbDataIac(input: seq<byte>, i: nat, start: nat) returns (start': nat, restart: bool)
      requires Valid() && state == InSbDataIac && i < |input|
      modifies this, q, buffer
      ensures Valid() && (buffer == old(buffer) || fresh(buffer))
      ensures Advances(input, i, start, old(Abs()), old(events), start', Abs(), events)
      ensures restart ==> start' == i + 1
      decreases 1, 1, 1
    {
      ghost var e, log := Abs(), events;
      if input[i] == IAC {
        start' := OnEscapedIac(input, i, start);
        restart := false;
      } else if input[i] == SE {
        start', restart := OnSubEnd(input, i, start);
      } else {
        start', restart := OnStray(input, i, start);
        if !restart {
          ghost var e1, log1, out := Abs(), events, [Warning(StrayCommand)] + SubEvents(e.sbTelopt, e.payload);
          Process([input[i]]);
          StrayAdvances(input, i, start, e, log, out, e1, log1, Abs(), events);
        }
      }
    }

    /** The switch of `_process`. */
    method OnByte(input: seq<byte>, i: nat, start: nat) returns (start': nat, restart: bool)
      requires Valid() && i < |input| && (state == InData ==> start <= i + 1)
      modifies this, q, buffer
      ensures Valid() && (buffer == old(buffer) || fresh(buffer))
      ensures Advances(input, i, start, old(Abs()), old(events), start', Abs(), events)
      ensures restart ==> start' == i + 1
      decreases 1, if state == InSbDataIac then 1 else 0, 2
    {
      start', restart := start, false;
      match state {
        case InData => OnData(input, i, start);
        case InEol => start' := OnEol(input, i, start);
        case InIac => start' := OnIac(input, i, start);
        case InVerb(_) => start' := OnVerb(input, i, start);
        case InSb => OnSb(input, i, start);
        case InSbData => start' := OnSbData(input, i, start);
        case InSbDataIac => start', restart := OnSbDataIac(input, i, start);
      }
    }

    /** `_process`: any input, from any state, in one window. The recursion ends because the
        call on the rest of the input is shorter, and the call on one byte, when it is not
        shorter, starts outside IAC-in-subnegotiation. */
    method Process(input: seq<byte>)
      requires Valid()
      modifies this, q, buffer
      ensures Valid() && (buffer == old(buffer) || fresh(buffer))
      ensures Abs() == Chunk(old(Abs()), input).engine
      ensures Atoms(events) == Atoms(old(events)) + Chunk(old(Abs()), input).out
      decreases |input|, if state == InSbDataIac then 1 else 0, 3
    {
      ghost var e0, log0 := Abs(), events;
      var i: nat, start: nat := 0, 0;
      TracksStart(e0, log0, input);
      while i != |input|
        invariant i <= |input| && Valid() && (buffer == old(buffer) || fresh(buffer))
        invariant i == 0 ==> state == old(state)
        invariant Tracks(e0, log0, input, i, start, Abs(), events)
        decreases |input| - i
      {
        ghost var e, log, i0, start0 := Abs(), events, i, start;
        var restart;
        start, restart := OnByte(input, i, start);
        i := i + 1;
        TracksStep(e0, log0, input, i0, start0, e, log, i, start, Abs(), events);
        if restart {
          RestartProcess(input, start, e0, log0);
          return;
        }
      }
      FinishProcess(input, start, e0, log0);
    }

    /** After a successful ENVIRON payload the source hands the rest of its input to
        telnet_recv. */
    method RestartProcess(input: seq<byte>, start: nat, ghost e0: Engine, ghost log0: seq<Event>)
      requires Valid() && 0 < start <= |input| && Tracks(e0, log0, input, start, start, Abs(), events)
      modifies this, q, buffer
      ensures Valid() && (buffer == old(buffer) || fresh(buffer))
      ensures Abs() == Chunk(e0, input).engine
      ensures Atoms(events) == Atoms(log0) + Chunk(e0, input).out
      decreases |input|, 0, 2
    {
      ghost var e, log := Abs(), events;
      Recv(input[start..]);
      TracksRestart(e0, log0, input, start, e, log, Abs(), events);
    }

    /** Passes through what is left of the window. */
    method FinishProcess(input: seq<byte>, start: nat, ghost e0: Engine, ghost log0: seq<Event>)
      requires Valid() && Tracks(e0, log0, input, |input|, start, Abs(), events)
      modifies this`events
      ensures Valid() && Abs() == Chunk(e0, input).engine
      ensures Atoms(events) == Atoms(log0) + Chunk(e0, input).out
    {
      ghost var e, log := Abs(), events;
      if state == InData && |input| != start {
        FlushWindow(input, start, |input|);
      }
      assert log + [] == log;
      TracksEnd(e0, log0, input, start, e, log, events);
    }

    /** `telnet_recv` without compression. */
    method Recv(input: seq<byte>)
      requires Valid()
      modifies this, q, buffer
      ensures Valid() && (buffer == old(buffer) || fresh(buffer)) && (old(Traced()) ==> Traced())
      ensures Abs() == Chunk(old(Abs()), input).engine && inputs == old(inputs) + Receipts(input)
      ensures Atoms(events) == Atoms(old(events)) + Chunk(old(Abs()), input).out
      decreases |input|, if state == InSbDataIac then 1 else 0, 4
    {
      Process(input);
      inputs := old(inputs) + Receipts(input);
      RunIsAfterAll(old(Abs()), false, input);
      if old(Traced()) { TracesMore(old(Abs()), old(inputs), Receipts(input)); }
    }

    /** A whole input stream, however the network cut it. */
    method RecvAll(chunks: seq<seq<byte>>)
      requires Valid()
      modifies this, q, buffer
      ensures Valid() && (buffer == old(buffer) || fresh(buffer)) && (old(Traced()) ==> Traced())
      ensures Abs() == Chunks(old(Abs()), chunks).engine
      ensures Atoms(events) == Atoms(old(events)) + Chunks(old(Abs()), chunks).out
    {
      ghost var e0, log0 := Abs(), events;
      PlusNothing(Atoms(log0));
      var k: nat := 0;
      while k != |chunks|
        invariant k <= |chunks| && Valid() && (buffer == old(buffer) || fresh(buffer)) && (old(Traced()) ==> Traced())
        invariant Abs() == Chunks(e0, chunks[..k]).engine
        invariant Atoms(events) == Atoms(log0) + Chunks(e0, chunks[..k]).out
        decreases |chunks| - k
      {
        ghost var e := Abs();
        Recv(chunks[k]);
        ChunksMore(e0, chunks, k);
        Assoc(Atoms(log0), Chunks(e0, chunks[..k]).out, Chunk(e, chunks[k]).out);
        k := k + 1;
      }
      TakeAll(chunks, k);
    }
  }
}
