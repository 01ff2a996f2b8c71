/** What the application is told, and the peer answered, when a verb is received outside PROXY
    mode: stated of the log, in the numbers of the support table and the option bytes. */
module Notices {
  import opened Sequences
  import opened Bytes
  import opened Events
  import opened QMethod
  import opened Decoder
  import opened Invariants
  import opened Delivery
  import opened Sessions

  // ----- One verb -----

  /** The state of the side a received verb is about. */
  function SideHeard(e: Engine, v: Verb, o: byte): byte {
    if v.VWill? || v.VWont? then QHim(e.q[o]) else QUs(e.q[o])
  }

  function Noted(notice: Option<Verb>, o: byte): seq<Event> {
    if notice.Some? then [Negotiation(notice.value, o)] else []
  }

  function Warned(warned: bool): seq<Event> {
    if warned then [Warning(AnsweredBackwards)] else []
  }

  lemma NextIs(e: Engine, v: Verb, o: byte)
    ensures var (t, r) := React(e.q, e.telopts, Hear(v, o));
            r.next == (if v.VWill? || v.VWont? then QHim(t[o]) else QUs(t[o]))
            && r == SideReaction(e.q[o], e.telopts, Hear(v, o))
  {
  }

  /** The bytes sent, if any, are one SEND event, and it comes first. */
  lemma SendFirst(r: Reaction, o: byte)
    ensures var out := ReactionEvents(r, o);
            out == (if Wire(out) == [] then [] else [Send(Wire(out))]) + Noted(r.notice, o) + Warned(r.warned)
  {
    ReactionWire(r, o);
    if r.reply.Some? { OneMsg(Msg(r.reply.value, o)); }
  }

  /** A verb received between messages, under every chunking, makes the log grow by at most one
      SEND, then at most one NEGOTIATION event, for that option and the one Notice names, then a
      warning exactly where an enabling verb is heard in WANTNO or WANTNO_OP. */
  lemma HeardReport(e: Engine, v: Verb, o: byte, cs: seq<seq<byte>>)
    requires e.mode == InData && !e.flags.proxy && Flat(cs) == [IAC, Code(v), o]
    ensures var after, out := Chunks(e, cs).engine, Chunks(e, cs).out;
            var before := SideHeard(e, v, o);
            out == (if Wire(out) == [] then [] else [Send(Wire(out))])
                   + Noted(Notice(v, before, SideHeard(after, v, o)), o) + Warned(Backwards(v, before))
  {
    var r := React(e.q, e.telopts, Hear(v, o)).1;
    var e' := HeardOnWire(e, v, o);
    Delivered(e, cs, e', ReactionEvents(r, o));
    NextIs(e, v, o);
    NoticeIs(e.q[o], e.telopts, v, o);
    SendFirst(r, o);
  }

  /** libtelnet.h says that the event names the verb received. It does, exactly unless an
      enabling verb is heard in WANTNO, a WONT in WANTNO_OP, or a DONT in WANTNO or WANTNO_OP. */
  lemma EventNamesVerb(e: Engine, v: Verb, o: byte, cs: seq<seq<byte>>, w: Verb)
    requires e.mode == InData && !e.flags.proxy && Flat(cs) == [IAC, Code(v), o]
    requires Negotiation(w, o) in Chunks(e, cs).out
    ensures var before := SideHeard(e, v, o);
            w == v <==> !((before == 2 && v != VWont) || (before == 4 && (v == VWont || v == VDont)))
  {
    var r := React(e.q, e.telopts, Hear(v, o)).1;
    var e' := HeardOnWire(e, v, o);
    Delivered(e, cs, e', ReactionEvents(r, o));
    NextIs(e, v, o);
    OneNotice(r, o, w);
    NoticeNamesVerb(e.q[o], e.telopts, v, o);
  }

  lemma OneNotice(r: Reaction, o: byte, w: Verb)
    requires Negotiation(w, o) in ReactionEvents(r, o)
    ensures r.notice == Some(w)
  {
  }

  /** telnet_negotiate with a verb outside PROXY mode raises at most one SEND and nothing else. */
  lemma RequestReport(e: Engine, v: Verb, o: byte)
    requires !e.flags.proxy
    ensures var out := RequestOption(e, v, o).1; out == if Wire(out) == [] then [] else [Send(Wire(out))]
  {
    var r := React(e.q, e.telopts, Ask(v, o)).1;
    AskIsSilent(e.q[o], e.telopts, v, o);
    SendFirst(r, o);
    PlusNothing(if Wire(ReactionEvents(r, o)) == [] then [] else [Send(Wire(ReactionEvents(r, o)))]);
  }

  // ----- The answer from the support table -----

  lemma Halve(n: nat, a: nat, b: nat)
    requires n == 2 * a + b && b <= 1
    ensures n / 2 == a && n % 2 == b
  {
  }

  lemma Bits(n: nat, k: nat, l: nat, r: nat)
    requires n == 4 * k + 2 * l + r && l <= 1 && r <= 1
    ensures n / 2 % 2 == l && n % 2 == r
  {
    Halve(n, 2 * k + l, r);
    Halve(2 * k + l, k, l);
  }

  /** What an entry 4k + 2l + r makes of DO heard with our side off. */
  lemma EntryForUs(e: Engine, o: byte, k: nat, l: nat, r: nat)
    requires e.telopts.Table? && e.telopts.entries[o] as int == 4 * k + 2 * l + r && l <= 1 && r <= 1
    requires QUs(e.q[o]) == 0
    ensures SideReaction(e.q[o], e.telopts, Hear(VDo, o))
         == if l == 1 then Reaction(1, Some(VWill), Some(VDo), false) else Reaction(0, Some(VWont), None, false)
  {
    Bits(e.telopts.entries[o], k, l, r);
  }

  /** And of WILL heard with the peer's side off. */
  lemma EntryForHim(e: Engine, o: byte, k: nat, l: nat, r: nat)
    requires e.telopts.Table? && e.telopts.entries[o] as int == 4 * k + 2 * l + r && l <= 1 && r <= 1
    requires QHim(e.q[o]) == 0
    ensures SideReaction(e.q[o], e.telopts, Hear(VWill, o))
         == if r == 1 then Reaction(1, Some(VDo), Some(VWill), false) else Reaction(0, Some(VDont), None, false)
  {
    Bits(e.telopts.entries[o], k, l, r);
  }

  lemma Agrees(verb: Verb, notice: Verb, o: byte)
    ensures ReactionEvents(Reaction(1, Some(verb), Some(notice), false), o)
         == [Send(NegotiationBytes(verb, o)), Negotiation(notice, o)]
    ensures ReactionEvents(Reaction(0, Some(verb), None, false), o) == [Send(NegotiationBytes(verb, o))]
  {
  }

  /** IAC DO `o`, under every chunking, with our side off: an entry 4k + 2l + r of the support
      table is answered by WILL and reported exactly when l is 1, and by WONT when l is 0. */
  lemma DoAnswered(e: Engine, o: byte, k: nat, l: nat, r: nat, cs: seq<seq<byte>>)
    requires e.mode == InData && !e.flags.proxy && QUs(e.q[o]) == 0
    requires e.telopts.Table? && e.telopts.entries[o] as int == 4 * k + 2 * l + r && l <= 1 && r <= 1
    requires Flat(cs) == [255, 253, o]
    ensures Chunks(e, cs).out == [Send([255, 251, o]), Negotiation(VDo, o)] <==> l == 1
    ensures l == 0 ==> Chunks(e, cs).out == [Send([255, 252, o])]
    ensures QUs(Chunks(e, cs).engine.q[o]) == l
  {
    var e' := HeardOnWire(e, VDo, o);
    Delivered(e, cs, e', ReactionEvents(React(e.q, e.telopts, Hear(VDo, o)).1, o));
    NextIs(e, VDo, o);
    EntryForUs(e, o, k, l, r);
    Agrees(VWill, VDo, o);
    Agrees(VWont, VDo, o);
  }

  /** IAC WILL `o`, with the peer's side off: answered by DO and reported exactly when r is 1. */
  lemma WillAnswered(e: Engine, o: byte, k: nat, l: nat, r: nat, cs: seq<seq<byte>>)
    requires e.mode == InData && !e.flags.proxy && QHim(e.q[o]) == 0
    requires e.telopts.Table? && e.telopts.entries[o] as int == 4 * k + 2 * l + r && l <= 1 && r <= 1
    requires Flat(cs) == [255, 251, o]
    ensures Chunks(e, cs).out == [Send([255, 253, o]), Negotiation(VWill, o)] <==> r == 1
    ensures r == 0 ==> Chunks(e, cs).out == [Send([255, 254, o])]
    ensures QHim(Chunks(e, cs).engine.q[o]) == r
  {
    var e' := HeardOnWire(e, VWill, o);
    Delivered(e, cs, e', ReactionEvents(React(e.q, e.telopts, Hear(VWill, o)).1, o));
    NextIs(e, VWill, o);
    EntryForHim(e, o, k, l, r);
    Agrees(VDo, VWill, o);
    Agrees(VDont, VWill, o);
  }

  /** Without a table DO and WILL are refused. */
  lemma NoTableRefusesDo(e: Engine, o: byte, cs: seq<seq<byte>>)
    requires e.mode == InData && !e.flags.proxy && e.telopts == NoTable && QUs(e.q[o]) == 0
    requires Flat(cs) == [255, 253, o]
    ensures Chunks(e, cs).out == [Send([255, 252, o])]
  {
    var e' := HeardOnWire(e, VDo, o);
    Delivered(e, cs, e', ReactionEvents(React(e.q, e.telopts, Hear(VDo, o)).1, o));
    NextIs(e, VDo, o);
    Agrees(VWont, VDo, o);
  }

  lemma NoTableRefusesWill(e: Engine, o: byte, cs: seq<seq<byte>>)
    requires e.mode == InData && !e.flags.proxy && e.telopts == NoTable && QHim(e.q[o]) == 0
    requires Flat(cs) == [255, 251, o]
    ensures Chunks(e, cs).out == [Send([255, 254, o])]
  {
    var e' := HeardOnWire(e, VWill, o);
    Delivered(e, cs, e', ReactionEvents(React(e.q, e.telopts, Hear(VWill, o)).1, o));
    NextIs(e, VWill, o);
    Agrees(VDont, VWill, o);
  }

  // ----- Over every input -----

  /** Whenever a side of option `o` was switched on or off between `q` and `q'`, it is in the log. */
  predicate SwitchesTold(q: byte, q': byte, out: seq<Event>, o: byte) {
    && (QHim(q) != 1 && QHim(q') == 1 ==> Negotiation(VWill, o) in out)
    && (QHim(q) == 1 && QHim(q') != 1 ==> Negotiation(VWont, o) in out)
    && (QUs(q) != 1 && QUs(q') == 1 ==> Negotiation(VDo, o) in out)
    && (QUs(q) == 1 && QUs(q') != 1 ==> Negotiation(VDont, o) in out)
  }

  lemma NotedIn(r: Reaction, o: byte)
    requires r.notice.Some?
    ensures Negotiation(r.notice.value, o) in ReactionEvents(r, o)
  {
  }

  /** The side a verb is not about stays as it is. */
  lemma OtherSide(e: Engine, v: Verb, o: byte)
    ensures var t := React(e.q, e.telopts, Hear(v, o)).0;
            if v.VWill? || v.VWont? then QUs(t[o]) == QUs(e.q[o]) else QHim(t[o]) == QHim(e.q[o])
  {
  }

  lemma CellTold(e: Engine, v: Verb, o: byte)
    ensures var (t, r) := React(e.q, e.telopts, Hear(v, o)); SwitchesTold(e.q[o], t[o], ReactionEvents(r, o), o)
  {
    var r := React(e.q, e.telopts, Hear(v, o)).1;
    NextIs(e, v, o);
    OtherSide(e, v, o);
    EveryChangeIsTold(e.q[o], e.telopts, v, o);
    if r.notice.Some? { NotedIn(r, o); }
  }

  lemma VerbTold(e: Engine, v: Verb, b: byte, o: byte)
    requires e.mode == InVerb(v) && !e.flags.proxy
    ensures SwitchesTold(e.q[o], Step(e, false, b).engine.q[o], Step(e, false, b).out, o)
  {
    HeardStep(e, v, b);
    if b == o { CellTold(e, v, o); }
  }

  lemma StepTold(e: Engine, skip: bool, b: byte, o: byte)
    requires !e.flags.proxy
    ensures SwitchesTold(e.q[o], Step(e, skip, b).engine.q[o], Step(e, skip, b).out, o)
  {
    if e.mode.InVerb? { VerbTold(e, e.mode.verb, b, o); } else { QuietStep(e, b, skip); }
  }

  lemma ToldOn(q: byte, q1: byte, q2: byte, out1: seq<Event>, out2: seq<Event>, o: byte)
    requires SwitchesTold(q, q1, out1, o) && SwitchesTold(q1, q2, out2, o)
    ensures SwitchesTold(q, q2, out1 + out2, o)
  {
  }

  lemma {:induction false} RunTold(e: Engine, xs: seq<byte>, o: byte)
    requires !e.flags.proxy
    ensures SwitchesTold(e.q[o], Run(e, false, xs).engine.q[o], Run(e, false, xs).out, o)
    ensures !Run(e, false, xs).engine.flags.proxy
  {
    if xs != [] {
      var init, b := xs[..|xs| - 1], xs[|xs| - 1];
      var r := Run(e, false, init);
      RunTold(e, init, o);
      StepTold(r.engine, r.skip, b, o);
      ConfigurationStep(r.engine, Receive(b, r.skip));
      var s := Step(r.engine, r.skip, b);
      ToldOn(e.q[o], r.engine.q[o], s.engine.q[o], r.out, s.out, o);
    }
  }

  /** Outside PROXY mode, for every input under every chunking and every option: when received
      bytes switch the peer's side on the log holds its WILL, when they switch it off its WONT,
      and for our side DO and DONT. */
  lemma AllSwitchesTold(e: Engine, cs: seq<seq<byte>>, o: byte)
    requires !e.flags.proxy
    ensures SwitchesTold(e.q[o], Chunks(e, cs).engine.q[o], Chunks(e, cs).out, o)
  {
    RunTold(e, Flat(cs), o);
    StreamEvents(e, cs, Negotiation(VWill, o));
    StreamEvents(e, cs, Negotiation(VWont, o));
    StreamEvents(e, cs, Negotiation(VDo, o));
    StreamEvents(e, cs, Negotiation(VDont, o));
  }
}
