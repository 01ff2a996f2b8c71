/** Two engines outside PROXY mode, joined by two byte streams that may be cut anywhere, even
    inside a message, with requests made at any moment. Every run is a run of Network, so what
    holds there of whole messages holds here of bytes. */
module ByteNetwork {
  import opened Sequences
  import opened Bytes
  import opened Events
  import opened QMethod
  import opened Decoder
  import opened Invariants
  import opened Network
  import opened Traffic

  /** `ab` carries bytes from A to B, `ba` from B to A. */
  datatype Link = Link(a: Engine, b: Engine, ab: seq<byte>, ba: seq<byte>)

  /** One side's application asks for an option, or one side reads the next `n` bytes. */
  datatype SideAction = Demand(verb: Verb, telopt: byte) | Read(n: nat)

  datatype LinkAction = AtA(act: SideAction) | AtB(act: SideAction)

  /** Where a run has led, how many requests were made, bytes sent and non-empty reads, and
      for which options each side heard a WONT in Q_WANTNO_OP. */
  datatype Course = Course(link: Link, requests: nat, sent: nat, calls: nat, unsentA: set<byte>, unsentB: set<byte>)

  /** What telnet_init was given at the two ends. */
  datatype Setup = Setup(ta: Telopts, eolA: bool, tb: Telopts, eolB: bool)

  /** The option whose WONT this byte completes in Q_WANTNO_OP. */
  function UnsentAt(e: Engine, b: byte): set<byte> {
    if e.mode.InVerb? && UnsentDo(e.q[b], Hear(e.mode.verb, b)) then {b} else {}
  }

  function UnsentIn(e: Engine, xs: seq<byte>): set<byte> {
    if xs == [] then {}
    else UnsentIn(e, xs[..|xs| - 1]) + UnsentAt(Run(e, false, xs[..|xs| - 1]).engine, xs[|xs| - 1])
  }

  /** A has become `a` and raised `out`, leaving `rest` to read. */
  function Moves(c: Course, a: Engine, out: seq<Event>, rest: seq<byte>, unsent: set<byte>): Course {
    c.(link := Link(a, c.link.b, c.link.ab + Wire(out), rest), sent := c.sent + |Wire(out)|,
       unsentA := c.unsentA + unsent)
  }

  /** An action of A. Reading nothing, or more than there is, is no action. */
  function ActAtA(c: Course, act: SideAction): Course {
    var l := c.link;
    match act
    case Demand(v, o) =>
      var (a, out) := RequestOption(l.a, v, o);
      Moves(c, a, out, l.ba, {}).(requests := c.requests + 1)
    case Read(n) =>
      if n == 0 || n > |l.ba| then c else
        var r := Chunk(l.a, l.ba[..n]);
        Moves(c, r.engine, r.out, l.ba[n..], UnsentIn(l.a, l.ba[..n])).(calls := c.calls + 1)
  }

  function Flip(c: Course): Course {
    Course(Link(c.link.b, c.link.a, c.link.ba, c.link.ab), c.requests, c.sent, c.calls, c.unsentB, c.unsentA)
  }

  function FlipSetup(s: Setup): Setup { Setup(s.tb, s.eolB, s.ta, s.eolA) }

  function LinkNext(c: Course, act: LinkAction): Course {
    match act
    case AtA(x) => ActAtA(c, x)
    case AtB(x) => Flip(ActAtA(Flip(c), x))
  }

  function Begin(s: Setup): Course {
    Course(Link(Init(s.ta, false, s.eolA), Init(s.tb, false, s.eolB), [], []), 0, 0, 0, {}, {})
  }

  function LinkExec(s: Setup, acts: seq<LinkAction>): Course {
    if acts == [] then Begin(s) else LinkNext(LinkExec(s, acts[..|acts| - 1]), acts[|acts| - 1])
  }

  // ----- Messages, cut anywhere -----

  /** With the reader in mode `m` and `c` still to come, the messages `ms` are in flight. */
  predicate Cuts(m: Mode, c: seq<byte>, ms: seq<Msg>) {
    match m
    case InData => c == MsgBytes(ms)
    case InIac => [IAC] + c == MsgBytes(ms)
    case InVerb(v) => [IAC, Code(v)] + c == MsgBytes(ms)
    case _ => false
  }

  lemma {:induction false} MsgBytesLength(ms: seq<Msg>)
    ensures |MsgBytes(ms)| == 3 * |ms|
  {
    if ms != [] { MsgBytesLength(ms[..|ms| - 1]); }
  }

  lemma {:induction false} MsgBytesConcat(a: seq<Msg>, b: seq<Msg>)
    ensures MsgBytes(a + b) == MsgBytes(a) + MsgBytes(b)
  {
    if b == [] {
      PlusNothing(a);
      PlusNothing(MsgBytes(a));
    } else {
      var init, m := b[..|b| - 1], b[|b| - 1];
      Unsnoc(b);
      Assoc(a, init, [m]);
      Snoc(a + init, m);
      MsgBytesConcat(a, init);
      Assoc(MsgBytes(a), MsgBytes(init), NegotiationBytes(m.verb, m.telopt));
    }
  }

  lemma MsgBytesHead(ms: seq<Msg>)
    requires ms != []
    ensures MsgBytes(ms) == [IAC, Code(ms[0].verb), ms[0].telopt] + MsgBytes(ms[1..])
  {
    Uncons(ms);
    MsgBytesConcat([ms[0]], ms[1..]);
    OneMsg(ms[0]);
  }

  lemma NotEmpty(ms: seq<Msg>)
    requires MsgBytes(ms) != []
    ensures ms != []
  {
  }

  lemma HeadOf(seen: seq<byte>, b: byte, rest: seq<byte>, first: seq<byte>, tail: seq<byte>)
    requires seen + ([b] + rest) == first + tail && |seen| < |first|
    ensures b == first[|seen|] && seen == first[..|seen|]
  {
    assert (seen + ([b] + rest))[|seen|] == b;
    assert (first + tail)[|seen|] == first[|seen|];
    assert (seen + ([b] + rest))[..|seen|] == seen;
    assert (first + tail)[..|seen|] == first[..|seen|];
  }

  lemma LastOf(seen: seq<byte>, b: byte, rest: seq<byte>, first: seq<byte>, tail: seq<byte>)
    requires seen + ([b] + rest) == first + tail && |seen| + 1 == |first|
    ensures rest == tail
  {
    assert (seen + ([b] + rest))[|first|..] == rest;
    assert (first + tail)[|first|..] == tail;
  }

  lemma CodeInjective(v: Verb, w: Verb)
    ensures Code(v) == Code(w) ==> v == w
  {
  }

  lemma CutsInData(b: byte, rest: seq<byte>, ms: seq<Msg>)
    requires ms != [] && Cuts(InData, [b] + rest, ms)
    ensures b == IAC && Cuts(InIac, rest, ms)
  {
    MsgBytesHead(ms);
    PlusNothing([b] + rest);
    HeadOf([], b, rest, [IAC, Code(ms[0].verb), ms[0].telopt], MsgBytes(ms[1..]));
  }

  lemma CutsInIac(b: byte, rest: seq<byte>, ms: seq<Msg>)
    requires ms != [] && Cuts(InIac, [b] + rest, ms)
    ensures b == Code(ms[0].verb) && Cuts(InVerb(ms[0].verb), rest, ms)
  {
    MsgBytesHead(ms);
    HeadOf([IAC], b, rest, [IAC, Code(ms[0].verb), ms[0].telopt], MsgBytes(ms[1..]));
    assert [IAC] + ([b] + rest) == [IAC, b] + rest;
  }

  lemma CutsInVerb(v: Verb, b: byte, rest: seq<byte>, ms: seq<Msg>)
    requires ms != [] && Cuts(InVerb(v), [b] + rest, ms)
    ensures ms[0] == Msg(v, b) && Cuts(InData, rest, ms[1..])
  {
    var first := [IAC, Code(ms[0].verb), ms[0].telopt];
    MsgBytesHead(ms);
    HeadOf([IAC, Code(v)], b, rest, first, MsgBytes(ms[1..]));
    LastOf([IAC, Code(v)], b, rest, first, MsgBytes(ms[1..]));
    assert [IAC, Code(v)][1] == first[..2][1];
    CodeInjective(v, ms[0].verb);
  }

  /** The byte read is the one the next message needs there. */
  lemma CutsHead(m: Mode, b: byte, rest: seq<byte>, ms: seq<Msg>)
    requires Cuts(m, [b] + rest, ms)
    ensures ms != []
    ensures m == InData ==> b == IAC && Cuts(InIac, rest, ms)
    ensures m == InIac ==> b == Code(ms[0].verb) && Cuts(InVerb(ms[0].verb), rest, ms)
    ensures m.InVerb? ==> ms[0] == Msg(m.verb, b) && Cuts(InData, rest, ms[1..])
  {
    NotEmpty(ms);
    match m
    case InData => CutsInData(b, rest, ms);
    case InIac => CutsInIac(b, rest, ms);
    case InVerb(v) => CutsInVerb(v, b, rest, ms);
  }

  // ----- A run of the link is a run of the network -----

  /** The reader at `p`, with `c` still to come, has `ms` in flight. */
  predicate Reads(e: Engine, c: seq<byte>, p: Endpoint, ms: seq<Msg>) {
    !e.flags.proxy && p == Endpoint(e.q, e.telopts) && Cuts(e.mode, c, ms)
  }

  predicate Matches(l: Link, n: Net) {
    Reads(l.a, l.ba, n.a, n.ba) && Reads(l.b, l.ab, n.b, n.ab)
  }

  /** For option `o` the run `nets` of Network is the course `c`. */
  ghost predicate Projects(s: Setup, c: Course, nets: seq<NetAction>, o: byte) {
    && Matches(c.link, NetExec(s.ta, s.tb, nets))
    && c.requests == Requests(nets)
    && c.sent == 3 * SentIn(s.ta, s.tb, nets)
    && (o in c.unsentA <==> SkippedAtA(s.ta, s.tb, nets, o))
    && (o in c.unsentB <==> SkippedAtB(s.ta, s.tb, nets, o))
  }

  lemma CutsMore(m: Mode, c: seq<byte>, ms: seq<Msg>, sent: seq<Msg>)
    requires Cuts(m, c, ms)
    ensures Cuts(m, c + MsgBytes(sent), ms + sent)
  {
    MsgBytesConcat(ms, sent);
    match m
    case InIac => Assoc([IAC], c, MsgBytes(sent));
    case InVerb(v) => Assoc([IAC, Code(v)], c, MsgBytes(sent));
    case _ =>
  }

  /** A reacts to a stimulus: what goes on its wire are the messages of Network. */
  lemma Reaction(e: Engine, x: Stimulus, out: seq<Event>)
    requires out == ReactionEvents(React(e.q, e.telopts, x).1, x.telopt)
    ensures var sent := Perform(Endpoint(e.q, e.telopts), x).1;
            Wire(out) == MsgBytes(sent) && |Wire(out)| == 3 * |sent|
  {
    ReactionWire(React(e.q, e.telopts, x).1, x.telopt);
    MsgBytesLength(Perform(Endpoint(e.q, e.telopts), x).1);
  }

  lemma AskedStep(e: Engine, v: Verb, o: byte)
    requires !e.flags.proxy
    ensures var (a, out) := RequestOption(e, v, o);
            && a.mode == e.mode && !a.flags.proxy && a.telopts == e.telopts
            && a.q == React(e.q, e.telopts, Ask(v, o)).0
            && out == ReactionEvents(React(e.q, e.telopts, Ask(v, o)).1, o)
  {
    ReactedTable(e, Ask(v, o));
  }

  lemma DemandProjects(s: Setup, c: Course, nets: seq<NetAction>, v: Verb, t: byte, o: byte)
    requires Projects(s, c, nets, o)
    ensures Projects(s, ActAtA(c, Demand(v, t)), nets + [NetAction.AskA(v, t)], o)
  {
    var e, n, act := c.link.a, NetExec(s.ta, s.tb, nets), NetAction.AskA(v, t);
    var sent := Perform(n.a, Ask(v, t)).1;
    AskedStep(e, v, t);
    Reaction(e, Ask(v, t), RequestOption(e, v, t).1);
    CutsMore(c.link.b.mode, c.link.ab, n.ab, sent);
    Snoc(nets, act);
    SkippedSnoc(s.ta, s.tb, nets, act, o);
  }

  lemma QuietMove(s: Setup, c: Course, nets: seq<NetAction>, m: Mode, rest: seq<byte>, o: byte)
    requires Projects(s, c, nets, o) && Cuts(m, rest, NetExec(s.ta, s.tb, nets).ba)
    ensures Projects(s, Moves(c, c.link.a.(mode := m), [], rest, {}), nets, o)
  {
    PlusNothing(c.link.ab);
  }

  /** A reads a byte that completes no message. */
  lemma QuietByte(s: Setup, c: Course, nets: seq<NetAction>, b: byte, rest: seq<byte>, o: byte)
    requires Projects(s, c, nets, o) && c.link.ba == [b] + rest && !c.link.a.mode.InVerb?
    ensures var t := Step(c.link.a, false, b);
            !t.skip && Projects(s, Moves(c, t.engine, t.out, rest, UnsentAt(c.link.a, b)), nets, o)
  {
    var e, ms := c.link.a, NetExec(s.ta, s.tb, nets).ba;
    CutsHead(e.mode, b, rest, ms);
    var m := if e.mode == InData then InIac else InVerb(ms[0].verb);
    QuietStepTo(e, b, m);
    QuietMove(s, c, nets, m, rest, o);
  }

  lemma QuietStepTo(e: Engine, b: byte, m: Mode)
    requires (e.mode == InData && b == IAC && m == InIac) || (e.mode == InIac && m.InVerb? && b == Code(m.verb))
    ensures Step(e, false, b) == Stepped(e.(mode := m), false, [])
  {
  }

  /** A reads the last byte of a message. */
  lemma LastByte(s: Setup, c: Course, nets: seq<NetAction>, b: byte, rest: seq<byte>, o: byte)
    requires Projects(s, c, nets, o) && c.link.ba == [b] + rest && c.link.a.mode.InVerb?
    ensures var t := Step(c.link.a, false, b);
            !t.skip && Projects(s, Moves(c, t.engine, t.out, rest, UnsentAt(c.link.a, b)), nets + [DeliverToA], o)
  {
    var e, n := c.link.a, NetExec(s.ta, s.tb, nets);
    var x := Hear(e.mode.verb, b);
    CutsHead(e.mode, b, rest, n.ba);
    HeardStep(e, e.mode.verb, b);
    Reaction(e, x, Step(e, false, b).out);
    CutsMore(c.link.b.mode, c.link.ab, n.ab, Perform(n.a, x).1);
    Snoc(nets, DeliverToA);
    SkippedSnoc(s.ta, s.tb, nets, DeliverToA, o);
  }

  lemma ByteProjects(s: Setup, c: Course, nets: seq<NetAction>, b: byte, rest: seq<byte>, o: byte)
    returns (nets': seq<NetAction>)
    requires Projects(s, c, nets, o) && c.link.ba == [b] + rest
    ensures var t := Step(c.link.a, false, b);
            !t.skip && Projects(s, Moves(c, t.engine, t.out, rest, UnsentAt(c.link.a, b)), nets', o)
  {
    if c.link.a.mode.InVerb? {
      LastByte(s, c, nets, b, rest, o);
      nets' := nets + [DeliverToA];
    } else {
      QuietByte(s, c, nets, b, rest, o);
      nets' := nets;
    }
  }

  lemma MovesTwice(c: Course, a1: Engine, out1: seq<Event>, rest1: seq<byte>, u1: set<byte>,
                   a2: Engine, out2: seq<Event>, rest2: seq<byte>, u2: set<byte>)
    ensures Moves(Moves(c, a1, out1, rest1, u1), a2, out2, rest2, u2) == Moves(c, a2, out1 + out2, rest2, u1 + u2)
  {
    WireConcat(out1, out2);
    Assoc(c.link.ab, Wire(out1), Wire(out2));
    assert c.unsentA + u1 + u2 == c.unsentA + (u1 + u2);
  }

  lemma MovesNowhere(c: Course)
    ensures Moves(c, c.link.a, [], c.link.ba, {}) == c
  {
    PlusNothing(c.link.ab);
    assert c.unsentA + {} == c.unsentA;
  }

  lemma {:induction false} BytesProject(s: Setup, c: Course, nets: seq<NetAction>, xs: seq<byte>, rest: seq<byte>,
                                        o: byte)
    returns (nets': seq<NetAction>)
    requires Projects(s, c, nets, o) && c.link.ba == xs + rest
    ensures var r := Run(c.link.a, false, xs);
            !r.skip && Projects(s, Moves(c, r.engine, r.out, rest, UnsentIn(c.link.a, xs)), nets', o)
    decreases |xs|
  {
    if xs == [] {
      PlusNothing(rest);
      MovesNowhere(c);
      nets' := nets;
    } else {
      var init, b := xs[..|xs| - 1], xs[|xs| - 1];
      Unsnoc(xs);
      Assoc(init, [b], rest);
      var r := Run(c.link.a, false, init);
      var u, next := UnsentIn(c.link.a, init), [b] + rest;
      nets' := BytesProject(s, c, nets, init, next, o);
      nets' := ByteProjects(s, Moves(c, r.engine, r.out, next, u), nets', b, rest, o);
      var t := Step(r.engine, false, b);
      MovesTwice(c, r.engine, r.out, next, u, t.engine, t.out, rest, UnsentAt(r.engine, b));
    }
  }

  lemma ReadProjects(s: Setup, c: Course, nets: seq<NetAction>, n: nat, o: byte) returns (nets': seq<NetAction>)
    requires Projects(s, c, nets, o) && 0 < n <= |c.link.ba|
    ensures Projects(s, ActAtA(c, Read(n)), nets', o)
  {
    var xs, rest := c.link.ba[..n], c.link.ba[n..];
    assert c.link.ba == xs + rest;
    nets' := BytesProject(s, c, nets, xs, rest, o);
    PlusNothing(Run(c.link.a, false, xs).out);
  }

  lemma ActProjects(s: Setup, c: Course, nets: seq<NetAction>, act: SideAction, o: byte)
    returns (nets': seq<NetAction>)
    requires Projects(s, c, nets, o)
    ensures Projects(s, ActAtA(c, act), nets', o)
  {
    match act
    case Demand(v, t) =>
      DemandProjects(s, c, nets, v, t, o);
      nets' := nets + [NetAction.AskA(v, t)];
    case Read(n) =>
      nets' := nets;
      if 0 < n <= |c.link.ba| { nets' := ReadProjects(s, c, nets, n, o); }
  }

  // ----- The other side -----

  lemma FlipProjects(s: Setup, c: Course, nets: seq<NetAction>, o: byte)
    requires Projects(s, c, nets, o)
    ensures Projects(FlipSetup(s), Flip(c), MirrorActions(nets), o)
  {
    MirrorExec(s.ta, s.tb, nets);
    MirrorCounts(s.ta, s.tb, nets);
    MirrorTwice(nets);
  }

  lemma CountsSnoc(ta: Telopts, tb: Telopts, nets: seq<NetAction>, act: NetAction)
    ensures Requests(nets + [act]) == Requests(nets) + if IsAsk(act) then 1 else 0
    ensures SentIn(ta, tb, nets + [act]) == SentIn(ta, tb, nets) + SentBy(NetExec(ta, tb, nets), act)
  {
    Snoc(nets, act);
  }

  lemma {:induction false} MirrorCounts(ta: Telopts, tb: Telopts, nets: seq<NetAction>)
    ensures Requests(MirrorActions(nets)) == Requests(nets)
    ensures SentIn(tb, ta, MirrorActions(nets)) == SentIn(ta, tb, nets)
  {
    if nets != [] {
      var init, act := nets[..|nets| - 1], nets[|nets| - 1];
      MirrorCounts(ta, tb, init);
      MirrorExec(ta, tb, init);
      CountsSnoc(tb, ta, MirrorActions(init), MirrorAction(act));
      MirrorSent(NetExec(ta, tb, init), act);
    }
  }

  lemma MirrorSent(n: Net, act: NetAction)
    ensures SentBy(Mirror(n), MirrorAction(act)) == SentBy(n, act)
  {
  }

  lemma {:induction false} MirrorTwice(nets: seq<NetAction>)
    ensures MirrorActions(MirrorActions(nets)) == nets
  {
    if nets != [] {
      var init, act := nets[..|nets| - 1], nets[|nets| - 1];
      MirrorTwice(init);
      Snoc(MirrorActions(init), MirrorAction(act));
      Unsnoc(nets);
    }
  }

  lemma BeginProjects(s: Setup, o: byte)
    ensures Projects(s, Begin(s), [], o)
  {
  }

  /** Every run of the link, read message by message, is a run of Network. */
  lemma {:induction false} LinkIsNetwork(s: Setup, acts: seq<LinkAction>, o: byte) returns (nets: seq<NetAction>)
    ensures Projects(s, LinkExec(s, acts), nets, o)
    decreases |acts|
  {
    if acts == [] {
      BeginProjects(s, o);
      nets := [];
    } else {
      var c := LinkExec(s, acts[..|acts| - 1]);
      nets := LinkIsNetwork(s, acts[..|acts| - 1], o);
      match acts[|acts| - 1]
      case AtA(x) =>
        nets := ActProjects(s, c, nets, x, o);
      case AtB(x) =>
        FlipProjects(s, c, nets, o);
        var other := ActProjects(FlipSetup(s), Flip(c), MirrorActions(nets), x, o);
        FlipProjects(FlipSetup(s), ActAtA(Flip(c), x), other, o);
        nets := MirrorActions(other);
    }
  }

  // ----- What follows -----

  lemma SilentCuts(m: Mode, ms: seq<Msg>)
    requires Cuts(m, [], ms)
    ensures m == InData && ms == []
  {
    MsgBytesLength(ms);
    match m
    case InIac => PlusNothing([IAC]);
    case InVerb(v) => PlusNothing([IAC, Code(v)]);
    case _ =>
  }

  /** For every run over byte streams, however the reads cut the messages and wherever requests
      fall between them: when both streams are read to the end, both engines are between
      messages, and each option in each direction is agreed exactly when its user never heard a
      WONT in Q_WANTNO_OP. */
  lemma LinkAgreement(s: Setup, acts: seq<LinkAction>, o: byte)
    requires LinkExec(s, acts).link.ab == [] && LinkExec(s, acts).link.ba == []
    ensures var c := LinkExec(s, acts);
            && c.link.a.mode == InData && c.link.b.mode == InData
            && (SidesAgree(c.link.a.q[o], c.link.b.q[o]) <==> o !in c.unsentB)
            && (SidesAgree(c.link.b.q[o], c.link.a.q[o]) <==> o !in c.unsentA)
  {
    var c := LinkExec(s, acts);
    var nets := LinkIsNetwork(s, acts, o);
    var n := NetExec(s.ta, s.tb, nets);
    SilentCuts(c.link.a.mode, n.ba);
    SilentCuts(c.link.b.mode, n.ab);
    ConnectionAgreement(s.ta, s.tb, nets, o);
  }

  /** Bytes sent are read or still in flight, and no read is empty. */
  lemma ActConserves(c: Course, act: SideAction)
    requires c.calls + |c.link.ab| + |c.link.ba| <= c.sent
    ensures var d := ActAtA(c, act); d.calls + |d.link.ab| + |d.link.ba| <= d.sent
  {
  }

  lemma {:induction false} Conserves(s: Setup, acts: seq<LinkAction>)
    ensures var c := LinkExec(s, acts); c.calls + |c.link.ab| + |c.link.ba| <= c.sent
  {
    if acts != [] {
      var c := LinkExec(s, acts[..|acts| - 1]);
      Conserves(s, acts[..|acts| - 1]);
      match acts[|acts| - 1]
      case AtA(x) => ActConserves(c, x);
      case AtB(x) => ActConserves(Flip(c), x);
    }
  }

  /** In every run at most six bytes are sent per request, so at most six calls of telnet_recv
      per request find anything to read, and fewer while bytes are in flight. */
  lemma SixBytesPerRequest(s: Setup, acts: seq<LinkAction>)
    ensures var c := LinkExec(s, acts);
            c.sent <= 6 * c.requests && c.calls + |c.link.ab| + |c.link.ba| <= c.sent
  {
    var nets := LinkIsNetwork(s, acts, TELOPT_BINARY);
    AtMostTwoPerRequest(s.ta, s.tb, nets);
    Conserves(s, acts);
  }
}
