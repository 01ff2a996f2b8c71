/** Two whole engines outside PROXY mode: 256 options, both directions of each, over one
    pair of FIFO channels. Every option and direction behaves as a pair of Peers. */
module Network {
  import opened Sequences
  import opened Bytes
  import opened Events
  import opened QMethod
  import Peers

  datatype Endpoint = Endpoint(q: ByteTable, telopts: Telopts)

  /** `ab` carries messages from A to B, `ba` from B to A. */
  datatype Net = Net(a: Endpoint, b: Endpoint, ab: seq<Msg>, ba: seq<Msg>)

  datatype NetAction = AskA(verb: Verb, telopt: byte) | AskB(verb: Verb, telopt: byte) | DeliverToA | DeliverToB

  function Perform(e: Endpoint, x: Stimulus): (Endpoint, seq<Msg>) {
    var (q, r) := React(e.q, e.telopts, x);
    (e.(q := q), Replies(r, x.telopt))
  }

  function NetNext(n: Net, act: NetAction): Net {
    match act
    case AskA(v, o) =>
      var (a, sent) := Perform(n.a, Ask(v, o)); n.(a := a, ab := n.ab + sent)
    case AskB(v, o) =>
      var (b, sent) := Perform(n.b, Ask(v, o)); n.(b := b, ba := n.ba + sent)
    case DeliverToA =>
      if n.ba == [] then n else
        var (a, sent) := Perform(n.a, Hear(n.ba[0].verb, n.ba[0].telopt));
        n.(a := a, ab := n.ab + sent, ba := n.ba[1..])
    case DeliverToB =>
      if n.ab == [] then n else
        var (b, sent) := Perform(n.b, Hear(n.ab[0].verb, n.ab[0].telopt));
        n.(b := b, ba := n.ba + sent, ab := n.ab[1..])
  }

  /** Fresh engines, as telnet_init leaves them. */
  function Fresh(telopts: Telopts): Endpoint {
    Endpoint(seq(256, _ => 0), telopts)
  }

  function NetExec(ta: Telopts, tb: Telopts, acts: seq<NetAction>): Net {
    if acts == [] then Net(Fresh(ta), Fresh(tb), [], [])
    else NetNext(NetExec(ta, tb, acts[..|acts| - 1]), acts[|acts| - 1])
  }

  /** Did B hear a WONT for option `o` while its `him` side was in Q_WANTNO_OP? */
  predicate SkippedAtB(ta: Telopts, tb: Telopts, acts: seq<NetAction>, o: byte) {
    acts != [] &&
    (SkippedAtB(ta, tb, acts[..|acts| - 1], o)
     || (var n := NetExec(ta, tb, acts[..|acts| - 1]);
         acts[|acts| - 1].DeliverToB? && n.ab != [] && n.ab[0].telopt == o
         && UnsentDo(n.b.q[o], Hear(n.ab[0].verb, o))))
  }

  // ----- One option, A performing -----

  predicate Concerns(m: Msg, o: byte, toHim: bool) {
    m.telopt == o && (toHim <==> m.verb.VWill? || m.verb.VWont?)
  }

  function Only(c: seq<Msg>, o: byte, toHim: bool): seq<Verb> {
    if c == [] then [] else
      Only(c[..|c| - 1], o, toHim) + if Concerns(c[|c| - 1], o, toHim) then [c[|c| - 1].verb] else []
  }

  lemma OnlySnoc(c: seq<Msg>, m: Msg, o: byte, toHim: bool)
    ensures Only(c + [m], o, toHim) == Only(c, o, toHim) + if Concerns(m, o, toHim) then [m.verb] else []
  {
    assert (c + [m])[..|c + [m]| - 1] == c;
  }

  lemma {:induction false} OnlyPop(c: seq<Msg>, o: byte, toHim: bool)
    requires c != []
    ensures Only(c, o, toHim) == (if Concerns(c[0], o, toHim) then [c[0].verb] else []) + Only(c[1..], o, toHim)
  {
    if |c| == 1 {
      assert c[..0] == [] && c[1..] == [];
    } else {
      var init, m := c[..|c| - 1], c[|c| - 1];
      OnlyPop(init, o, toHim);
      assert c[1..] == init[1..] + [m];
      OnlySnoc(init[1..], m, o, toHim);
    }
  }

  lemma OnlyPopped(c: seq<Msg>, o: byte, toHim: bool)
    requires c != []
    ensures if Concerns(c[0], o, toHim) then
              var only := Only(c, o, toHim);
              only != [] && only[0] == c[0].verb && only[1..] == Only(c[1..], o, toHim)
            else Only(c, o, toHim) == Only(c[1..], o, toHim)
  {
    OnlyPop(c, o, toHim);
  }

  function View(n: Net, o: byte): Peers.Pair {
    Peers.Pair(QUs(n.a.q[o]), QHim(n.b.q[o]), Only(n.ab, o, true), Only(n.ba, o, false))
  }

  /** What an action means to option `o` with A performing: one action of Peers, or none. */
  function ActionsOn(n: Net, act: NetAction, o: byte): seq<Peers.Action> {
    match act
    case AskA(v, t) =>
      if t != o then [] else if v.VWill? then [Peers.AskWill] else if v.VWont? then [Peers.AskWont] else []
    case AskB(v, t) =>
      if t != o then [] else if v.VDo? then [Peers.AskDo] else if v.VDont? then [Peers.AskDont] else []
    case DeliverToA => if n.ba != [] && Concerns(n.ba[0], o, false) then [Peers.DeliverToUs] else []
    case DeliverToB => if n.ab != [] && Concerns(n.ab[0], o, true) then [Peers.DeliverToHim] else []
  }

  function SupportOn(ta: Telopts, tb: Telopts, o: byte): Peers.Support {
    Peers.Support(SupportsLocal(ta, o), SupportsRemote(tb, o))
  }

  lemma OnlyReplies(c: seq<Msg>, r: Reaction, t: byte, o: byte, toHim: bool)
    ensures Only(c + Replies(r, t), o, toHim)
         == Only(c, o, toHim)
            + if r.reply.Some? && Concerns(Msg(r.reply.value, t), o, toHim) then [r.reply.value] else []
  {
    if r.reply.Some? {
      OnlySnoc(c, Msg(r.reply.value, t), o, toHim);
    } else {
      assert c + Replies(r, t) == c;
    }
  }

  /** A's side of a stimulus: what it does to the view. */
  lemma PerformA(n: Net, x: Stimulus, o: byte)
    ensures var (a, sent) := Perform(n.a, x);
            var r := SideReaction(n.a.q[x.telopt], n.a.telopts, x);
            && a.telopts == n.a.telopts
            && (if x.telopt == o && ForUs(x) then
                  QUs(a.q[o]) == r.next && Only(n.ab + sent, o, true) == Only(n.ab, o, true) + Peers.Reply(r)
                else
                  QUs(a.q[o]) == QUs(n.a.q[o]) && Only(n.ab + sent, o, true) == Only(n.ab, o, true))
  {
    OnlyReplies(n.ab, SideReaction(n.a.q[x.telopt], n.a.telopts, x), x.telopt, o, true);
  }

  lemma PerformB(n: Net, x: Stimulus, o: byte)
    ensures var (b, sent) := Perform(n.b, x);
            var r := SideReaction(n.b.q[x.telopt], n.b.telopts, x);
            && b.telopts == n.b.telopts
            && (if x.telopt == o && !ForUs(x) then
                  QHim(b.q[o]) == r.next && Only(n.ba + sent, o, false) == Only(n.ba, o, false) + Peers.Reply(r)
                else
                  QHim(b.q[o]) == QHim(n.b.q[o]) && Only(n.ba + sent, o, false) == Only(n.ba, o, false))
  {
    OnlyReplies(n.ba, SideReaction(n.b.q[x.telopt], n.b.telopts, x), x.telopt, o, false);
  }

  /** The pair of option `o` does `xs`: nothing, or one action of Peers. */
  predicate Follows(n: Net, n': Net, o: byte, xs: seq<Peers.Action>) {
    && |xs| <= 1
    && n'.a.telopts == n.a.telopts && n'.b.telopts == n.b.telopts
    && View(n', o) == if xs == [] then View(n, o)
                      else Peers.Next(View(n, o), SupportOn(n.a.telopts, n.b.telopts, o), xs[0]).pair
  }

  lemma AskStep(n: Net, v: Verb, t: byte, o: byte)
    ensures Follows(n, NetNext(n, AskA(v, t)), o, ActionsOn(n, AskA(v, t), o))
    ensures Follows(n, NetNext(n, AskB(v, t)), o, ActionsOn(n, AskB(v, t), o))
  {
    PerformA(n, Ask(v, t), o);
    PerformB(n, Ask(v, t), o);
  }

  lemma DeliverToAStep(n: Net, o: byte)
    ensures Follows(n, NetNext(n, DeliverToA), o, ActionsOn(n, DeliverToA, o))
  {
    if n.ba != [] {
      PerformA(n, Hear(n.ba[0].verb, n.ba[0].telopt), o);
      OnlyPopped(n.ba, o, false);
    }
  }

  lemma DeliverToBStep(n: Net, o: byte)
    ensures Follows(n, NetNext(n, DeliverToB), o, ActionsOn(n, DeliverToB, o))
  {
    if n.ab != [] {
      PerformB(n, Hear(n.ab[0].verb, n.ab[0].telopt), o);
      OnlyPopped(n.ab, o, true);
    }
  }

  /** One action of the connection is at most one action of each option's pair. */
  lemma ViewStep(n: Net, act: NetAction, o: byte)
    ensures Follows(n, NetNext(n, act), o, ActionsOn(n, act, o))
  {
    match act
    case AskA(v, t) => AskStep(n, v, t, o);
    case AskB(v, t) => AskStep(n, v, t, o);
    case DeliverToA => DeliverToAStep(n, o);
    case DeliverToB => DeliverToBStep(n, o);
  }

  /** The two ways of saying that B's DO goes unsent. */
  lemma SkipSeen(n: Net, act: NetAction, o: byte)
    ensures var xs := ActionsOn(n, act, o);
            (xs != [] && Peers.Next(View(n, o), SupportOn(n.a.telopts, n.b.telopts, o), xs[0]).skipped)
            <==> (act.DeliverToB? && n.ab != [] && n.ab[0].telopt == o
                  && UnsentDo(n.b.q[o], Hear(n.ab[0].verb, o)))
  {
    if act.DeliverToB? && n.ab != [] {
      OnlyPop(n.ab, o, true);
      if Concerns(n.ab[0], o, true) {
        assert View(n, o).toHim[0] == n.ab[0].verb;
      }
    }
  }

  /** The run of Peers that a run of the connection is for option `o`. */
  function RunOn(ta: Telopts, tb: Telopts, acts: seq<NetAction>, o: byte): seq<Peers.Action> {
    if acts == [] then [] else
      var init := acts[..|acts| - 1];
      RunOn(ta, tb, init, o) + ActionsOn(NetExec(ta, tb, init), acts[|acts| - 1], o)
  }

  lemma RunMore(s: Peers.Support, run: seq<Peers.Action>, xs: seq<Peers.Action>)
    requires |xs| <= 1
    ensures var h, h' := Peers.Exec(s, run), Peers.Exec(s, run + xs);
            if xs == [] then h' == h
            else var m := Peers.Next(h.pair, s, xs[0]); h'.pair == m.pair && h'.skipped == (h.skipped || m.skipped)
  {
    if xs == [] {
      PlusNothing(run);
    } else {
      assert xs == [xs[0]];
      Peers.ExecSnoc(s, run, xs[0]);
    }
  }

  lemma {:induction false} ViewRun(ta: Telopts, tb: Telopts, acts: seq<NetAction>, o: byte)
    ensures var n, h := NetExec(ta, tb, acts), Peers.Exec(SupportOn(ta, tb, o), RunOn(ta, tb, acts, o));
            && n.a.telopts == ta && n.b.telopts == tb
            && View(n, o) == h.pair
            && (h.skipped <==> SkippedAtB(ta, tb, acts, o))
  {
    if acts == [] {
      assert QUs(Fresh(ta).q[o]) == Q_NO && QHim(Fresh(tb).q[o]) == Q_NO;
    } else {
      var init, act := acts[..|acts| - 1], acts[|acts| - 1];
      var n := NetExec(ta, tb, init);
      ViewRun(ta, tb, init, o);
      ViewStep(n, act, o);
      SkipSeen(n, act, o);
      RunMore(SupportOn(ta, tb, o), RunOn(ta, tb, init, o), ActionsOn(n, act, o));
    }
  }

  // ----- The other direction, and the whole connection -----

  function Mirror(n: Net): Net { Net(n.b, n.a, n.ba, n.ab) }

  function MirrorAction(act: NetAction): NetAction {
    match act
    case AskA(v, o) => AskB(v, o)
    case AskB(v, o) => AskA(v, o)
    case DeliverToA => DeliverToB
    case DeliverToB => DeliverToA
  }

  lemma MirrorNext(n: Net, act: NetAction)
    ensures NetNext(Mirror(n), MirrorAction(act)) == Mirror(NetNext(n, act))
  {
  }

  function MirrorActions(acts: seq<NetAction>): seq<NetAction> {
    if acts == [] then [] else MirrorActions(acts[..|acts| - 1]) + [MirrorAction(acts[|acts| - 1])]
  }

  lemma {:induction false} MirrorExec(ta: Telopts, tb: Telopts, acts: seq<NetAction>)
    ensures NetExec(tb, ta, MirrorActions(acts)) == Mirror(NetExec(ta, tb, acts))
  {
    if acts != [] {
      var init, m := acts[..|acts| - 1], MirrorActions(acts[..|acts| - 1]);
      MirrorExec(ta, tb, init);
      MirrorNext(NetExec(ta, tb, init), acts[|acts| - 1]);
      Snoc(m, MirrorAction(acts[|acts| - 1]));
    }
  }

  /** Did A hear a WONT for option `o` while its `him` side was in Q_WANTNO_OP? */
  predicate SkippedAtA(ta: Telopts, tb: Telopts, acts: seq<NetAction>, o: byte) {
    SkippedAtB(tb, ta, MirrorActions(acts), o)
  }

  /** Both, one action at a time. */
  lemma SkippedSnoc(ta: Telopts, tb: Telopts, acts: seq<NetAction>, act: NetAction, o: byte)
    ensures var n := NetExec(ta, tb, acts);
            SkippedAtA(ta, tb, acts + [act], o)
            <==> SkippedAtA(ta, tb, acts, o)
                 || (act.DeliverToA? && n.ba != [] && n.ba[0].telopt == o && UnsentDo(n.a.q[o], Hear(n.ba[0].verb, o)))
    ensures var n := NetExec(ta, tb, acts);
            SkippedAtB(ta, tb, acts + [act], o)
            <==> SkippedAtB(ta, tb, acts, o)
                 || (act.DeliverToB? && n.ab != [] && n.ab[0].telopt == o && UnsentDo(n.b.q[o], Hear(n.ab[0].verb, o)))
  {
    MirrorExec(ta, tb, acts);
    Snoc(acts, act);
    Snoc(MirrorActions(acts), MirrorAction(act));
  }

  predicate SidesAgree(us: byte, him: byte) {
    (QUs(us) == Q_YES && QHim(him) == Q_YES) || (QUs(us) == Q_NO && QHim(him) == Q_NO)
  }

  /** For every run of two fresh engines: when both channels are empty, each option in each
      direction is agreed exactly when its user never heard a WONT in Q_WANTNO_OP. */
  lemma ConnectionAgreement(ta: Telopts, tb: Telopts, acts: seq<NetAction>, o: byte)
    requires NetExec(ta, tb, acts).ab == [] && NetExec(ta, tb, acts).ba == []
    ensures var n := NetExec(ta, tb, acts);
            && (SidesAgree(n.a.q[o], n.b.q[o]) <==> !SkippedAtB(ta, tb, acts, o))
            && (SidesAgree(n.b.q[o], n.a.q[o]) <==> !SkippedAtA(ta, tb, acts, o))
  {
    ViewRun(ta, tb, acts, o);
    Peers.Agreement(SupportOn(ta, tb, o), RunOn(ta, tb, acts, o));
    MirrorExec(ta, tb, acts);
    ViewRun(tb, ta, MirrorActions(acts), o);
    Peers.Agreement(SupportOn(tb, ta, o), RunOn(tb, ta, MirrorActions(acts), o));
  }

  /** The messages about one option never pile up: at most two per direction are in flight,
      whatever the other 255 options are doing. */
  lemma ConnectionInFlight(ta: Telopts, tb: Telopts, acts: seq<NetAction>, o: byte)
    ensures var n := NetExec(ta, tb, acts);
            && |Only(n.ab, o, true)| + |Only(n.ba, o, false)| <= 2
            && |Only(n.ba, o, true)| + |Only(n.ab, o, false)| <= 2
  {
    ViewRun(ta, tb, acts, o);
    Peers.Agreement(SupportOn(ta, tb, o), RunOn(ta, tb, acts, o));
    MirrorExec(ta, tb, acts);
    ViewRun(tb, ta, MirrorActions(acts), o);
    Peers.Agreement(SupportOn(tb, ta, o), RunOn(tb, ta, MirrorActions(acts), o));
  }
}
