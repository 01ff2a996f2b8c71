/** A whole connection never loops: counted over all 256 options and both directions, at most
    two messages are sent per request, and once requests stop the deliveries run out. */
module Traffic {
  import opened Sequences
  import opened Bytes
  import opened Events
  import opened QMethod
  import opened Network
  import Peers

  type Weight = Peers.Pair -> nat

  /** The weight of option `o` in both directions. */
  function At(n: Net, o: byte, w: Weight): nat {
    w(View(n, o)) + w(View(Mirror(n), o))
  }

  /** The weight of the first `k` options. */
  function Sum(n: Net, k: nat, w: Weight): nat
    requires k <= 256
  {
    if k == 0 then 0 else Sum(n, k - 1, w) + At(n, k - 1, w)
  }

  /** The weight of the whole connection. */
  function Total(n: Net, w: Weight): nat {
    Sum(n, |n.a.q|, w)
  }

  /** When only option `t` changes, so does the sum. */
  lemma {:induction false} SumChange(n: Net, n': Net, t: byte, k: nat, w: Weight)
    requires k <= 256
    requires forall o: byte :: o != t ==> At(n', o, w) == At(n, o, w)
    ensures Sum(n', k, w) == Sum(n, k, w) + if t < k then At(n', t, w) - At(n, t, w) else 0
  {
    if k > 0 { SumChange(n, n', t, k - 1, w); }
  }

  /** The option and direction an action belongs to: A performs when `byA`. */
  datatype Place = Nowhere | Place(telopt: byte, byA: bool)

  function PlaceOf(n: Net, act: NetAction): Place {
    match act
    case AskA(v, o) => Place(o, v.VWill? || v.VWont?)
    case AskB(v, o) => Place(o, v.VDo? || v.VDont?)
    case DeliverToA => if n.ba == [] then Nowhere else Place(n.ba[0].telopt, n.ba[0].verb.VDo? || n.ba[0].verb.VDont?)
    case DeliverToB => if n.ab == [] then Nowhere else Place(n.ab[0].telopt, n.ab[0].verb.VWill? || n.ab[0].verb.VWont?)
  }

  /** The pair at a place, and the action of Peers it does. */
  function ViewAt(n: Net, o: byte, byA: bool): Peers.Pair {
    if byA then View(n, o) else View(Mirror(n), o)
  }

  function MoveAt(n: Net, act: NetAction, o: byte, byA: bool): seq<Peers.Action> {
    if byA then ActionsOn(n, act, o) else ActionsOn(Mirror(n), MirrorAction(act), o)
  }

  function SupportAt(n: Net, o: byte, byA: bool): Peers.Support {
    if byA then SupportOn(n.a.telopts, n.b.telopts, o) else SupportOn(n.b.telopts, n.a.telopts, o)
  }

  lemma MovesOnlyThere(n: Net, act: NetAction, o: byte)
    ensures ActionsOn(n, act, o) == [] <==> PlaceOf(n, act) != Place(o, true)
    ensures ActionsOn(Mirror(n), MirrorAction(act), o) == [] <==> PlaceOf(n, act) != Place(o, false)
  {
  }

  lemma MoveIs(n: Net, act: NetAction, o: byte, byA: bool)
    ensures var xs := MoveAt(n, act, o, byA);
            && (xs == [] <==> PlaceOf(n, act) != Place(o, byA))
            && |xs| <= 1
            && ViewAt(NetNext(n, act), o, byA)
               == if xs == [] then ViewAt(n, o, byA)
                  else Peers.Next(ViewAt(n, o, byA), SupportAt(n, o, byA), xs[0]).pair
  {
    MovesOnlyThere(n, act, o);
    if byA {
      ViewStep(n, act, o);
    } else {
      MirrorNext(n, act);
      ViewStep(Mirror(n), MirrorAction(act), o);
    }
  }

  predicate IsAsk(act: NetAction) { act.AskA? || act.AskB? }

  /** The messages one action sends. */
  function SentBy(n: Net, act: NetAction): nat {
    match act
    case AskA(v, o) => |Perform(n.a, Ask(v, o)).1|
    case AskB(v, o) => |Perform(n.b, Ask(v, o)).1|
    case DeliverToA => if n.ba == [] then 0 else |Perform(n.a, Hear(n.ba[0].verb, n.ba[0].telopt)).1|
    case DeliverToB => if n.ab == [] then 0 else |Perform(n.b, Hear(n.ab[0].verb, n.ab[0].telopt)).1|
  }

  predicate NetDelivers(n: Net, act: NetAction) {
    (act.DeliverToA? && n.ba != []) || (act.DeliverToB? && n.ab != [])
  }

  lemma FirstOf(c: seq<Msg>, o: byte, toHim: bool)
    requires c != [] && Concerns(c[0], o, toHim)
    ensures Only(c, o, toHim) != [] && Only(c, o, toHim)[0] == c[0].verb
  {
    OnlyPop(c, o, toHim);
  }

  /** At its place an action sends what the pair sends, and is a request or a delivery there. */
  ghost predicate Counts(n: Net, act: NetAction)
    requires PlaceOf(n, act) != Nowhere
  {
    var o, byA := PlaceOf(n, act).telopt, PlaceOf(n, act).byA;
    var xs := MoveAt(n, act, o, byA);
    && xs != []
    && Peers.Next(ViewAt(n, o, byA), SupportAt(n, o, byA), xs[0]).sent == SentBy(n, act)
    && (Peers.IsRequest(xs[0]) <==> IsAsk(act))
    && (NetDelivers(n, act) ==> Peers.Delivers(ViewAt(n, o, byA), xs[0]))
  }

  lemma AskCounts(n: Net, v: Verb, o: byte)
    ensures Counts(n, AskA(v, o)) && Counts(n, AskB(v, o))
  {
  }

  lemma DeliverToACounts(n: Net)
    requires n.ba != []
    ensures Counts(n, DeliverToA)
  {
    FirstOf(n.ba, n.ba[0].telopt, !PlaceOf(n, DeliverToA).byA);
  }

  lemma DeliverToBCounts(n: Net)
    requires n.ab != []
    ensures Counts(n, DeliverToB)
  {
    FirstOf(n.ab, n.ab[0].telopt, PlaceOf(n, DeliverToB).byA);
  }

  lemma MoveCounts(n: Net, act: NetAction)
    requires PlaceOf(n, act) != Nowhere
    ensures Counts(n, act)
  {
    match act
    case AskA(v, o) => AskCounts(n, v, o);
    case AskB(v, o) => AskCounts(n, v, o);
    case DeliverToA => DeliverToACounts(n);
    case DeliverToB => DeliverToBCounts(n);
  }

  // ----- Reachable connections -----

  lemma ViewReachable(ta: Telopts, tb: Telopts, acts: seq<NetAction>, o: byte, byA: bool)
    ensures var p := ViewAt(NetExec(ta, tb, acts), o, byA); Peers.Matched(p) || Peers.Orphaned(p)
  {
    if byA {
      ViewRun(ta, tb, acts, o);
      Peers.Reachable(SupportOn(ta, tb, o), RunOn(ta, tb, acts, o));
    } else {
      MirrorExec(ta, tb, acts);
      ViewRun(tb, ta, MirrorActions(acts), o);
      Peers.Reachable(SupportOn(tb, ta, o), RunOn(tb, ta, MirrorActions(acts), o));
    }
  }

  /** An action changes the weight of its own place only. */
  lemma ChangeAt(n: Net, act: NetAction, w: Weight)
    ensures var n', place := NetNext(n, act), PlaceOf(n, act);
            if place == Nowhere then Total(n', w) == Total(n, w)
            else Total(n', w) == Total(n, w) + w(ViewAt(n', place.telopt, place.byA))
                                 - w(ViewAt(n, place.telopt, place.byA))
  {
    var n', place := NetNext(n, act), PlaceOf(n, act);
    var t := if place == Nowhere then 0 else place.telopt;
    forall o: byte | o != t ensures At(n', o, w) == At(n, o, w) {
      MoveIs(n, act, o, true);
      MoveIs(n, act, o, false);
    }
    MoveIs(n, act, t, true);
    MoveIs(n, act, t, false);
    SumChange(n, n', t, |n.a.q|, w);
  }

  function Requests(acts: seq<NetAction>): nat {
    if acts == [] then 0 else Requests(acts[..|acts| - 1]) + if IsAsk(acts[|acts| - 1]) then 1 else 0
  }

  function SentIn(ta: Telopts, tb: Telopts, acts: seq<NetAction>): nat {
    if acts == [] then 0 else
      SentIn(ta, tb, acts[..|acts| - 1]) + SentBy(NetExec(ta, tb, acts[..|acts| - 1]), acts[|acts| - 1])
  }

  lemma {:induction false} SumFresh(ta: Telopts, tb: Telopts, k: nat)
    requires k <= 256
    ensures Sum(NetExec(ta, tb, []), k, Peers.Debt) == 0
  {
    if k > 0 {
      SumFresh(ta, tb, k - 1);
      assert QUs(0) == Q_NO && QHim(0) == Q_NO;
    }
  }

  lemma DebtPaid(ta: Telopts, tb: Telopts, acts: seq<NetAction>, act: NetAction)
    ensures var n := NetExec(ta, tb, acts);
            SentBy(n, act) + Total(NetNext(n, act), Peers.Debt)
            <= Total(n, Peers.Debt) + if IsAsk(act) then 2 else 0
  {
    var n := NetExec(ta, tb, acts);
    ChangeAt(n, act, Peers.Debt);
    var place := PlaceOf(n, act);
    if place != Nowhere {
      var o, byA := place.telopt, place.byA;
      MoveCounts(n, act);
      MoveIs(n, act, o, byA);
      ViewReachable(ta, tb, acts, o, byA);
      Peers.DebtStep(ViewAt(n, o, byA), SupportAt(n, o, byA), MoveAt(n, act, o, byA)[0]);
    }
  }

  /** In every run of a connection the engines send at most two messages per request made by
      either application, whatever the options and however the deliveries interleave. */
  lemma {:induction false} AtMostTwoPerRequest(ta: Telopts, tb: Telopts, acts: seq<NetAction>)
    ensures SentIn(ta, tb, acts) + Total(NetExec(ta, tb, acts), Peers.Debt) <= 2 * Requests(acts)
  {
    if acts == [] {
      SumFresh(ta, tb, |NetExec(ta, tb, []).a.q|);
    } else {
      var init, act := acts[..|acts| - 1], acts[|acts| - 1];
      AtMostTwoPerRequest(ta, tb, init);
      DebtPaid(ta, tb, init, act);
    }
  }

  /** Every action of `more` delivers a message. */
  predicate OnlyDeliveries(ta: Telopts, tb: Telopts, acts: seq<NetAction>, more: seq<NetAction>) {
    more == [] ||
    (OnlyDeliveries(ta, tb, acts, more[..|more| - 1])
     && NetDelivers(NetExec(ta, tb, acts + more[..|more| - 1]), more[|more| - 1]))
  }

  lemma DeliveryCounts(ta: Telopts, tb: Telopts, before: seq<NetAction>, act: NetAction, all: seq<NetAction>)
    requires NetDelivers(NetExec(ta, tb, before), act) && all == before + [act]
    ensures Total(NetExec(ta, tb, all), Peers.Measure) < Total(NetExec(ta, tb, before), Peers.Measure)
  {
    var n := NetExec(ta, tb, before);
    var o, byA := PlaceOf(n, act).telopt, PlaceOf(n, act).byA;
    ChangeAt(n, act, Peers.Measure);
    MoveCounts(n, act);
    MoveIs(n, act, o, byA);
    ViewReachable(ta, tb, before, o, byA);
    Peers.MeasureStep(ViewAt(n, o, byA), SupportAt(n, o, byA), MoveAt(n, act, o, byA)[0]);
    assert all[..|all| - 1] == before;
  }

  /** The measure of the connection after a run. */
  function Unsettled(ta: Telopts, tb: Telopts, acts: seq<NetAction>): nat {
    Total(NetExec(ta, tb, acts), Peers.Measure)
  }

  lemma {:induction false} SumAtLeast(n: Net, k: nat, o: byte, w: Weight)
    requires o < k <= 256
    ensures At(n, o, w) <= Sum(n, k, w)
  {
    if o < k - 1 { SumAtLeast(n, k - 1, o, w); }
  }

  /** The first message of a channel is in flight in one of the two directions of its option. */
  lemma FirstInFlight(n: Net)
    ensures n.ab != [] ==> At(n, n.ab[0].telopt, Peers.Measure) > 0
    ensures n.ba != [] ==> At(n, n.ba[0].telopt, Peers.Measure) > 0
  {
    if n.ab != [] { FirstOf(n.ab, n.ab[0].telopt, Concerns(n.ab[0], n.ab[0].telopt, true)); }
    if n.ba != [] { FirstOf(n.ba, n.ba[0].telopt, Concerns(n.ba[0], n.ba[0].telopt, true)); }
  }

  /** At measure 0 nothing is in flight. */
  lemma SettledIsSilent(n: Net)
    requires Total(n, Peers.Measure) == 0
    ensures n.ab == [] && n.ba == []
  {
    FirstInFlight(n);
    if n.ab != [] { SumAtLeast(n, |n.a.q|, n.ab[0].telopt, Peers.Measure); }
    if n.ba != [] { SumAtLeast(n, |n.a.q|, n.ba[0].telopt, Peers.Measure); }
  }

  /** Once both applications stop asking, every delivery lowers the measure of the whole
      connection; so at most that many are possible, and after that many both channels are
      empty. */
  lemma {:induction false} ConnectionSettles(ta: Telopts, tb: Telopts, acts: seq<NetAction>, more: seq<NetAction>)
    requires OnlyDeliveries(ta, tb, acts, more)
    ensures |more| + Unsettled(ta, tb, acts + more) <= Unsettled(ta, tb, acts)
    ensures |more| == Unsettled(ta, tb, acts)
            ==> NetExec(ta, tb, acts + more).ab == [] && NetExec(ta, tb, acts + more).ba == []
  {
    if more == [] {
      assert acts + more == acts;
    } else {
      var init, act := more[..|more| - 1], more[|more| - 1];
      Unsnoc(more);
      ConnectionSettles(ta, tb, acts, init);
      Assoc(acts, init, [act]);
      DeliveryCounts(ta, tb, acts + init, act, acts + more);
    }
    if |more| == Unsettled(ta, tb, acts) { SettledIsSilent(NetExec(ta, tb, acts + more)); }
  }
}
