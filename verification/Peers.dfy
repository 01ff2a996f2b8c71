/** Two engines negotiating one option over a pair of FIFO channels: A performs the
    option (its `us` side), B uses it (its `him` side). Every interleaving of
    application requests and deliveries is a run. */
module Peers {
  import opened Sequences
  import opened Events
  import opened QMethod

  /** `toHim` carries WILL and WONT from A to B, `toUs` carries DO and DONT from B to A. */
  datatype Pair = Pair(us: nibble, him: nibble, toHim: seq<Verb>, toUs: seq<Verb>)

  datatype Action = AskWill | AskWont | AskDo | AskDont | DeliverToUs | DeliverToHim

  /** Does A support the option locally, does B support it remotely? */
  datatype Support = Support(us: bool, him: bool)

  /** What one action does: the new pair and what the acting side reported. */
  datatype Move = Move(pair: Pair, sent: nat, warned: bool, skipped: bool)

  function Reply(r: Reaction): seq<Verb> {
    if r.reply.Some? then [r.reply.value] else []
  }

  function UsMoves(p: Pair, r: Reaction, toUs: seq<Verb>): Move {
    Move(Pair(r.next, p.him, p.toHim + Reply(r), toUs), |Reply(r)|, r.warned, false)
  }

  function HimMoves(p: Pair, r: Reaction, toHim: seq<Verb>, skipped: bool): Move {
    Move(Pair(p.us, r.next, toHim, p.toUs + Reply(r)), |Reply(r)|, r.warned, skipped)
  }

  /** A delivery from an empty channel changes nothing. `skipped` marks a WONT heard in
      Q_WANTNO_OP, where the source sends no DO. */
  function Next(p: Pair, s: Support, a: Action): Move {
    match a
    case AskWill => UsMoves(p, AskOn(p.us, VWill), p.toUs)
    case AskWont => UsMoves(p, AskOff(p.us, VWont), p.toUs)
    case AskDo => HimMoves(p, AskOn(p.him, VDo), p.toHim, false)
    case AskDont => HimMoves(p, AskOff(p.him, VDont), p.toHim, false)
    case DeliverToUs =>
      if p.toUs == [] then Move(p, 0, false, false)
      else UsMoves(p, if p.toUs[0] == VDo then HearDo(p.us, s.us) else HearDont(p.us), p.toUs[1..])
    case DeliverToHim =>
      if p.toHim == [] then Move(p, 0, false, false)
      else HimMoves(p, if p.toHim[0] == VWill then HearWill(p.him, s.him) else HearWont(p.him), p.toHim[1..],
                    p.toHim[0] != VWill && p.him == Q_WANTNO_OP)
  }

  predicate IsRequest(a: Action) {
    !a.DeliverToUs? && !a.DeliverToHim?
  }

  predicate Delivers(p: Pair, a: Action) {
    (a.DeliverToUs? && p.toUs != []) || (a.DeliverToHim? && p.toHim != [])
  }

  const INITIAL := Pair(Q_NO, Q_NO, [], [])

  /** A run from two idle peers: where it ends and what happened on the way. */
  datatype History = History(pair: Pair, requests: nat, sent: nat, warned: bool, skipped: bool)

  function Exec(s: Support, acts: seq<Action>): History {
    if acts == [] then History(INITIAL, 0, 0, false, false) else
      var h := Exec(s, acts[..|acts| - 1]);
      var a := acts[|acts| - 1];
      var m := Next(h.pair, s, a);
      History(m.pair, h.requests + if IsRequest(a) then 1 else 0, h.sent + m.sent,
              h.warned || m.warned, h.skipped || m.skipped)
  }

  predicate Quiet(p: Pair) { p.toHim == [] && p.toUs == [] }

  predicate Agreed(p: Pair) {
    (p.us == Q_YES && p.him == Q_YES) || (p.us == Q_NO && p.him == Q_NO)
  }

  // ----- The reachable configurations -----

  /** A side is waiting for an answer, with or without an opposite request queued. */
  predicate Waiting(n: nibble) { Q_WANTNO <= n <= Q_WANTYES_OP }

  predicate Queued(n: nibble) { n == Q_WANTNO_OP || n == Q_WANTYES_OP }

  predicate WantsNo(n: nibble) { n == Q_WANTNO || n == Q_WANTNO_OP }

  predicate WantsYes(n: nibble) { n == Q_WANTYES || n == Q_WANTYES_OP }

  predicate Holds(channel: seq<Verb>, v: Verb) { |channel| == 1 && channel[0] == v }

  predicate Holds2(channel: seq<Verb>, v: Verb, w: Verb) {
    |channel| == 2 && channel[0] == v && channel[1] == w
  }

  /** Every request is matched by a message in flight that is its answer or will be answered. */
  predicate Matched(p: Pair) {
    var u, h := p.us, p.him;
    if |p.toUs| == 0 then
      || (|p.toHim| == 0 && Agreed(p))
      || (Holds(p.toHim, VWont) && ((u == Q_NO && Waiting(h)) || (WantsNo(u) && h == Q_YES)))
      || (Holds(p.toHim, VWill) && ((u == Q_YES && WantsYes(h)) || (WantsYes(u) && h == Q_NO)))
      || (Holds2(p.toHim, VWill, VWont) && WantsNo(u) && WantsYes(h))
      || (Holds2(p.toHim, VWont, VWill) && WantsYes(u) && Waiting(h))
    else if |p.toHim| == 0 then
      || (Holds(p.toUs, VDo) && ((u == Q_NO && WantsYes(h)) || (WantsYes(u) && h == Q_YES)))
      || (Holds(p.toUs, VDont) && ((u == Q_YES && WantsNo(h)) || (Waiting(u) && h == Q_NO)))
      || (Holds2(p.toUs, VDo, VDont) && WantsYes(u) && WantsNo(h))
      || (Holds2(p.toUs, VDont, VDo) && Waiting(u) && WantsYes(h))
    else
      || (Holds(p.toUs, VDont) && Holds(p.toHim, VWont) && WantsNo(u) && WantsNo(h))
      || (Holds(p.toUs, VDo) && Holds(p.toHim, VWill) && WantsYes(u) && WantsYes(h))
  }

  /** One side waits for an answer nobody will send: what an unsent DO leaves for ever. */
  predicate Orphaned(p: Pair) {
    var u, h := p.us, p.him;
    if |p.toUs| == 0 then
      || (|p.toHim| == 0 && ((u == Q_NO && Waiting(h)) || (u == Q_YES && WantsYes(h))
                             || (Waiting(u) && h == Q_NO) || (WantsYes(u) && h == Q_YES)))
      || (Holds(p.toHim, VWont) && WantsNo(u) && WantsYes(h))
      || (Holds(p.toHim, VWill) && WantsYes(u) && Waiting(h))
    else
      && |p.toHim| == 0
      && ((Holds(p.toUs, VDo) && Waiting(u) && WantsYes(h))
          || (Holds(p.toUs, VDont) && ((WantsNo(u) && WantsYes(h)) || (WantsYes(u) && WantsNo(h)))))
  }

  lemma MatchedUs(p: Pair, s: Support)
    requires Matched(p) && p.toUs != []
    ensures var m := Next(p, s, DeliverToUs); !m.warned && Matched(m.pair)
  {
  }

  lemma MatchedHim(p: Pair, s: Support)
    requires Matched(p) && p.toHim != []
    ensures var m := Next(p, s, DeliverToHim); !m.warned && if m.skipped then Orphaned(m.pair) else Matched(m.pair)
  {
  }

  lemma MatchedAskUs(p: Pair, s: Support, a: Action)
    requires Matched(p) && (a.AskWill? || a.AskWont?)
    ensures var m := Next(p, s, a); !m.warned && !m.skipped && Matched(m.pair)
  {
  }

  lemma MatchedAskHim(p: Pair, s: Support, a: Action)
    requires Matched(p) && !a.AskWill? && !a.AskWont? && !Delivers(p, a)
    ensures var m := Next(p, s, a); !m.warned && !m.skipped && Matched(m.pair)
  {
  }

  lemma MatchedStep(p: Pair, s: Support, a: Action)
    requires Matched(p)
    ensures var m := Next(p, s, a); !m.warned && if m.skipped then Orphaned(m.pair) else Matched(m.pair)
  {
    if Delivers(p, a) {
      if a.DeliverToUs? { MatchedUs(p, s); } else { MatchedHim(p, s); }
    } else if a.AskWill? || a.AskWont? {
      MatchedAskUs(p, s, a);
    } else {
      MatchedAskHim(p, s, a);
    }
  }

  lemma OrphanedStep(p: Pair, s: Support, a: Action)
    requires Orphaned(p)
    ensures var m := Next(p, s, a); !m.skipped && Orphaned(m.pair)
  {
  }

  lemma {:induction false} Reachable(s: Support, acts: seq<Action>)
    ensures var h := Exec(s, acts);
            if h.skipped then Orphaned(h.pair) else Matched(h.pair) && !h.warned
  {
    if acts != [] {
      var init, a := acts[..|acts| - 1], acts[|acts| - 1];
      Reachable(s, init);
      var h := Exec(s, init);
      if h.skipped { OrphanedStep(h.pair, s, a); } else { MatchedStep(h.pair, s, a); }
    }
  }

  // ----- Agreement -----

  /** Over every run: at most two messages are in flight; nothing is "answered backwards"
      unless a DO went unsent; and whenever both channels are empty the peers agree
      exactly when no WONT was ever heard in Q_WANTNO_OP. */
  lemma Agreement(s: Support, acts: seq<Action>)
    ensures var h := Exec(s, acts);
            && |h.pair.toHim| + |h.pair.toUs| <= 2
            && (h.warned ==> h.skipped)
            && (Quiet(h.pair) ==> (Agreed(h.pair) <==> !h.skipped))
  {
    Reachable(s, acts);
  }

  /** B's application never asks for the option while its last DONT is unanswered. */
  predicate Disciplined(s: Support, acts: seq<Action>) {
    acts == [] ||
    (Disciplined(s, acts[..|acts| - 1])
     && !(acts[|acts| - 1].AskDo? && Exec(s, acts[..|acts| - 1]).pair.him == Q_WANTNO))
  }

  lemma DisciplinedStep(p: Pair, s: Support, a: Action)
    requires p.him != Q_WANTNO_OP && !(a.AskDo? && p.him == Q_WANTNO)
    ensures var m := Next(p, s, a); !m.skipped && m.pair.him != Q_WANTNO_OP
  {
  }

  /** Under that discipline the peers always agree. */
  lemma {:induction false} DisciplinedAgreement(s: Support, acts: seq<Action>)
    requires Disciplined(s, acts)
    ensures var h := Exec(s, acts);
            && !h.skipped && !h.warned && h.pair.him != Q_WANTNO_OP
            && (Quiet(h.pair) ==> Agreed(h.pair))
  {
    if acts != [] {
      var init := acts[..|acts| - 1];
      DisciplinedAgreement(s, init);
      Reachable(s, init);
      DisciplinedStep(Exec(s, init).pair, s, acts[|acts| - 1]);
    }
    Agreement(s, acts);
  }

  lemma ExecSnoc(s: Support, acts: seq<Action>, a: Action)
    ensures var h, m := Exec(s, acts), Next(Exec(s, acts).pair, s, a);
            Exec(s, acts + [a]) == History(m.pair, h.requests + if IsRequest(a) then 1 else 0, h.sent + m.sent,
                                           h.warned || m.warned, h.skipped || m.skipped)
  {
    assert (acts + [a])[..|acts + [a]| - 1] == acts;
  }

  /** A run that ends in silence and disagreement, so the discipline is needed. */
  lemma UnsentDoDisagrees() returns (a: seq<Action>)
    ensures a == [AskWill] + [DeliverToHim] + [DeliverToUs] + [AskDont] + [AskDo] + [DeliverToUs] + [DeliverToHim]
    ensures Exec(Support(true, true), a).pair == Pair(Q_NO, Q_WANTYES, [], [])
  {
    var s := Support(true, true);
    a := AgreedThenAsked();
    a := ExecOne(s, a, DeliverToUs, Pair(Q_NO, Q_WANTNO_OP, [VWont], []));
    a := ExecOne(s, a, DeliverToHim, Pair(Q_NO, Q_WANTYES, [], []));
  }

  lemma AgreedThenAsked() returns (a: seq<Action>)
    ensures a == [AskWill] + [DeliverToHim] + [DeliverToUs] + [AskDont] + [AskDo]
    ensures Exec(Support(true, true), a).pair == Pair(Q_YES, Q_WANTNO_OP, [], [VDont])
  {
    var s := Support(true, true);
    PlusNothing([AskWill]);
    a := ExecOne(s, [], AskWill, Pair(Q_WANTYES, Q_NO, [VWill], []));
    a := ExecOne(s, a, DeliverToHim, Pair(Q_WANTYES, Q_YES, [], [VDo]));
    a := ExecOne(s, a, DeliverToUs, Pair(Q_YES, Q_YES, [], []));
    a := ExecOne(s, a, AskDont, Pair(Q_YES, Q_WANTNO, [], [VDont]));
    a := ExecOne(s, a, AskDo, Pair(Q_YES, Q_WANTNO_OP, [], [VDont]));
  }

  lemma ExecOne(s: Support, acts: seq<Action>, a: Action, p: Pair) returns (all: seq<Action>)
    requires Next(Exec(s, acts).pair, s, a).pair == p
    ensures all == acts + [a] && Exec(s, all).pair == p
  {
    all := acts + [a];
    ExecSnoc(s, acts, a);
  }

  // ----- No negotiation loop -----

  /** Messages still to come from what has already been asked. */
  function Debt(p: Pair): nat {
    (if Queued(p.us) then 2 else 0) + (if Queued(p.him) then 2 else 0)
    + (if Waiting(p.us) && p.toUs == [] then 1 else 0) + (if Waiting(p.him) && p.toHim == [] then 1 else 0)
  }

  function Measure(p: Pair): nat {
    2 * Debt(p) + |p.toHim| + |p.toUs|
  }

  lemma DebtStep(p: Pair, s: Support, a: Action)
    requires Matched(p) || Orphaned(p)
    ensures var m := Next(p, s, a);
            m.sent + Debt(m.pair) <= Debt(p) + if IsRequest(a) then 2 else 0
  {
    if Delivers(p, a) { DebtPaid(p, s, a); }
  }

  lemma DebtPaid(p: Pair, s: Support, a: Action)
    requires (Matched(p) || Orphaned(p)) && Delivers(p, a)
    ensures var m := Next(p, s, a); m.sent + Debt(m.pair) <= Debt(p)
  {
    if a.DeliverToUs? { DebtPaidToUs(p, s); } else { DebtPaidToHim(p, s); }
  }

  lemma DebtPaidToUs(p: Pair, s: Support)
    requires (Matched(p) || Orphaned(p)) && p.toUs != []
    ensures var m := Next(p, s, DeliverToUs); m.sent + Debt(m.pair) <= Debt(p)
  {
    if Matched(p) { MatchedPaysUs(p, s); } else { OrphanedPaysUs(p, s); }
  }

  lemma DebtPaidToHim(p: Pair, s: Support)
    requires (Matched(p) || Orphaned(p)) && p.toHim != []
    ensures var m := Next(p, s, DeliverToHim); m.sent + Debt(m.pair) <= Debt(p)
  {
    if Matched(p) { MatchedPaysHim(p, s); } else { OrphanedPaysHim(p, s); }
  }

  lemma MatchedPaysUs(p: Pair, s: Support)
    requires Matched(p) && p.toUs != []
    ensures var m := Next(p, s, DeliverToUs); m.sent + Debt(m.pair) <= Debt(p)
  {
  }

  lemma OrphanedPaysUs(p: Pair, s: Support)
    requires Orphaned(p) && p.toUs != []
    ensures var m := Next(p, s, DeliverToUs); m.sent + Debt(m.pair) <= Debt(p)
  {
  }

  lemma MatchedPaysHim(p: Pair, s: Support)
    requires Matched(p) && p.toHim != []
    ensures var m := Next(p, s, DeliverToHim); m.sent + Debt(m.pair) <= Debt(p)
  {
  }

  lemma OrphanedPaysHim(p: Pair, s: Support)
    requires Orphaned(p) && p.toHim != []
    ensures var m := Next(p, s, DeliverToHim); m.sent + Debt(m.pair) <= Debt(p)
  {
  }

  /** A delivery takes one message out and puts in what is sent. */
  lemma InFlight(p: Pair, s: Support, a: Action)
    requires Delivers(p, a)
    ensures var m := Next(p, s, a); |m.pair.toHim| + |m.pair.toUs| == |p.toHim| + |p.toUs| - 1 + m.sent
  {
  }

  lemma MeasureStep(p: Pair, s: Support, a: Action)
    requires (Matched(p) || Orphaned(p)) && Delivers(p, a)
    ensures Measure(Next(p, s, a).pair) < Measure(p)
  {
    DebtPaid(p, s, a);
    InFlight(p, s, a);
  }

  /** In every run, disciplined or not, at most two messages are sent per request. */
  lemma {:induction false} TwoMessagesPerRequest(s: Support, acts: seq<Action>)
    ensures var h := Exec(s, acts); h.sent + Debt(h.pair) <= 2 * h.requests
  {
    if acts != [] {
      var init := acts[..|acts| - 1];
      TwoMessagesPerRequest(s, init);
      Reachable(s, init);
      DebtStep(Exec(s, init).pair, s, acts[|acts| - 1]);
    }
  }

  /** Every action of `more` takes a message out of a channel. */
  predicate OnlyDeliveries(s: Support, acts: seq<Action>, more: seq<Action>) {
    more == [] ||
    (OnlyDeliveries(s, acts, more[..|more| - 1])
     && Delivers(Exec(s, acts + more[..|more| - 1]).pair, more[|more| - 1]))
  }

  lemma DeliveryLowers(s: Support, before: seq<Action>, a: Action, all: seq<Action>)
    requires Delivers(Exec(s, before).pair, a) && all == before + [a]
    ensures Measure(Exec(s, all).pair) < Measure(Exec(s, before).pair)
  {
    Reachable(s, before);
    MeasureStep(Exec(s, before).pair, s, a);
    ExecSnoc(s, before, a);
  }

  /** Once requests stop, deliveries run out: after any run at most Measure more are
      possible, and any order of delivering reaches silence. */
  lemma {:induction false} DeliveriesRunOut(s: Support, acts: seq<Action>, more: seq<Action>)
    requires OnlyDeliveries(s, acts, more)
    ensures |more| + Measure(Exec(s, acts + more).pair) <= Measure(Exec(s, acts).pair)
    ensures |more| == Measure(Exec(s, acts).pair) ==> Quiet(Exec(s, acts + more).pair)
  {
    if more == [] {
      assert acts + more == acts;
    } else {
      var init, a := more[..|more| - 1], more[|more| - 1];
      DeliveriesRunOut(s, acts, init);
      Unsnoc(more);
      Assoc(acts, init, [a]);
      DeliveryLowers(s, acts + init, a, acts + more);
    }
  }
}
