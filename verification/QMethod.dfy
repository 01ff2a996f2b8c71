/** Option negotiation: the packed six-state bytes of libtelnet.c, and the proof
    that they are the Q Method of section 7 of RFC 1143. */
module QMethod {
  import opened Bytes
  import opened Events

  const Q_NO: byte := 0
  const Q_YES: byte := 1
  const Q_WANTNO: byte := 2
  const Q_WANTYES: byte := 3
  const Q_WANTNO_OP: byte := 4
  const Q_WANTYES_OP: byte := 5

  /** One side of an option: the low or the high nibble of its byte. */
  type nibble = n: byte | n < 16

  function QUs(q: byte): nibble { q % 16 }

  function QHim(q: byte): nibble { q / 16 }

  function QMake(us: nibble, him: nibble): (q: byte)
    ensures QUs(q) == us && QHim(q) == him
  {
    us + 16 * him
  }

  /** The support table the application supplies: bit 1 local, bit 0 remote. */
  type ByteTable = s: seq<byte> | |s| == 256 witness seq(256, _ => 0)

  datatype Telopts = NoTable | Table(entries: ByteTable)

  predicate SupportsLocal(t: Telopts, telopt: byte) {
    t.Table? && t.entries[telopt] / 2 % 2 == 1
  }

  predicate SupportsRemote(t: Telopts, telopt: byte) {
    t.Table? && t.entries[telopt] % 2 == 1
  }

  // ----- One side, one stimulus -----

  /** The new state, the verb sent back, the verb the application is told about, and
      whether it is also warned that its request was answered backwards. */
  datatype Reaction = Reaction(next: nibble, reply: Option<Verb>, notice: Option<Verb>, warned: bool)

  function HearWill(him: nibble, supported: bool): Reaction {
    if him == Q_NO then
      if supported then Reaction(Q_YES, Some(VDo), Some(VWill), false)
      else Reaction(Q_NO, Some(VDont), None, false)
    else if him == Q_WANTNO then Reaction(Q_NO, None, Some(VWont), true)
    else if him == Q_WANTNO_OP then Reaction(Q_YES, None, Some(VWill), true)
    else if him == Q_WANTYES then Reaction(Q_YES, None, Some(VWill), false)
    else if him == Q_WANTYES_OP then Reaction(Q_WANTNO, Some(VDont), Some(VWill), false)
    else Reaction(him, None, None, false)
  }

  /** In Q_WANTNO_OP the source raises a DO event and moves to Q_WANTYES but sends nothing. */
  function HearWont(him: nibble): Reaction {
    if him == Q_YES then Reaction(Q_NO, Some(VDont), Some(VWont), false)
    else if him == Q_WANTNO then Reaction(Q_NO, None, Some(VWont), false)
    else if him == Q_WANTNO_OP then Reaction(Q_WANTYES, None, Some(VDo), false)
    else if him == Q_WANTYES || him == Q_WANTYES_OP then Reaction(Q_NO, None, None, false)
    else Reaction(him, None, None, false)
  }

  function HearDo(us: nibble, supported: bool): Reaction {
    if us == Q_NO then
      if supported then Reaction(Q_YES, Some(VWill), Some(VDo), false)
      else Reaction(Q_NO, Some(VWont), None, false)
    else if us == Q_WANTNO then Reaction(Q_NO, None, Some(VDont), true)
    else if us == Q_WANTNO_OP then Reaction(Q_YES, None, Some(VDo), true)
    else if us == Q_WANTYES then Reaction(Q_YES, None, Some(VDo), false)
    else if us == Q_WANTYES_OP then Reaction(Q_WANTNO, Some(VWont), Some(VDo), false)
    else Reaction(us, None, None, false)
  }

  function HearDont(us: nibble): Reaction {
    if us == Q_YES then Reaction(Q_NO, Some(VWont), Some(VDont), false)
    else if us == Q_WANTNO then Reaction(Q_NO, None, Some(VWont), false)
    else if us == Q_WANTNO_OP then Reaction(Q_WANTYES, Some(VWill), Some(VWill), false)
    else if us == Q_WANTYES || us == Q_WANTYES_OP then Reaction(Q_NO, None, None, false)
    else Reaction(us, None, None, false)
  }

  /** The application asks for a side to be enabled; `verb` is WILL for us, DO for him. */
  function AskOn(side: nibble, verb: Verb): Reaction {
    if side == Q_NO then Reaction(Q_WANTYES, Some(verb), None, false)
    else if side == Q_WANTNO then Reaction(Q_WANTNO_OP, None, None, false)
    else if side == Q_WANTYES_OP then Reaction(Q_WANTYES, None, None, false)
    else Reaction(side, None, None, false)
  }

  /** The application asks for a side to be disabled; `verb` is WONT for us, DONT for him. */
  function AskOff(side: nibble, verb: Verb): Reaction {
    if side == Q_YES then Reaction(Q_WANTNO, Some(verb), None, false)
    else if side == Q_WANTYES then Reaction(Q_WANTYES_OP, None, None, false)
    else if side == Q_WANTNO_OP then Reaction(Q_WANTNO, None, None, false)
    else Reaction(side, None, None, false)
  }

  // ----- A whole table -----

  datatype Stimulus =
    | Hear(verb: Verb, telopt: byte)   // received from the peer (_negotiate)
    | Ask(verb: Verb, telopt: byte)    // requested by the application (telnet_negotiate)

  /** Does this verb concern the side we perform? DO and DONT do when they are heard,
      WILL and WONT when the application asks. */
  predicate ForUs(x: Stimulus) {
    match x
    case Hear(v, _) => v.VDo? || v.VDont?
    case Ask(v, _) => v.VWill? || v.VWont?
  }

  /** The reaction of the side concerned. */
  function SideReaction(q: byte, telopts: Telopts, x: Stimulus): Reaction {
    match x
    case Hear(VWill, o) => HearWill(QHim(q), SupportsRemote(telopts, o))
    case Hear(VWont, _) => HearWont(QHim(q))
    case Hear(VDo, o) => HearDo(QUs(q), SupportsLocal(telopts, o))
    case Hear(VDont, _) => HearDont(QUs(q))
    case Ask(VWill, _) => AskOn(QUs(q), VWill)
    case Ask(VWont, _) => AskOff(QUs(q), VWont)
    case Ask(VDo, _) => AskOn(QHim(q), VDo)
    case Ask(VDont, _) => AskOff(QHim(q), VDont)
  }

  /** The byte with one side replaced. */
  function WithSide(q: byte, forUs: bool, n: nibble): byte {
    if forUs then QMake(n, QHim(q)) else QMake(QUs(q), n)
  }

  function React(table: ByteTable, telopts: Telopts, x: Stimulus): (ByteTable, Reaction) {
    var q := table[x.telopt];
    var r := SideReaction(q, telopts, x);
    (table[x.telopt := WithSide(q, ForUs(x), r.next)], r)
  }

  datatype Msg = Msg(verb: Verb, telopt: byte)

  function Replies(r: Reaction, telopt: byte): seq<Msg> {
    if r.reply.Some? then [Msg(r.reply.value, telopt)] else []
  }

  /** The table and the messages sent after a list of stimuli. */
  function TableRun(table: ByteTable, telopts: Telopts, xs: seq<Stimulus>): (ByteTable, seq<Msg>) {
    if xs == [] then (table, []) else
      var (t, sent) := TableRun(table, telopts, xs[..|xs| - 1]);
      var x := xs[|xs| - 1];
      var (t', r) := React(t, telopts, x);
      (t', sent + Replies(r, x.telopt))
  }

  /** The one cell where the source departs from the RFC. */
  predicate UnsentDo(q: byte, x: Stimulus) {
    x.Hear? && x.verb == VWont && QHim(q) == Q_WANTNO_OP
  }

  /** How often a run meets that cell. */
  function UnsentDos(table: ByteTable, telopts: Telopts, xs: seq<Stimulus>): nat {
    if xs == [] then 0 else
      var (t, _) := TableRun(table, telopts, xs[..|xs| - 1]);
      var x := xs[|xs| - 1];
      UnsentDos(table, telopts, xs[..|xs| - 1]) + if UnsentDo(t[x.telopt], x) then 1 else 0
  }

  // ----- Section 7 of RFC 1143 -----

  datatype RfcState = No | Yes | WantNo | WantYes

  datatype RfcQueue = Empty | Opposite

  datatype RfcSide = RfcSide(state: RfcState, queue: RfcQueue)

  /** `send` is Some(true) for the enabling verb (DO, WILL), Some(false) for the
      disabling one (DONT, WONT). */
  datatype RfcStep = RfcStep(side: RfcSide, send: Option<bool>, error: bool)

  /** The peer's WILL (enable) or WONT for his side; DO or DONT for ours. */
  function RfcHear(s: RfcSide, enable: bool, agree: bool): RfcStep {
    match (s.state, enable)
    case (No, true) => if agree then RfcStep(RfcSide(Yes, Empty), Some(true), false)
                       else RfcStep(s, Some(false), false)
    case (Yes, true) => RfcStep(s, None, false)
    case (WantNo, true) => RfcStep(RfcSide(if s.queue.Empty? then No else Yes, Empty), None, true)
    case (WantYes, true) => if s.queue.Empty? then RfcStep(RfcSide(Yes, Empty), None, false)
                            else RfcStep(RfcSide(WantNo, Empty), Some(false), false)
    case (No, false) => RfcStep(s, None, false)
    case (Yes, false) => RfcStep(RfcSide(No, Empty), Some(false), false)
    case (WantNo, false) => if s.queue.Empty? then RfcStep(RfcSide(No, Empty), None, false)
                            else RfcStep(RfcSide(WantYes, Empty), Some(true), false)
    case (WantYes, false) => RfcStep(RfcSide(No, Empty), None, false)
  }

  /** "If we decide to ask him to enable" or to disable; redundant requests change nothing. */
  function RfcAsk(s: RfcSide, enable: bool): RfcStep {
    match (s.state, enable)
    case (No, true) => RfcStep(RfcSide(WantYes, Empty), Some(true), false)
    case (Yes, true) => RfcStep(s, None, false)
    case (WantNo, true) => RfcStep(RfcSide(WantNo, Opposite), None, false)
    case (WantYes, true) => RfcStep(RfcSide(WantYes, Empty), None, false)
    case (No, false) => RfcStep(s, None, false)
    case (Yes, false) => RfcStep(RfcSide(WantNo, Empty), Some(false), false)
    case (WantNo, false) => RfcStep(RfcSide(WantNo, Empty), None, false)
    case (WantYes, false) => RfcStep(RfcSide(WantYes, Opposite), None, false)
  }

  datatype RfcOption = RfcOption(us: RfcSide, him: RfcSide)

  type RfcTable = s: seq<RfcOption> | |s| == 256
    witness seq(256, _ => RfcOption(RfcSide(No, Empty), RfcSide(No, Empty)))

  predicate Enables(v: Verb) { v.VWill? || v.VDo? }

  function RfcSideStep(o: RfcOption, telopts: Telopts, x: Stimulus): RfcStep {
    var side := if ForUs(x) then o.us else o.him;
    match x
    case Hear(v, telopt) =>
      RfcHear(side, Enables(v), if ForUs(x) then SupportsLocal(telopts, telopt) else SupportsRemote(telopts, telopt))
    case Ask(v, _) => RfcAsk(side, Enables(v))
  }

  function RfcVerb(forUs: bool, enable: bool): Verb {
    if forUs then if enable then VWill else VWont
    else if enable then VDo else VDont
  }

  /** One stimulus of the RFC's machine. */
  function RfcNext(t: RfcTable, telopts: Telopts, x: Stimulus): (RfcTable, seq<Msg>) {
    var o := t[x.telopt];
    var s := RfcSideStep(o, telopts, x);
    (t[x.telopt := if ForUs(x) then o.(us := s.side) else o.(him := s.side)],
     if s.send.Some? then [Msg(RfcVerb(ForUs(x), s.send.value), x.telopt)] else [])
  }

  function RfcRun(table: RfcTable, telopts: Telopts, xs: seq<Stimulus>): (RfcTable, seq<Msg>) {
    if xs == [] then (table, []) else
      var (t, sent) := RfcRun(table, telopts, xs[..|xs| - 1]);
      var (t', more) := RfcNext(t, telopts, xs[|xs| - 1]);
      (t', sent + more)
  }

  // ----- Refinement -----

  function SideOf(n: nibble): RfcSide {
    if n == Q_YES then RfcSide(Yes, Empty)
    else if n == Q_WANTNO then RfcSide(WantNo, Empty)
    else if n == Q_WANTYES then RfcSide(WantYes, Empty)
    else if n == Q_WANTNO_OP then RfcSide(WantNo, Opposite)
    else if n == Q_WANTYES_OP then RfcSide(WantYes, Opposite)
    else RfcSide(No, Empty)
  }

  function OptionOf(q: byte): RfcOption {
    RfcOption(SideOf(QUs(q)), SideOf(QHim(q)))
  }

  /** Both nibbles hold one of the six states. */
  predicate SixStates(q: byte) {
    QUs(q) <= Q_WANTYES_OP && QHim(q) <= Q_WANTYES_OP
  }

  ghost predicate TableSixStates(t: ByteTable) {
    forall o :: 0 <= o < 256 ==> SixStates(t[o])
  }

  function TableOf(t: ByteTable): RfcTable {
    seq(256, o requires 0 <= o < 256 => OptionOf(t[o]))
  }

  predicate Agrees(r: Reaction, s: RfcStep, forUs: bool) {
    && r.next <= Q_WANTYES_OP
    && SideOf(r.next) == s.side
    && r.warned == s.error
    && r.reply == if s.send.Some? then Some(RfcVerb(forUs, s.send.value)) else None
  }

  lemma HearAgrees(n: nibble, agree: bool)
    requires n <= Q_WANTYES_OP
    ensures Agrees(HearWill(n, agree), RfcHear(SideOf(n), true, agree), false)
    ensures Agrees(HearDo(n, agree), RfcHear(SideOf(n), true, agree), true)
    ensures Agrees(HearDont(n), RfcHear(SideOf(n), false, agree), true)
    ensures n != Q_WANTNO_OP ==> Agrees(HearWont(n), RfcHear(SideOf(n), false, agree), false)
  {
  }

  lemma AskAgrees(n: nibble, on: Verb, off: Verb, forUs: bool)
    requires n <= Q_WANTYES_OP && on == RfcVerb(forUs, true) && off == RfcVerb(forUs, false)
    ensures Agrees(AskOn(n, on), RfcAsk(SideOf(n), true), forUs)
    ensures Agrees(AskOff(n, off), RfcAsk(SideOf(n), false), forUs)
  {
  }

  /** One stimulus: the same RFC state, the same error, and the same message unless
      this is the cell where the source does not send DO. */
  lemma SideRefines(q: byte, telopts: Telopts, x: Stimulus)
    requires SixStates(q)
    ensures var r, s := SideReaction(q, telopts, x), RfcSideStep(OptionOf(q), telopts, x);
            if UnsentDo(q, x) then
              r.next == Q_WANTYES && SideOf(r.next) == s.side && r.reply == None && s.send == Some(true)
            else Agrees(r, s, ForUs(x))
  {
    var n := if ForUs(x) then QUs(q) else QHim(q);
    match x
    case Ask(v, _) =>
      AskAgrees(n, RfcVerb(ForUs(x), true), RfcVerb(ForUs(x), false), ForUs(x));
    case Hear(v, o) =>
      HearAgrees(n, if ForUs(x) then SupportsLocal(telopts, o) else SupportsRemote(telopts, o));
  }

  lemma TableOfUpdate(t: ByteTable, o: byte, q: byte)
    requires TableSixStates(t) && SixStates(q)
    ensures TableSixStates(t[o := q])
    ensures TableOf(t)[o] == OptionOf(t[o]) && TableOf(t[o := q]) == TableOf(t)[o := OptionOf(q)]
  {
  }

  lemma WithSideRefines(q: byte, forUs: bool, n: nibble)
    requires SixStates(q) && n <= Q_WANTYES_OP
    ensures SixStates(WithSide(q, forUs, n))
    ensures OptionOf(WithSide(q, forUs, n))
         == if forUs then OptionOf(q).(us := SideOf(n)) else OptionOf(q).(him := SideOf(n))
  {
  }

  /** The table after one stimulus. */
  lemma TableRefines(t: ByteTable, telopts: Telopts, x: Stimulus)
    requires TableSixStates(t)
    ensures var t' := React(t, telopts, x).0;
            TableSixStates(t') && TableOf(t') == RfcNext(TableOf(t), telopts, x).0
  {
    var q := t[x.telopt];
    var r := SideReaction(q, telopts, x);
    SideRefines(q, telopts, x);
    WithSideRefines(q, ForUs(x), r.next);
    TableOfUpdate(t, x.telopt, WithSide(q, ForUs(x), r.next));
    assert React(t, telopts, x).0 == t[x.telopt := WithSide(q, ForUs(x), r.next)];
  }

  /** The messages of one stimulus. */
  lemma RepliesRefine(q: byte, telopts: Telopts, x: Stimulus)
    requires SixStates(q)
    ensures var replies := Replies(SideReaction(q, telopts, x), x.telopt);
            var s := RfcSideStep(OptionOf(q), telopts, x);
            var sent := if s.send.Some? then [Msg(RfcVerb(ForUs(x), s.send.value), x.telopt)] else [];
            if UnsentDo(q, x) then replies == [] && |sent| == 1 else replies == sent
  {
    SideRefines(q, telopts, x);
  }

  lemma ReactRefines(t: ByteTable, telopts: Telopts, x: Stimulus)
    requires TableSixStates(t)
    ensures var (t', r) := React(t, telopts, x);
            var (rt', rsent) := RfcNext(TableOf(t), telopts, x);
            && TableSixStates(t') && TableOf(t') == rt'
            && (if UnsentDo(t[x.telopt], x) then Replies(r, x.telopt) == [] && |rsent| == 1
                else Replies(r, x.telopt) == rsent)
  {
    TableRefines(t, telopts, x);
    RepliesRefine(t[x.telopt], telopts, x);
    assert TableOf(t)[x.telopt] == OptionOf(t[x.telopt]);
  }

  lemma SentSoFar(sent: seq<Msg>, rsent: seq<Msg>, n: nat, m: seq<Msg>, rm: seq<Msg>, k: nat)
    requires |rsent| == |sent| + n && (sent == rsent <==> n == 0)
    requires if k == 0 then m == rm else k == 1 && m == [] && |rm| == 1
    ensures |rsent + rm| == |sent + m| + (n + k) && (sent + m == rsent + rm <==> n + k == 0)
  {
  }

  /** Over every sequence of received verbs and application requests the six-state bytes
      simulate the us/usq and him/himq variables of RFC 1143, and the messages are those of
      the RFC exactly when no WONT is heard in Q_WANTNO_OP; each such WONT costs one DO. */
  lemma {:induction false} RefinesRfc1143(table: ByteTable, telopts: Telopts, xs: seq<Stimulus>)
    requires TableSixStates(table)
    ensures var (t, sent) := TableRun(table, telopts, xs);
            var (rt, rsent) := RfcRun(TableOf(table), telopts, xs);
            && TableSixStates(t)
            && TableOf(t) == rt
            && |rsent| == |sent| + UnsentDos(table, telopts, xs)
            && (sent == rsent <==> UnsentDos(table, telopts, xs) == 0)
  {
    if xs != [] {
      var init, x := xs[..|xs| - 1], xs[|xs| - 1];
      RefinesRfc1143(table, telopts, init);
      var (t, sent) := TableRun(table, telopts, init);
      var (rt, rsent) := RfcRun(TableOf(table), telopts, init);
      ReactRefines(t, telopts, x);
      SentSoFar(sent, rsent, UnsentDos(table, telopts, init), Replies(React(t, telopts, x).1, x.telopt),
                RfcNext(rt, telopts, x).1, if UnsentDo(t[x.telopt], x) then 1 else 0);
    }
  }

  /** A stimulus for one option leaves every other option's byte alone, and leaves alone
      the side it does not concern. */
  lemma {:induction false} TableRunFrame(table: ByteTable, telopts: Telopts, xs: seq<Stimulus>, o: byte)
    ensures var t := TableRun(table, telopts, xs).0;
            && ((forall x :: x in xs && ForUs(x) ==> x.telopt != o) ==> QUs(t[o]) == QUs(table[o]))
            && ((forall x :: x in xs && !ForUs(x) ==> x.telopt != o) ==> QHim(t[o]) == QHim(table[o]))
  {
    if xs != [] {
      var init, x := xs[..|xs| - 1], xs[|xs| - 1];
      assert xs == init + [x];
      TableRunFrame(table, telopts, init, o);
    }
  }

  /** The event a received verb must raise, from the state of its side before and after:
      0 NO, 1 YES, 2 WANTNO, 3 WANTYES, 4 WANTNO_OP, 5 WANTYES_OP. */
  function Notice(v: Verb, before: byte, after: byte): Option<Verb> {
    match v
    case VWill => if after == before then None else Some(if after == 0 then VWont else VWill)
    case VDo => if after == before then None else Some(if after == 0 then VDont else VDo)
    case VWont => if after == before || before == 3 || before == 5 then None
                  else Some(if after == 3 then VDo else VWont)
    case VDont => if before == 1 then Some(VDont) else if before == 2 then Some(VWont)
                  else if before == 4 then Some(VWill) else None
  }

  /** A request "answered by" the opposite verb is what draws a warning. */
  predicate Backwards(v: Verb, before: byte) { (v.VWill? || v.VDo?) && (before == 2 || before == 4) }

  /** Every cell of the table raises that event, and warns exactly where an enabling verb is
      heard in WANTNO or WANTNO_OP. */
  lemma NoticeIs(q: byte, telopts: Telopts, v: Verb, o: byte)
    ensures var r := SideReaction(q, telopts, Hear(v, o));
            var before := if v.VWill? || v.VWont? then QHim(q) else QUs(q);
            r.notice == Notice(v, before, r.next) && (r.warned <==> Backwards(v, before))
  {
    match v
    case VWill =>
    case VWont =>
    case VDo =>
    case VDont =>
  }

  /** A request of the application is never reported back to it, nor warned about. */
  lemma AskIsSilent(q: byte, telopts: Telopts, v: Verb, o: byte)
    ensures var r := SideReaction(q, telopts, Ask(v, o)); r.notice == None && !r.warned
  {
    match v
    case VWill =>
    case VWont =>
    case VDo =>
    case VDont =>
  }

  /** Where a notice names another verb than the one heard. */
  lemma NoticeNamesVerb(q: byte, telopts: Telopts, v: Verb, o: byte)
    ensures var r := SideReaction(q, telopts, Hear(v, o));
            var before := if v.VWill? || v.VWont? then QHim(q) else QUs(q);
            r.notice.Some? ==>
              (r.notice.value == v <==>
               !((before == 2 && v != VWont) || (before == 4 && (v == VWont || v == VDont))))
  {
    match v
    case VWill =>
    case VWont =>
    case VDo =>
    case VDont =>
  }

  /** Whenever a received verb switches an option on or off, the application is told so: WILL
      and WONT for the peer's side, DO and DONT for ours. */
  lemma EveryChangeIsTold(q: byte, telopts: Telopts, v: Verb, o: byte)
    ensures var x := Hear(v, o);
            var before, r := if ForUs(x) then QUs(q) else QHim(q), SideReaction(q, telopts, x);
            && (before != Q_YES && r.next == Q_YES ==> r.notice == Some(if ForUs(x) then VDo else VWill))
            && (before == Q_YES && r.next != Q_YES ==> r.notice == Some(if ForUs(x) then VDont else VWont))
            && (r.notice.None? ==> (before == Q_YES <==> r.next == Q_YES))
  {
    match v
    case VWill =>
    case VWont =>
    case VDo =>
    case VDont =>
  }

  /** The departure is real: two requests and one answer make the wires differ. */
  lemma UnsentDoWitness()
    ensures var table: ByteTable := seq(256, _ => QMake(Q_NO, Q_YES));
            var xs := [Ask(VDont, 1), Ask(VDo, 1), Hear(VWont, 1)];
            TableRun(table, NoTable, xs).1 == [Msg(VDont, 1)]
            && RfcRun(TableOf(table), NoTable, xs).1 == [Msg(VDont, 1), Msg(VDo, 1)]
  {
    var table: ByteTable := seq(256, _ => QMake(Q_NO, Q_YES));
    var a, b, c := Ask(VDont, 1), Ask(VDo, 1), Hear(VWont, 1);
    assert [a, b, c][..2] == [a, b] && [a, b][..1] == [a] && [a][..0] == [];
    assert TableRun(table, NoTable, []) == (table, []);
    assert RfcRun(TableOf(table), NoTable, []) == (TableOf(table), []);
    assert TableOf(table)[1] == OptionOf(table[1]);
    var (t1, s1) := TableRun(table, NoTable, [a]);
    assert t1[1] == QMake(Q_NO, Q_WANTNO);
    var (t2, s2) := TableRun(table, NoTable, [a, b]);
    assert t2[1] == QMake(Q_NO, Q_WANTNO_OP);
    var (r1, u1) := RfcRun(TableOf(table), NoTable, [a]);
    assert r1[1].him == RfcSide(WantNo, Empty);
    var (r2, u2) := RfcRun(TableOf(table), NoTable, [a, b]);
    assert r2[1].him == RfcSide(WantNo, Opposite);
  }
}
