/** What arrives of data and text, however the network cuts the wire. */
module Delivery {
  import opened Sequences
  import opened Bytes
  import opened Events
  import opened QMethod
  import opened Decoder
  import opened Encoder

  /** Reading `xs` takes `e` to `e'`, reports `out`, and never leaves the window behind. */
  predicate Goes(e: Engine, xs: seq<byte>, e': Engine, out: seq<Event>) {
    Run(e, false, xs) == Stepped(e', false, out) && Calm(e, xs)
  }

  lemma GoesNowhere(e: Engine)
    ensures Goes(e, [], e, [])
  {
  }

  lemma GoesOne(e: Engine, b: byte, e': Engine, out: seq<Event>)
    requires Step(e, false, b) == Stepped(e', false, out)
    ensures Goes(e, [b], e', out)
  {
    RunOne(e, false, b);
    assert [b][..0] == [];
  }

  lemma {:induction false} CalmConcat(e: Engine, x: seq<byte>, y: seq<byte>)
    requires Calm(e, x) && Calm(Run(e, false, x).engine, y)
    ensures Calm(e, x + y)
    decreases |y|
  {
    if y == [] {
      PlusNothing(x);
    } else {
      var init, b := y[..|y| - 1], y[|y| - 1];
      Unsnoc(y);
      Assoc(x, init, [b]);
      Snoc(x + init, b);
      CalmConcat(e, x, init);
      CalmEnd(e, x, y);
    }
  }

  lemma CalmEnd(e: Engine, x: seq<byte>, y: seq<byte>)
    requires Calm(e, x) && Calm(Run(e, false, x).engine, y) && y != []
    ensures !EndsOldCompress(e, x + y)
  {
    SkipsExactly(e, x);
    RunConcat(e, false, x, y);
    SkipsExactly(e, x + y);
    SkipsExactly(Run(e, false, x).engine, y);
  }

  lemma GoesOn(e: Engine, x: seq<byte>, e1: Engine, out1: seq<Event>, y: seq<byte>, e2: Engine, out2: seq<Event>)
    requires Goes(e, x, e1, out1) && Goes(e1, y, e2, out2)
    ensures Goes(e, x + y, e2, out1 + out2)
  {
    RunConcat(e, false, x, y);
    CalmConcat(e, x, y);
  }

  lemma IacGoes(e: Engine, e1: Engine, b: byte, e2: Engine, out: seq<Event>)
    requires Step(e, false, IAC) == Stepped(e1, false, []) && Step(e1, false, b) == Stepped(e2, false, out)
    ensures Goes(e, [IAC, b], e2, out)
  {
    GoesOne(e, IAC, e1, []);
    GoesOne(e1, b, e2, out);
    GoesOn(e, [IAC], e1, [], [b], e2, out);
    assert [IAC] + [b] == [IAC, b];
    PlusNothing(out);
  }

  /** A calm run delivers the same under every chunking. */
  lemma Delivered(e: Engine, cs: seq<seq<byte>>, e': Engine, out: seq<Event>)
    requires Goes(e, Flat(cs), e', out)
    ensures Chunks(e, cs) == Received(e', out)
  {
    AnyChunking(e, cs);
    assert out + [] == out;
  }

  // ----- Data -----

  lemma {:induction false} DataGoes(e: Engine, xs: seq<byte>)
    requires e.mode == InData && !Translates(e.flags)
    ensures Goes(e, Escape(xs), e, Singles(xs))
  {
    if xs == [] {
      GoesNowhere(e);
    } else {
      var init, b := xs[..|xs| - 1], xs[|xs| - 1];
      assert xs == init + [b];
      DataGoes(e, init);
      SinglesSnoc(init, b);
      EscapedByteGoes(e, b);
      GoesOn(e, Escape(init), e, Singles(init), EscapeByte(b), e, [Data([b])]);
    }
  }

  lemma EscapedByteGoes(e: Engine, b: byte)
    requires e.mode == InData && (b == IAC || IsPlain(e.flags, b))
    ensures Goes(e, EscapeByte(b), e, [Data([b])])
  {
    if b == IAC {
      IacGoes(e, e.(mode := InIac), IAC, e, [Data([IAC])]);
    } else {
      GoesOne(e, b, e, [Data([b])]);
    }
  }

  // ----- Text -----

  /** CR LF and CR NUL come back as one byte where the receiver translates. */
  lemma TextByteGoes(e: Engine, b: byte)
    requires e.mode == InData && Translates(e.flags)
    ensures Goes(e, TextByte(b, false), e, [Data([b])])
  {
    if b == CR || b == LF {
      var e1 := e.(mode := InEol);
      var second := if b == CR then NUL else LF;
      GoesOne(e, CR, e1, []);
      GoesOne(e1, second, e, [Data([b])]);
      GoesOn(e, [CR], e1, [], [second], e, [Data([b])]);
      assert [CR] + [second] == TextByte(b, false);
      assert [] + [Data([b])] == [Data([b])];
    } else {
      EscapedByteGoes(e, b);
    }
  }

  lemma {:induction false} TextGoes(e: Engine, xs: seq<byte>)
    requires e.mode == InData && Translates(e.flags)
    ensures Goes(e, EncodeText(xs, false), e, Singles(xs))
  {
    if xs == [] {
      GoesNowhere(e);
    } else {
      var init, b := xs[..|xs| - 1], xs[|xs| - 1];
      assert xs == init + [b];
      TextGoes(e, init);
      SinglesSnoc(init, b);
      TextByteGoes(e, b);
      GoesOn(e, EncodeText(init, false), e, Singles(init), TextByte(b, false), e, [Data([b])]);
    }
  }

  function ExpandedByte(b: byte): seq<byte> {
    if b == CR then [CR, NUL] else if b == LF then [CR, LF] else [b]
  }

  /** What a receiver that does not translate makes of translated text. */
  function Expanded(xs: seq<byte>): seq<byte> {
    if xs == [] then [] else Expanded(xs[..|xs| - 1]) + ExpandedByte(xs[|xs| - 1])
  }

  lemma ExpandedByteIs(b: byte)
    ensures TextByte(b, false) == Escape(ExpandedByte(b))
  {
    var s := ExpandedByte(b);
    EscapeSnoc([], s[0]);
    PlusNothing([s[0]]);
    PlusNothing(EscapeByte(s[0]));
    if |s| == 2 {
      EscapeSnoc([s[0]], s[1]);
      assert s == [s[0]] + [s[1]];
    }
  }

  lemma {:induction false} ExpandedLength(xs: seq<byte>)
    ensures |Expanded(xs)| == |xs| + Occurrences(xs, {CR, LF})
  {
    if xs != [] { ExpandedLength(xs[..|xs| - 1]); }
  }

  lemma {:induction false} ExpandedIs(xs: seq<byte>)
    ensures EncodeText(xs, false) == Escape(Expanded(xs))
  {
    if xs != [] {
      ExpandedIs(xs[..|xs| - 1]);
      ExpandedByteIs(xs[|xs| - 1]);
      EscapeConcat(Expanded(xs[..|xs| - 1]), ExpandedByte(xs[|xs| - 1]));
    }
  }

  lemma {:induction false} NothingExpands(xs: seq<byte>)
    requires Occurrences(xs, {CR, LF}) == 0
    ensures Expanded(xs) == xs
  {
    if xs != [] {
      NothingExpands(xs[..|xs| - 1]);
      Unsnoc(xs);
    }
  }

  /** Expansion changes the data exactly when there is something to expand. */
  lemma ExpandedSame(xs: seq<byte>)
    ensures Singles(Expanded(xs)) == Singles(xs) <==> CR !in xs && LF !in xs
  {
    ExpandedLength(xs);
    NoOccurrences(xs, {CR, LF});
    if Occurrences(xs, {CR, LF}) == 0 { NothingExpands(xs); }
    assert CR in {CR, LF} && LF in {CR, LF};
  }

  /** telnet_send_text with transmit BINARY off is delivered byte for byte, under every
      chunking, exactly when the receiver translates or the text has no CR and no LF. */
  lemma TextRoundTrip(e: Engine, xs: seq<byte>, cs: seq<seq<byte>>)
    requires e.mode == InData && Flat(cs) == EncodeText(xs, false)
    ensures Chunks(e, cs).engine == e
    ensures Chunks(e, cs).out == Singles(xs)
            <==> (e.flags.nvtEol && !e.flags.receiveBinary) || (13 !in xs && 10 !in xs)
  {
    if Translates(e.flags) {
      TextGoes(e, xs);
      Delivered(e, cs, e, Singles(xs));
    } else {
      ExpandedIs(xs);
      DataGoes(e, Expanded(xs));
      Delivered(e, cs, e, Singles(Expanded(xs)));
      ExpandedSame(xs);
    }
  }

  /** With BINARY on at both ends (the receiver then does not translate) text is delivered
      byte for byte whatever it holds. */
  lemma BinaryTextRoundTrip(e: Engine, xs: seq<byte>, cs: seq<seq<byte>>)
    requires e.mode == InData && e.flags.receiveBinary && Flat(cs) == EncodeText(xs, true)
    ensures Chunks(e, cs) == Received(e, Singles(xs))
  {
    BinaryTextIsData(xs);
    DataGoes(e, xs);
    Delivered(e, cs, e, Singles(xs));
  }

  // ----- Raw data at a receiver that translates line ends -----

  /** telnet_send does not encode line ends. Where the receiver translates them, it takes the
      byte after a CR for the CR's partner without looking at it. `Misread` follows a partner
      that cannot stand for itself: LF and NUL are merged with the CR, and an IAC leaves the
      other half of its pair behind. */
  datatype Ear = Between | AfterCr | Misread

  function Listen(xs: seq<byte>): Ear {
    if xs == [] then Between else
      var b := xs[|xs| - 1];
      match Listen(xs[..|xs| - 1])
      case Between => if b == CR then AfterCr else Between
      case AfterCr => if b == LF || b == NUL || b == IAC then Misread else Between
      case Misread => Misread
  }

  /** Every CR has a partner, and every partner can stand for itself. */
  predicate Plain(xs: seq<byte>) { Listen(xs).Between? }

  lemma {:induction false} NoCrIsPlain(xs: seq<byte>)
    requires CR !in xs
    ensures Plain(xs)
  {
    if xs != [] {
      Unsnoc(xs);
      NoCrIsPlain(xs[..|xs| - 1]);
    }
  }

  predicate OnlyData(es: seq<Event>) {
    forall ev :: ev in es ==> ev.Data?
  }

  /** Less was reported than was sent: `n` events for `k` bytes, all of them DATA. */
  predicate Behind(m: Mode, n: nat, k: nat) {
    n + (if m == InIac then 0 else if m == InEol then 2 else 1) <= k
  }

  predicate Lags(m: Mode, es: seq<Event>, k: nat) {
    OnlyData(es) ==> Behind(m, |es|, k)
  }

  lemma OnlyDataConcat(a: seq<Event>, b: seq<Event>)
    ensures OnlyData(a + b) <==> OnlyData(a) && OnlyData(b)
  {
    forall ev | OnlyData(a + b) && (ev in a || ev in b) ensures ev.Data? {
      assert ev in a + b;
    }
  }

  lemma NotOnlyData(e: Event, rest: seq<Event>)
    requires !e.Data?
    ensures !OnlyData([e] + rest)
  {
    assert e in [e] + rest;
  }

  lemma ReactionNotData(r: Reaction, o: byte)
    ensures OnlyData(ReactionEvents(r, o)) ==> ReactionEvents(r, o) == []
  {
    var es := ReactionEvents(r, o);
    if es != [] { assert es[0] in es && !es[0].Data?; }
  }

  lemma VerbLags(e: Engine, v: Verb, b: byte, n: nat, k: nat)
    requires Behind(InVerb(v), n, k)
    ensures OnlyData(StepVerb(e, v, b).out) ==> Behind(InData, n + |StepVerb(e, v, b).out|, k)
  {
    if e.flags.proxy {
      assert Negotiation(v, b) in [Negotiation(v, b)];
    } else {
      ReactionNotData(React(e.q, e.telopts, Hear(v, b)).1, b);
    }
  }

  lemma BufferingLags(e: Engine, b: byte, n: nat, k: nat)
    requires n + 1 <= k
    ensures var s := Buffering(e, b); OnlyData(s.out) ==> s.engine.mode == InSbData && Behind(InSbData, n + |s.out|, k)
  {
    assert Warning(BufferLimit) in [Warning(BufferLimit)];
  }

  lemma SubLags(e: Engine, b: byte)
    requires b != IAC
    ensures !OnlyData(StepSbDataIac(e, b).out)
  {
    var ended := SubEvents(e.sbTelopt, e.payload);
    NotOnlyData(Subnegotiation(e.sbTelopt, e.payload), PayloadEvents(e.sbTelopt, e.payload));
    NotOnlyData(Warning(StrayCommand), ended);
    OnlyDataConcat([Warning(StrayCommand)] + ended, StepIac(e.(mode := InIac, payload := []), b).out);
  }

  /** A byte other than IAC never catches up. */
  lemma ByteLags(e: Engine, skip: bool, b: byte, n: nat, k: nat)
    requires b != IAC && Behind(e.mode, n, k)
    ensures var s := Step(e, skip, b); OnlyData(s.out) ==> Behind(s.engine.mode, n + |s.out|, k + 1)
  {
    match e.mode
    case InData => assert Wrapped in [Wrapped];
    case InEol =>
    case InIac => if b != SB && b != WILL && b != WONT && b != DO && b != DONT { assert Iac(b) in [Iac(b)]; }
    case InVerb(v) => VerbLags(e, v, b, n, k);
    case InSb =>
    case InSbData => if !OldCompress(e, b) { BufferingLags(e, b, n, k); }
    case InSbDataIac => SubLags(e, b);
  }

  /** Nor does an escaped IAC. */
  lemma PairLags(e: Engine, skip: bool, n: nat, k: nat)
    requires Behind(e.mode, n, k)
    ensures var s := Step(e, skip, IAC);
            var t := Step(s.engine, s.skip, IAC);
            OnlyData(s.out) && OnlyData(t.out) ==> Behind(t.engine.mode, n + |s.out| + |t.out|, k + 1)
  {
    var s := Step(e, skip, IAC);
    match e.mode
    case InData => assert Wrapped in [Wrapped];
    case InEol =>
    case InIac =>
    case InVerb(v) => VerbLags(e, v, IAC, n, k);
    case InSb =>
    case InSbData => BufferingLags(s.engine, IAC, n, k);
    case InSbDataIac => BufferingLags(e, IAC, n, k);
  }

  lemma UnitLags(e: Engine, skip: bool, b: byte, n: nat, k: nat)
    requires Behind(e.mode, n, k)
    ensures var s := Run(e, skip, EscapeByte(b)); OnlyData(s.out) ==> Behind(s.engine.mode, n + |s.out|, k + 1)
  {
    if b == IAC {
      assert EscapeByte(b) == [IAC] + [IAC];
      RunCons(e, skip, IAC, [IAC]);
      var s := Step(e, skip, IAC);
      RunOne(s.engine, s.skip, IAC);
      PairLags(e, skip, n, k);
      OnlyDataConcat(s.out, Step(s.engine, s.skip, IAC).out);
    } else {
      RunOne(e, skip, b);
      ByteLags(e, skip, b, n, k);
    }
  }

  lemma StillLags(e: Engine, xs: seq<byte>, b: byte)
    requires var s := Run(e, false, Escape(xs)); Lags(s.engine.mode, s.out, |xs|)
    ensures var s := Run(e, false, Escape(xs + [b])); Lags(s.engine.mode, s.out, |xs + [b]|)
  {
    var s := Run(e, false, Escape(xs));
    EscapeSnoc(xs, b);
    RunConcat(e, false, Escape(xs), EscapeByte(b));
    OnlyDataConcat(s.out, Run(s.engine, s.skip, EscapeByte(b)).out);
    if OnlyData(s.out) { UnitLags(s.engine, s.skip, b, |s.out|, |xs|); }
  }

  /** What the receiver has reported and where it stands, by what it makes of the CRs. */
  ghost predicate Listened(e: Engine, xs: seq<byte>, ear: Ear) {
    match ear
    case Between => Goes(e, Escape(xs), e, Singles(xs))
    case AfterCr => xs != [] && xs[|xs| - 1] == CR && Goes(e, Escape(xs), e.(mode := InEol), Singles(xs[..|xs| - 1]))
    case Misread => Lags(Run(e, false, Escape(xs)).engine.mode, Run(e, false, Escape(xs)).out, |xs|)
  }

  lemma ListenBetween(e: Engine, xs: seq<byte>, b: byte)
    requires e.mode == InData && Translates(e.flags) && Listened(e, xs, Between)
    ensures Listened(e, xs + [b], if b == CR then AfterCr else Between)
  {
    EscapeSnoc(xs, b);
    Snoc(xs, b);
    if b == CR {
      GoesOne(e, CR, e.(mode := InEol), []);
      GoesOn(e, Escape(xs), e, Singles(xs), [CR], e.(mode := InEol), []);
      PlusNothing(Singles(xs));
    } else {
      SinglesSnoc(xs, b);
      EscapedByteGoes(e, b);
      GoesOn(e, Escape(xs), e, Singles(xs), EscapeByte(b), e, [Data([b])]);
    }
  }

  lemma SinglesPair(init: seq<byte>, a: byte, b: byte)
    ensures Singles(init + [a] + [b]) == Singles(init) + [Data([a]), Data([b])]
  {
    SinglesSnoc(init, a);
    SinglesSnoc(init + [a], b);
    Assoc(Singles(init), [Data([a])], [Data([b])]);
    assert [Data([a])] + [Data([b])] == [Data([a]), Data([b])];
  }

  /** The partner stands for itself: CR and partner are both reported. */
  lemma ListenPartner(e: Engine, init: seq<byte>, b: byte)
    requires e.mode == InData && b != LF && b != NUL && b != IAC
    requires Goes(e, Escape(init + [CR]), e.(mode := InEol), Singles(init))
    ensures Goes(e, Escape(init + [CR] + [b]), e, Singles(init + [CR] + [b]))
  {
    var e1, both := e.(mode := InEol), [Data([CR]), Data([b])];
    EscapeSnoc(init + [CR], b);
    GoesOne(e1, b, e, both);
    GoesOn(e, Escape(init + [CR]), e1, Singles(init), [b], e, both);
    SinglesPair(init, CR, b);
  }

  lemma MisreadUnit(e: Engine, b: byte)
    requires e.mode == InEol && (b == LF || b == NUL || b == IAC)
    ensures var s := Run(e, false, EscapeByte(b)); Behind(s.engine.mode, |s.out|, 2)
  {
    if b == IAC {
      var e' := e.(mode := InData);
      assert EscapeByte(b) == [IAC] + [IAC];
      RunCons(e, false, IAC, [IAC]);
      RunOne(e', false, IAC);
    } else {
      RunOne(e, false, b);
    }
  }

  lemma ListenMisread(e: Engine, init: seq<byte>, b: byte)
    requires e.mode == InData && (b == LF || b == NUL || b == IAC)
    requires Goes(e, Escape(init + [CR]), e.(mode := InEol), Singles(init))
    ensures Listened(e, init + [CR] + [b], Misread)
  {
    var e1 := e.(mode := InEol);
    EscapeSnoc(init + [CR], b);
    RunConcat(e, false, Escape(init + [CR]), EscapeByte(b));
    MisreadUnit(e1, b);
  }

  lemma ListenAfterCr(e: Engine, xs: seq<byte>, b: byte)
    requires e.mode == InData && Listened(e, xs, AfterCr)
    ensures Listened(e, xs + [b], if b == LF || b == NUL || b == IAC then Misread else Between)
  {
    Unsnoc(xs);
    if b == LF || b == NUL || b == IAC {
      ListenMisread(e, xs[..|xs| - 1], b);
    } else {
      ListenPartner(e, xs[..|xs| - 1], b);
    }
  }

  lemma {:induction false} ListensAs(e: Engine, xs: seq<byte>)
    requires e.mode == InData && Translates(e.flags)
    ensures Listened(e, xs, Listen(xs))
  {
    if xs == [] {
      GoesNowhere(e);
    } else {
      var init, b := xs[..|xs| - 1], xs[|xs| - 1];
      Unsnoc(xs);
      ListensAs(e, init);
      match Listen(init)
      case Between => ListenBetween(e, init, b);
      case AfterCr => ListenAfterCr(e, init, b);
      case Misread => StillLags(e, init, b);
    }
  }

  /** telnet_send's bytes arrive as they are and leave the receiver between messages, however
      the network cuts them, exactly when the receiver does not translate line ends or the
      bytes are plain. */
  lemma DataRoundTrip(e: Engine, xs: seq<byte>)
    requires e.mode == InData
    ensures (forall cs :: Flat(cs) == Escape(xs) ==> Chunks(e, cs) == Received(e, Singles(xs)))
            <==> !e.flags.nvtEol || e.flags.receiveBinary || Plain(xs)
  {
    if !Translates(e.flags) || Plain(xs) {
      if Translates(e.flags) { ListensAs(e, xs); } else { DataGoes(e, xs); }
      forall cs | Flat(cs) == Escape(xs) ensures Chunks(e, cs) == Received(e, Singles(xs)) {
        Delivered(e, cs, e, Singles(xs));
      }
    } else {
      NotPlain(e, xs);
    }
  }

  lemma OneChunk(e: Engine, c: seq<byte>)
    ensures Flat([c]) == c && Chunks(e, [c]) == Chunk(e, c)
  {
    assert [c][..0] == [];
    PlusNothing(c);
    PlusNothing(Chunk(e, c).out);
  }

  lemma MisheardRun(e: Engine, xs: seq<byte>)
    requires e.mode == InData && Translates(e.flags) && !Plain(xs)
    ensures Run(e, false, Escape(xs)).engine == e ==> Run(e, false, Escape(xs)).out != Singles(xs)
  {
    ListensAs(e, xs);
    if Listen(xs).Misread? && Run(e, false, Escape(xs)).out == Singles(xs) { LagShows(e.mode, xs, |xs|); }
  }

  lemma LagShows(m: Mode, xs: seq<byte>, k: nat)
    requires m == InData && k == |xs|
    ensures !Lags(m, Singles(xs), k)
  {
  }

  lemma FlushedLast(a: seq<Event>)
    ensures !OnlyData(a + [Wrapped])
  {
    var ev := (a + [Wrapped])[|a|];
    assert ev == Wrapped && ev in a + [Wrapped] && !ev.Data?;
  }

  lemma FlushKeepsApart(r: Stepped, out: seq<Event>)
    requires r.out != out && OnlyData(out)
    ensures r.out + Tail(r.skip) != out
  {
    if r.skip { FlushedLast(r.out); } else { PlusNothing(r.out); }
  }

  lemma NotPlain(e: Engine, xs: seq<byte>)
    requires e.mode == InData && Translates(e.flags) && !Plain(xs)
    ensures Flat([Escape(xs)]) == Escape(xs) && Chunks(e, [Escape(xs)]) != Received(e, Singles(xs))
  {
    var r := Run(e, false, Escape(xs));
    OneChunk(e, Escape(xs));
    MisheardRun(e, xs);
    assert OnlyData(Singles(xs));
    if r.engine == e { FlushKeepsApart(r, Singles(xs)); }
    assert Chunk(e, Escape(xs)).out == r.out + Tail(r.skip);
  }

  lemma EscapedCrLf()
    ensures Escape([CR, LF]) == [CR] + [LF]
  {
    EscapeSnoc([CR], LF);
    EscapeSnoc([], CR);
    assert [] + [CR] == [CR] && [CR] + [LF] == [CR, LF] && [] + EscapeByte(CR) == [CR];
  }

  /** A raw CR LF arrives as one LF. */
  lemma RawCrLf(e: Engine, cs: seq<seq<byte>>)
    requires e == Init(NoTable, true, true) && Flat(cs) == Escape([CR, LF])
    ensures Chunks(e, cs) == Received(e, [Data([LF])])
  {
    var e1 := e.(mode := InEol);
    EscapedCrLf();
    GoesOne(e, CR, e1, []);
    GoesOne(e1, LF, e, [Data([LF])]);
    GoesOn(e, [CR], e1, [], [LF], e, [Data([LF])]);
    PlusNothing([Data([LF])]);
    Delivered(e, cs, e, [Data([LF])]);
  }
}
