/** How `_process` keeps to the transducer: the window [start, i) of data not yet reported,
    and what one turn of the loop must do to it. */
module Window {
  import opened Sequences
  import opened Bytes
  import opened Events
  import opened QMethod
  import opened Decoder

  /** The data read but not yet reported. */
  function Pending(m: Mode, input: seq<byte>, start: nat, i: nat): seq<Event>
    requires i <= |input|
  {
    if m == InData && start <= i then Singles(input[start..i]) else []
  }

  /** The events a flush of the window raises: none, DATA, or a DATA whose size wrapped. */
  function Flush(input: seq<byte>, start: nat, i: nat): seq<Event>
    requires i <= |input|
  {
    if i == start then [] else if start < i then [Data(input[start..i])] else [Wrapped]
  }

  predicate Skips(m: Mode, start: nat, i: nat) { m == InData && start == i + 1 }

  /** With `r` read so far: the state is the transducer's, and the log with the pending data is
      its output. */
  ghost predicate Shows(r: Stepped, log0: seq<Event>, input: seq<byte>, i: nat, start: nat, e: Engine, log: seq<Event>)
    requires i <= |input|
  {
    && e == r.engine
    && r.skip == Skips(e.mode, start, i)
    && (e.mode == InData ==> start <= i + 1)
    && Atoms(log) + Pending(e.mode, input, start, i) == Atoms(log0) + r.out
  }

  /** After `i` bytes the loop is where the transducer is. */
  ghost predicate Tracks(e0: Engine, log0: seq<Event>, input: seq<byte>, i: nat, start: nat, e: Engine, log: seq<Event>)
    requires i <= |input|
  {
    Shows(Run(e0, false, input[..i]), log0, input, i, start, e, log)
  }

  /** One turn of the loop does to the window what the step `s` says. */
  ghost predicate Does(s: Stepped, input: seq<byte>, i: nat, start: nat, m: Mode, log: seq<Event>,
                       start': nat, e': Engine, log': seq<Event>)
    requires i < |input|
  {
    && e' == s.engine
    && s.skip == Skips(e'.mode, start', i + 1)
    && (e'.mode == InData ==> start' <= i + 2)
    && Atoms(log') + Pending(e'.mode, input, start', i + 1) == Atoms(log) + Pending(m, input, start, i) + s.out
  }

  /** One turn of the loop does what the transducer does. */
  ghost predicate Advances(input: seq<byte>, i: nat, start: nat, e: Engine, log: seq<Event>,
                           start': nat, e': Engine, log': seq<Event>)
    requires i < |input|
  {
    Does(Step(e, Skips(e.mode, start, i), input[i]), input, i, start, e.mode, log, start', e', log')
  }

  lemma TracksStart(e: Engine, log: seq<Event>, input: seq<byte>)
    ensures Tracks(e, log, input, 0, 0, e, log)
  {
    assert input[..0] == [];
    assert Atoms(log) + [] == Atoms(log);
  }

  lemma ShowsStep(r: Stepped, log0: seq<Event>, input: seq<byte>, i: nat, start: nat, e: Engine, log: seq<Event>,
                  s: Stepped, start': nat, e': Engine, log': seq<Event>)
    requires i < |input| && Shows(r, log0, input, i, start, e, log)
    requires Does(s, input, i, start, e.mode, log, start', e', log')
    ensures Shows(Stepped(s.engine, s.skip, r.out + s.out), log0, input, i + 1, start', e', log')
  {
    Assoc(Atoms(log0), r.out, s.out);
  }

  lemma TracksStep(e0: Engine, log0: seq<Event>, input: seq<byte>, i: nat, start: nat, e: Engine, log: seq<Event>,
                   i': nat, start': nat, e': Engine, log': seq<Event>)
    requires i < |input| && i' == i + 1 && Tracks(e0, log0, input, i, start, e, log)
    requires Advances(input, i, start, e, log, start', e', log')
    ensures Tracks(e0, log0, input, i', start', e', log')
  {
    var r := Run(e0, false, input[..i]);
    TakeMore(input, i);
    RunSnoc(e0, false, input[..i], input[i]);
    ShowsStep(r, log0, input, i, start, e, log, Step(r.engine, r.skip, input[i]), start', e', log');
  }

  lemma FlushAtoms(log: seq<Event>, input: seq<byte>, start: nat, i: nat)
    requires i <= |input| && start <= i + 1
    ensures Atoms(log + Flush(input, start, i))
         == Atoms(log) + Pending(InData, input, start, i) + if start == i + 1 then [Wrapped] else []
  {
    if i == start {
      assert log + [] == log;
      assert Atoms(log) + [] + [] == Atoms(log);
    } else if start < i {
      AtomsSnoc(log, Data(input[start..i]));
    } else {
      AtomsSnoc(log, Wrapped);
      assert Atoms(log) + [] == Atoms(log);
    }
  }

  /** The flush after the last byte completes one call of `_process`. */
  lemma TracksEnd(e0: Engine, log0: seq<Event>, input: seq<byte>, start: nat,
                  e: Engine, log: seq<Event>, log': seq<Event>)
    requires Tracks(e0, log0, input, |input|, start, e, log)
    requires log' == log + if e.mode == InData then Flush(input, start, |input|) else []
    ensures Chunk(e0, input).engine == e
    ensures Atoms(log') == Atoms(log0) + Chunk(e0, input).out
  {
    assert input[..|input|] == input;
    var r := Run(e0, false, input);
    var tail := if r.skip then [Wrapped] else [];
    if e.mode == InData {
      FlushAtoms(log, input, start, |input|);
    } else {
      assert log' == log;
      assert Atoms(log) + [] == Atoms(log);
    }
    Assoc(Atoms(log0), r.out, tail);
  }

  lemma Regroup<T>(l: seq<T>, l0: seq<T>, a: seq<T>, b: seq<T>, c: seq<T>)
    requires l + [] == l0 + a
    ensures l + (b + c) == l0 + ((a + b) + c)
  {
    PlusNothing(l);
    Assoc(l0, a, b + c);
    Assoc(a, b, c);
  }

  lemma ChunkOf(e: Engine, input: seq<byte>, i: nat)
    requires i <= |input| && !Run(e, false, input[..i]).skip
    ensures var r := Run(e, false, input[..i]);
            var s := Run(r.engine, false, input[i..]);
            Chunk(e, input) == Received(s.engine, (r.out + s.out) + Tail(s.skip))
  {
    assert input == input[..i] + input[i..];
    RunConcat(e, false, input[..i], input[i..]);
  }

  /** Starting over on the rest of the input completes it too. */
  lemma TracksRestart(e0: Engine, log0: seq<Event>, input: seq<byte>, i: nat, e: Engine, log: seq<Event>,
                      e': Engine, log': seq<Event>)
    requires i <= |input| && Tracks(e0, log0, input, i, i, e, log)
    requires e' == Chunk(e, input[i..]).engine && Atoms(log') == Atoms(log) + Chunk(e, input[i..]).out
    ensures Chunk(e0, input).engine == e'
    ensures Atoms(log') == Atoms(log0) + Chunk(e0, input).out
  {
    var s := Run(e, false, input[i..]);
    ChunkOf(e0, input, i);
    assert input[i..i] == [];
    Regroup(Atoms(log), Atoms(log0), Run(e0, false, input[..i]).out, s.out, Tail(s.skip));
  }

  // ----- The turns -----

  lemma PlainAdvances(input: seq<byte>, i: nat, start: nat, e: Engine, log: seq<Event>)
    requires i < |input| && e.mode == InData && start <= i + 1 && IsPlain(e.flags, input[i])
    ensures Advances(input, i, start, e, log, start, e, log)
  {
    var out := Step(e, Skips(e.mode, start, i), input[i]).out;
    if start <= i {
      assert input[start..i + 1] == input[start..i] + [input[i]];
      SinglesSnoc(input[start..i], input[i]);
      Assoc(Atoms(log), Singles(input[start..i]), [Data([input[i]])]);
    } else {
      assert input[start..i + 1] == [];
      assert Atoms(log) + [] + [] == Atoms(log) + [];
    }
  }

  lemma FlushDoes(s: Stepped, input: seq<byte>, i: nat, start: nat, log: seq<Event>, e': Engine, log': seq<Event>)
    requires i < |input| && start <= i + 1 && e'.mode != InData
    requires s == Stepped(e', false, if start == i + 1 then [Wrapped] else [])
    requires log' == log + Flush(input, start, i)
    ensures Does(s, input, i, start, InData, log, start, e', log')
  {
    FlushAtoms(log, input, start, i);
    PlusNothing(Atoms(log'));
  }

  lemma FlushAdvances(input: seq<byte>, i: nat, start: nat, e: Engine, log: seq<Event>, e': Engine, log': seq<Event>)
    requires i < |input| && e.mode == InData && start <= i + 1 && !IsPlain(e.flags, input[i])
    requires e' == e.(mode := if input[i] == IAC then InIac else InEol)
    requires log' == log + Flush(input, start, i)
    ensures Advances(input, i, start, e, log, start, e', log')
  {
    FlushDoes(StepData(e, start == i + 1, input[i]), input, i, start, log, e', log');
  }

  lemma ReactionAtoms(r: Reaction, o: byte)
    ensures forall ev :: ev in ReactionEvents(r, o) ==> IsAtom(ev)
  {
  }

  lemma SubAtoms(o: byte, p: seq<byte>)
    ensures forall ev :: ev in SubEvents(o, p) ==> IsAtom(ev)
  {
  }

  lemma StrayAtoms(e: Engine, b: byte)
    ensures forall ev :: ev in StepSbDataIac(e, b).out ==> IsAtom(ev)
  {
    SubAtoms(e.sbTelopt, e.payload);
    assert forall ev :: ev in StepIac(e.(mode := InIac, payload := []), b).out ==> IsAtom(ev);
  }

  /** The transducer reports data byte by byte. */
  lemma StepAtoms(e: Engine, skip: bool, b: byte)
    ensures forall ev :: ev in Step(e, skip, b).out ==> IsAtom(ev)
  {
    match e.mode
    case InVerb(v) => if !e.flags.proxy { ReactionAtoms(React(e.q, e.telopts, Hear(v, b)).1, b); }
    case InSbDataIac => StrayAtoms(e, b);
    case _ =>
  }

  lemma LogAtoms(log: seq<Event>, out: seq<Event>)
    requires forall ev :: ev in out ==> IsAtom(ev)
    ensures Atoms(log + out) == Atoms(log) + out
  {
    AtomsConcat(log, out);
    AtomsOfAtomic(out);
  }

  /** After a byte outside data the window is empty, or the state is not InData. */
  lemma OtherDoes(s: Stepped, input: seq<byte>, i: nat, start: nat, m: Mode, log: seq<Event>,
                  start': nat, e': Engine, log': seq<Event>)
    requires i < |input| && m != InData
    requires e' == s.engine && Atoms(log') == Atoms(log) + s.out
    requires e'.mode == InData ==> start' == if s.skip then i + 2 else i + 1
    requires s.skip ==> e'.mode == InData
    ensures Does(s, input, i, start, m, log, start', e', log')
  {
    if e'.mode == InData && !s.skip { assert input[i + 1..i + 1] == []; }
    assert Atoms(log) + [] == Atoms(log);
    assert Atoms(log') + [] == Atoms(log');
  }

  /** The turn of a byte outside data whose events were logged as they are. */
  lemma OtherAdvances(input: seq<byte>, i: nat, start: nat, e: Engine, log: seq<Event>,
                      start': nat, e': Engine, log': seq<Event>, s: Stepped)
    requires i < |input| && e.mode != InData && s == Step(e, false, input[i])
    requires e' == s.engine && log' == log + s.out
    requires e'.mode == InData ==> start' == if s.skip then i + 2 else i + 1
    requires s.skip ==> e'.mode == InData
    ensures Advances(input, i, start, e, log, start', e', log')
  {
    StepAtoms(e, false, input[i]);
    LogAtoms(log, s.out);
    OtherDoes(s, input, i, start, e.mode, log, start', e', log');
  }

  lemma StrayStep(e: Engine, b: byte, e1: Engine, out: seq<Event>)
    requires e.mode == InSbDataIac && b != SE && b != IAC && !SubRestarts(e.sbTelopt, e.payload)
    requires e1 == e.(mode := InIac, payload := [])
    requires out == [Warning(StrayCommand)] + SubEvents(e.sbTelopt, e.payload)
    ensures Step(e, false, b) == Stepped(Chunk(e1, [b]).engine, false, out + Chunk(e1, [b]).out)
  {
    RunOne(e1, false, b);
    var r := StepIac(e1, b);
    assert r.out + [] == r.out;
  }

  /** The turn of a stray command: `log1` after the subnegotiation, `log'` after the one-byte
      call that reads the byte again as a command. */
  lemma StrayAdvances(input: seq<byte>, i: nat, start: nat, e: Engine, log: seq<Event>, out: seq<Event>,
                      e1: Engine, log1: seq<Event>, e': Engine, log': seq<Event>)
    requires i < |input| && e.mode == InSbDataIac && input[i] != SE && input[i] != IAC
    requires !SubRestarts(e.sbTelopt, e.payload)
    requires e1 == e.(mode := InIac, payload := [])
    requires out == [Warning(StrayCommand)] + SubEvents(e.sbTelopt, e.payload) && log1 == log + out
    requires e' == Chunk(e1, [input[i]]).engine && Atoms(log') == Atoms(log1) + Chunk(e1, [input[i]]).out
    ensures Advances(input, i, start, e, log, i + 1, e', log')
  {
    StrayStep(e, input[i], e1, out);
    SubAtoms(e.sbTelopt, e.payload);
    LogAtoms(log, out);
    Assoc(Atoms(log), out, Chunk(e1, [input[i]]).out);
    OtherDoes(Step(e, false, input[i]), input, i, start, e.mode, log, i + 1, e', log');
  }

  /** The turn of a stray command after which the decoder starts over. */
  lemma RestartAdvances(input: seq<byte>, i: nat, start: nat, e: Engine, log: seq<Event>, e': Engine, log': seq<Event>)
    requires i < |input| && e.mode == InSbDataIac && input[i] != SE && input[i] != IAC
    requires SubRestarts(e.sbTelopt, e.payload) && e' == e.(mode := InIac, payload := [])
    requires log' == log + ([Warning(StrayCommand)] + SubEvents(e.sbTelopt, e.payload))
    ensures Advances(input, i, start, e, log, i + 1, e', log')
  {
    OtherAdvances(input, i, start, e, log, i + 1, e', log', Step(e, false, input[i]));
  }

  /** `first` is reported at once, `rest` stays in the window. */
  lemma EolDoes(s: Stepped, input: seq<byte>, i: nat, start: nat, m: Mode, log: seq<Event>, first: seq<Event>,
                rest: seq<Event>, start': nat, e': Engine, log': seq<Event>)
    requires i < |input| && m != InData && e'.mode == InData && i <= start' <= i + 1
    requires s == Stepped(e', false, first + rest)
    requires Atoms(log') == Atoms(log) + first && Pending(InData, input, start', i + 1) == rest
    ensures Does(s, input, i, start, m, log, start', e', log')
  {
    PlusNothing(Atoms(log));
    Assoc(Atoms(log), first, rest);
  }

  lemma OneByteWindow(input: seq<byte>, i: nat)
    requires i < |input|
    ensures Pending(InData, input, i, i + 1) == [Data([input[i]])] && Pending(InData, input, i + 1, i + 1) == []
  {
    assert input[i..i + 1] == [input[i]] && input[i + 1..i + 1] == [];
  }

  /** What is reported at once of the byte after CR, and what stays in the window. */
  function EolFirst(b: byte): seq<Event> { if b == LF then [] else [Data([CR])] }

  function EolRest(b: byte): seq<Event> { if b == NUL then [] else [Data([b])] }

  lemma EolOut(e: Engine, b: byte)
    ensures StepEol(e, b) == Stepped(e.(mode := InData), false, EolFirst(b) + EolRest(b))
  {
  }

  lemma EolLogged(log: seq<Event>, b: byte)
    ensures Atoms(log + EolFirst(b)) == Atoms(log) + EolFirst(b)
  {
    LogAtoms(log, EolFirst(b));
  }

  /** The byte after CR: reported at once, or left as the first byte of the new window. */
  lemma EolAdvances(input: seq<byte>, i: nat, start: nat, e: Engine, log: seq<Event>,
                    start': nat, e': Engine, log': seq<Event>)
    requires i < |input| && e.mode == InEol
    requires e' == e.(mode := InData)
    requires log' == log + EolFirst(input[i])
    requires start' == if input[i] == NUL then i + 1 else i
    ensures Advances(input, i, start, e, log, start', e', log')
  {
    var b := input[i];
    OneByteWindow(input, i);
    EolLogged(log, b);
    EolOut(e, b);
    EolDoes(StepEol(e, b), input, i, start, e.mode, log, EolFirst(b), EolRest(b), start', e', log');
  }
}
