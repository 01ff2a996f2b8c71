/** What the engine tells its application (`telnet_event_t`, libtelnet.h), and
    when two event logs mean the same to it. */
module Events {
  import opened Sequences
  import opened Bytes

  datatype Verb = VWill | VWont | VDo | VDont

  function Code(v: Verb): (c: byte)
    ensures WILL <= c <= DONT
  {
    match v
    case VWill => WILL
    case VWont => WONT
    case VDo => DO
    case VDont => DONT
  }

  /** One ENVIRON variable: VAR or USERVAR, its name, its value ("" when none was given). */
  datatype EnvVar = EnvVar(kind: byte, name: seq<byte>, value: seq<byte>)

  datatype MsspVar = MsspVar(name: seq<byte>, value: seq<byte>)

  datatype Problem =
    | AnsweredBackwards   // "DONT answered by WILL", "WONT answered by DO"
    | BufferLimit         // subnegotiation payload over 16384 bytes
    | StrayCommand        // a byte other than SE or IAC after IAC inside SB
    | BadEnviron
    | BadMssp
    | BadZmp
    | BadTtype

  /** `Wrapped` is a DATA event whose unsigned size wrapped around because the
      window started past its end (possible only after an MCCPv1 sequence). Its
      bytes lie outside the input and are not part of this model.
      A `None` in an MSSP event is an array cell whose pointers stayed null. */
  datatype Event =
    | Data(bytes: seq<byte>)
    | Wrapped
    | Send(bytes: seq<byte>)
    | Iac(cmd: byte)
    | Negotiation(verb: Verb, telopt: byte)
    | Subnegotiation(telopt: byte, payload: seq<byte>)
    | Zmp(argv: seq<seq<byte>>)
    | Ttype(kind: byte, name: Option<seq<byte>>)
    | Environ(cmd: byte, vars: seq<EnvVar>)
    | Mssp(cells: seq<Option<MsspVar>>)
    | Warning(problem: Problem)

  // ----- DATA events merged -----

  /** One DATA event per byte. */
  function Singles(s: seq<byte>): (r: seq<Event>)
    ensures |r| == |s|
    ensures forall i :: 0 <= i < |s| ==> r[i] == Data([s[i]])
  {
    if s == [] then [] else Singles(s[..|s| - 1]) + [Data([s[|s| - 1]])]
  }

  function AtomsOf(e: Event): seq<Event> {
    if e.Data? then Singles(e.bytes) else [e]
  }

  /** The log with every DATA event cut into one-byte events. Two logs have the same
      atoms exactly when merging adjacent DATA events makes them equal (SameMerged). */
  function Atoms(es: seq<Event>): seq<Event> {
    if es == [] then [] else Atoms(es[..|es| - 1]) + AtomsOf(es[|es| - 1])
  }

  predicate IsAtom(e: Event) {
    e.Data? ==> |e.bytes| == 1
  }

  lemma AtomIsAtomic(e: Event)
    requires IsAtom(e)
    ensures AtomsOf(e) == [e]
  {
    if e.Data? {
      assert e.bytes == [e.bytes[0]];
      assert AtomsOf(e)[0] == e;
    }
  }

  lemma AtomsSnoc(es: seq<Event>, e: Event)
    ensures Atoms(es + [e]) == Atoms(es) + AtomsOf(e)
  {
    assert (es + [e])[..|es + [e]| - 1] == es;
  }

  lemma {:induction false} AtomsConcat(a: seq<Event>, b: seq<Event>)
    ensures Atoms(a + b) == Atoms(a) + Atoms(b)
  {
    if b == [] {
      assert a + b == a;
    } else {
      var init, e := b[..|b| - 1], b[|b| - 1];
      assert b == init + [e];
      Assoc(a, init, [e]);
      AtomsSnoc(a + init, e);
      AtomsConcat(a, init);
      Assoc(Atoms(a), Atoms(init), AtomsOf(e));
    }
  }

  lemma {:induction false} AtomsOfAtomic(es: seq<Event>)
    requires forall e :: e in es ==> IsAtom(e)
    ensures Atoms(es) == es
  {
    if es != [] {
      AtomsOfAtomic(es[..|es| - 1]);
      AtomIsAtomic(es[|es| - 1]);
    }
  }

  lemma SinglesConcat(a: seq<byte>, b: seq<byte>)
    ensures Singles(a + b) == Singles(a) + Singles(b)
  {
  }

  lemma SinglesSnoc(a: seq<byte>, b: byte)
    ensures Singles(a + [b]) == Singles(a) + [Data([b])]
  {
  }

  /** No empty DATA event and no two DATA events in a row. */
  predicate Coalesced(es: seq<Event>) {
    && (forall i :: 0 <= i < |es| && es[i].Data? ==> es[i].bytes != [])
    && (forall i :: 0 < i < |es| && es[i].Data? ==> !es[i - 1].Data?)
  }

  /** One more event on a merged log. */
  function Push(r: seq<Event>, e: Event): (r': seq<Event>)
    requires Coalesced(r)
    ensures Coalesced(r')
  {
    if !e.Data? then r + [e]
    else if e.bytes == [] then r
    else if r != [] && r[|r| - 1].Data? then r[..|r| - 1] + [Data(r[|r| - 1].bytes + e.bytes)]
    else r + [e]
  }

  function Coalesce(es: seq<Event>): (r: seq<Event>)
    ensures Coalesced(r)
  {
    if es == [] then [] else Push(Coalesce(es[..|es| - 1]), es[|es| - 1])
  }

  lemma PushKeepsAtoms(r: seq<Event>, e: Event)
    requires Coalesced(r)
    ensures Atoms(Push(r, e)) == Atoms(r) + AtomsOf(e)
  {
    if e.Data? && e.bytes == [] {
      PlusNothing(Atoms(r));
    } else if e.Data? && r != [] && r[|r| - 1].Data? {
      MergeKeepsAtoms(r[..|r| - 1], r[|r| - 1].bytes, e.bytes);
      Unsnoc(r);
    } else {
      AtomsSnoc(r, e);
    }
  }

  /** Merging adjacent DATA events never changes the atoms. */
  lemma {:induction false} CoalesceKeepsAtoms(es: seq<Event>)
    ensures Atoms(Coalesce(es)) == Atoms(es)
  {
    if es != [] {
      CoalesceKeepsAtoms(es[..|es| - 1]);
      PushKeepsAtoms(Coalesce(es[..|es| - 1]), es[|es| - 1]);
    }
  }

  lemma MergeKeepsAtoms(es: seq<Event>, x: seq<byte>, y: seq<byte>)
    ensures Atoms(es + [Data(x + y)]) == Atoms(es + [Data(x)]) + AtomsOf(Data(y))
  {
    AtomsSnoc(es, Data(x + y));
    AtomsSnoc(es, Data(x));
    SinglesConcat(x, y);
    Assoc(Atoms(es), Singles(x), Singles(y));
  }

  /** A merged log is determined by its atoms, so "same atoms" is "same after merging". */
  lemma {:induction false} CoalescedIsCanonical(a: seq<Event>, b: seq<Event>)
    requires Coalesced(a) && Coalesced(b)
    requires Atoms(a) == Atoms(b)
    ensures a == b
  {
    if a == [] || b == [] {
      if a != [] { AtomsNonEmpty(a); }
      if b != [] { AtomsNonEmpty(b); }
    } else {
      var x, y := a[|a| - 1], b[|b| - 1];
      LastAtoms(a);
      LastAtoms(b);
      LastAgrees(Atoms(a[..|a| - 1]), x, Atoms(b[..|b| - 1]), y);
      CoalescedIsCanonical(a[..|a| - 1], b[..|b| - 1]);
      Unsnoc(a);
      Unsnoc(b);
    }
  }

  lemma LastAgrees(p: seq<Event>, x: Event, q: seq<Event>, y: Event)
    requires p + AtomsOf(x) == q + AtomsOf(y)
    requires x.Data? ==> x.bytes != [] && (p != [] ==> !p[|p| - 1].Data?)
    requires y.Data? ==> y.bytes != [] && (q != [] ==> !q[|q| - 1].Data?)
    ensures x == y && p == q
  {
    EndsEqually(p, AtomsOf(x), q, AtomsOf(y));
    if x.Data? && y.Data? {
      if |p| < |q| {
        NotInside(p, x.bytes, q, y.bytes);
        assert false;
      } else if |q| < |p| {
        NotInside(q, y.bytes, p, x.bytes);
        assert false;
      }
      SplitEqually(p, Singles(x.bytes), q, Singles(y.bytes));
      forall i | 0 <= i < |x.bytes| ensures x.bytes[i] == y.bytes[i] {
        assert Singles(x.bytes)[i] == Singles(y.bytes)[i];
      }
      assert x.bytes == y.bytes;
    } else {
      SplitEqually(p, AtomsOf(x), q, AtomsOf(y));
    }
  }

  lemma EndsEqually<T>(p: seq<T>, u: seq<T>, q: seq<T>, v: seq<T>)
    requires p + u == q + v && u != [] && v != []
    ensures u[|u| - 1] == v[|v| - 1]
  {
    assert (p + u)[|p + u| - 1] == u[|u| - 1];
    assert (q + v)[|q + v| - 1] == v[|v| - 1];
  }

  lemma SplitEqually<T>(p: seq<T>, u: seq<T>, q: seq<T>, v: seq<T>)
    requires p + u == q + v && |u| == |v|
    ensures p == q && u == v
  {
    assert p == (p + u)[..|p|] && u == (p + u)[|p|..];
    assert q == (q + v)[..|q|] && v == (q + v)[|q|..];
  }

  lemma NotInside(p: seq<Event>, x: seq<byte>, q: seq<Event>, y: seq<byte>)
    requires |p| < |q| && !q[|q| - 1].Data?
    ensures p + Singles(x) != q + Singles(y)
  {
    assert (q + Singles(y))[|q| - 1] == q[|q| - 1];
    if |q| <= |p + Singles(x)| {
      assert (p + Singles(x))[|q| - 1] == Singles(x)[|q| - 1 - |p|];
    }
  }

  /** Two logs have the same atoms exactly when merging makes them equal. */
  lemma SameMerged(a: seq<Event>, b: seq<Event>)
    ensures Atoms(a) == Atoms(b) <==> Coalesce(a) == Coalesce(b)
  {
    CoalesceKeepsAtoms(a);
    CoalesceKeepsAtoms(b);
    if Atoms(a) == Atoms(b) { CoalescedIsCanonical(Coalesce(a), Coalesce(b)); }
  }

  lemma AtomsNonEmpty(a: seq<Event>)
    requires a != [] && Coalesced(a)
    ensures Atoms(a) != []
  {
    var x := a[|a| - 1];
    assert |AtomsOf(x)| > 0;
  }

  lemma AtomsEndNotData(es: seq<Event>)
    requires es != [] && !es[|es| - 1].Data?
    ensures Atoms(es) != [] && !Atoms(es)[|Atoms(es)| - 1].Data?
  {
    Snoc(Atoms(es[..|es| - 1]), es[|es| - 1]);
  }

  lemma InitCoalesced(a: seq<Event>)
    requires a != [] && Coalesced(a)
    ensures Coalesced(a[..|a| - 1])
    ensures a[|a| - 1].Data? && |a| > 1 ==> !a[..|a| - 1][|a| - 2].Data?
  {
  }

  /** How the atoms of a merged log end: its last event, preceded (if that is DATA)
      by something that is not DATA, or by nothing. */
  lemma LastAtoms(a: seq<Event>)
    requires a != [] && Coalesced(a)
    ensures Coalesced(a[..|a| - 1])
    ensures var x, init := a[|a| - 1], Atoms(a[..|a| - 1]);
            && Atoms(a) == init + AtomsOf(x)
            && (x.Data? && init != [] ==> !init[|init| - 1].Data?)
  {
    InitCoalesced(a);
    if a[|a| - 1].Data? && |a| > 1 { AtomsEndNotData(a[..|a| - 1]); }
  }

  // ----- What goes out on the wire -----

  /** The bytes of all SEND events, in order. */
  function Wire(es: seq<Event>): seq<byte> {
    if es == [] then []
    else
      var e := es[|es| - 1];
      Wire(es[..|es| - 1]) + if e.Send? then e.bytes else []
  }

  lemma WireSnoc(es: seq<Event>, e: Event)
    ensures Wire(es + [e]) == Wire(es) + if e.Send? then e.bytes else []
  {
    assert (es + [e])[..|es + [e]| - 1] == es;
  }

  lemma {:induction false} WireConcat(a: seq<Event>, b: seq<Event>)
    ensures Wire(a + b) == Wire(a) + Wire(b)
  {
    if b == [] {
      PlusNothing(a);
      PlusNothing(Wire(a));
    } else {
      var init, x := b[..|b| - 1], b[|b| - 1];
      Unsnoc(b);
      Assoc(a, init, [x]);
      WireConcat(a, init);
      WireSnoc(a + init, x);
      Assoc(Wire(a), Wire(init), if x.Send? then x.bytes else []);
    }
  }
}
