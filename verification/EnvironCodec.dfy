/** The two ways of writing ENVIRON variables, and exactly when parsing undoes them: with
    the ESC encoding of section 2 of RFC 1572, and as telnet_newenviron_value sends them,
    which escapes nothing. */
module EnvironCodec {
  import opened Sequences
  import opened Bytes
  import opened Events
  import opened Environ

  /** A variable to send; its kind is VAR or USERVAR, its value may be missing. */
  type VarKind = b: byte | b == 0 || b == 3 witness 0

  datatype Setting = Setting(kind: VarKind, name: seq<byte>, value: Option<seq<byte>>)

  /** What the receiving application should see; a missing value reads as "". */
  function AsVar(s: Setting): EnvVar {
    EnvVar(s.kind, s.name, if s.value.Some? then s.value.value else [])
  }

  function AsVars(ss: seq<Setting>): (r: seq<EnvVar>)
    ensures |r| == |ss|
  {
    if ss == [] then [] else [AsVar(ss[0])] + AsVars(ss[1..])
  }

  // ----- Writing -----

  function EscapedByte(b: byte): seq<byte> {
    if b <= USERVAR then [ESC, b] else [b]
  }

  function Escaped(s: seq<byte>): seq<byte> {
    if s == [] then []
    else EscapedByte(s[0]) + Escaped(s[1..])
  }

  function Put(esc: bool, s: seq<byte>): seq<byte> {
    if esc then Escaped(s) else s
  }

  function ValuePart(esc: bool, s: Setting): seq<byte> {
    if s.value.Some? then [VALUE] + Put(esc, s.value.value) else []
  }

  function Written(esc: bool, s: Setting): seq<byte> {
    [s.kind as byte] + (Put(esc, s.name) + ValuePart(esc, s))
  }

  function WrittenAll(esc: bool, ss: seq<Setting>): seq<byte> {
    if ss == [] then [] else Written(esc, ss[0]) + WrittenAll(esc, ss[1..])
  }

  function Payload(cmd: byte, esc: bool, ss: seq<Setting>): seq<byte> {
    [cmd] + WrittenAll(esc, ss)
  }

  // ----- Reading back -----

  /** `piece` occupies `p` from `c` on. */
  predicate At(p: seq<byte>, c: nat, piece: seq<byte>)
    ensures At(p, c, piece) ==> c + |piece| <= |p|
    decreases |piece|
  {
    if piece == [] then c <= |p| else c < |p| && p[c] == piece[0] && At(p, c + 1, piece[1..])
  }

  lemma {:induction false} AtConcat(p: seq<byte>, c: nat, a: seq<byte>, b: seq<byte>)
    requires At(p, c, a + b)
    ensures At(p, c, a) && At(p, c + |a|, b)
    decreases |a|
  {
    if a == [] {
      assert a + b == b;
    } else {
      assert (a + b)[1..] == a[1..] + b;
      AtConcat(p, c + 1, a[1..], b);
    }
  }

  lemma {:induction false} AtSuffix(p: seq<byte>, c: nat)
    requires c <= |p|
    ensures At(p, c, p[c..])
    decreases |p| - c
  {
    if c < |p| {
      assert p[c..][1..] == p[c + 1..];
      AtSuffix(p, c + 1);
    }
  }

  /** At `e` the payload ends, or a byte stands there that ends a name or value. */
  predicate Bounded(p: seq<byte>, e: nat, inName: bool) {
    e == |p| || (e < |p| && Stops(p[e], inName))
  }

  const HEAD_MARKS: set<byte> := {0, 3}
  const NAME_MARKS: set<byte> := {0, 1, 2, 3}
  const VALUE_MARKS: set<byte> := {0, 2, 3}

  function Marks(inName: bool): set<byte> {
    if inName then NAME_MARKS else VALUE_MARKS
  }

  predicate Clean(s: seq<byte>, marks: set<byte>) {
    forall b :: b in s ==> b !in marks
  }

  /** Will the parser read `s` back as it was written? */
  predicate Legible(esc: bool, s: seq<byte>, inName: bool) {
    esc || Clean(s, Marks(inName))
  }

  predicate SettingLegible(esc: bool, s: Setting) {
    Legible(esc, s.name, true) && (s.value.Some? ==> Legible(esc, s.value.value, false))
  }

  predicate AllLegible(esc: bool, ss: seq<Setting>) {
    ss == [] || (SettingLegible(esc, ss[0]) && AllLegible(esc, ss[1..]))
  }

  lemma {:induction false} EscapedLegible(ss: seq<Setting>)
    ensures AllLegible(true, ss)
  {
    if ss != [] { EscapedLegible(ss[1..]); }
  }

  lemma EscapedHead(p: seq<byte>, c: nat, s: seq<byte>, d: nat)
    requires s != [] && At(p, c, Escaped(s)) && d == c + |EscapedByte(s[0])|
    ensures At(p, c, EscapedByte(s[0])) && At(p, d, Escaped(s[1..])) && c + |Escaped(s)| == d + |Escaped(s[1..])|
  {
    AtConcat(p, c, EscapedByte(s[0]), Escaped(s[1..]));
  }

  /** What the parser makes of one escaped byte. */
  lemma EscapedByteStep(p: seq<byte>, c: nat, b: byte, d: nat, inName: bool)
    requires At(p, c, EscapedByte(b)) && d == c + |EscapedByte(b)|
    ensures SegmentEnd(p, c, inName) == SegmentEnd(p, d, inName)
    ensures Segment(p, c, inName) == [b] + Segment(p, d, inName)
  {
    if b <= USERVAR {
      Cons(ESC, [b]);
      assert At(p, c + 1, [b]);
    }
    SegmentStep(p, c, d, inName);
  }

  lemma {:induction false} EscapedSegment(p: seq<byte>, c: nat, s: seq<byte>, inName: bool)
    requires At(p, c, Escaped(s)) && Bounded(p, c + |Escaped(s)|, inName)
    ensures SegmentEnd(p, c, inName) == c + |Escaped(s)| && Segment(p, c, inName) == s
    decreases |s|
  {
    if s != [] {
      var d := c + |EscapedByte(s[0])|;
      EscapedHead(p, c, s, d);
      EscapedByteStep(p, c, s[0], d, inName);
      EscapedSegment(p, d, s[1..], inName);
      Uncons(s);
    }
  }

  lemma {:induction false} PlainSegment(p: seq<byte>, c: nat, s: seq<byte>, inName: bool)
    requires At(p, c, s) && Bounded(p, c + |s|, inName) && Clean(s, Marks(inName))
    ensures SegmentEnd(p, c, inName) == c + |s| && Segment(p, c, inName) == s
    decreases |s|
  {
    if s != [] {
      assert s[0] in s;
      SegmentStep(p, c, c + 1, inName);
      PlainSegment(p, c + 1, s[1..], inName);
      Uncons(s);
    }
  }

  lemma PutSegment(p: seq<byte>, c: nat, esc: bool, s: seq<byte>, inName: bool)
    requires At(p, c, Put(esc, s)) && Bounded(p, c + |Put(esc, s)|, inName) && Legible(esc, s, inName)
    ensures SegmentEnd(p, c, inName) == c + |Put(esc, s)| && Segment(p, c, inName) == s
  {
    if esc { EscapedSegment(p, c, s, inName); } else { PlainSegment(p, c, s, inName); }
  }

  /** The name of a written variable ends at `n`. */
  lemma NamePlaced(p: seq<byte>, c: nat, esc: bool, s: Setting, n: nat)
    requires At(p, c, Written(esc, s)) && n == c + 1 + |Put(esc, s.name)|
    ensures p[c] == s.kind && At(p, c + 1, Put(esc, s.name)) && At(p, n, ValuePart(esc, s))
  {
    Cons(s.kind as byte, Put(esc, s.name) + ValuePart(esc, s));
    AtConcat(p, c + 1, Put(esc, s.name), ValuePart(esc, s));
  }

  lemma ValuePlaced(p: seq<byte>, n: nat, esc: bool, s: Setting)
    requires s.value.Some? && At(p, n, ValuePart(esc, s))
    ensures n < |p| && p[n] == VALUE && At(p, n + 1, Put(esc, s.value.value))
  {
    Cons(VALUE, Put(esc, s.value.value));
  }

  lemma ValueRead(p: seq<byte>, n: nat, esc: bool, s: Setting, d: nat)
    requires s.value.Some? && Legible(esc, s.value.value, false)
    requires At(p, n, ValuePart(esc, s)) && d == n + |ValuePart(esc, s)| && Bounded(p, d, false)
    ensures n < |p| && p[n] == VALUE
    ensures SegmentEnd(p, n + 1, false) == d && Segment(p, n + 1, false) == s.value.value
  {
    ValuePlaced(p, n, esc, s);
    PutSegment(p, n + 1, esc, s.value.value, false);
  }

  lemma EntryWithValue(p: seq<byte>, c: nat, n: nat)
    requires c < |p| && n == SegmentEnd(p, c + 1, true) && n < |p| && p[n] == VALUE
    ensures EntryAt(p, c) == EnvVar(p[c], Segment(p, c + 1, true), Segment(p, n + 1, false))
    ensures NextEntry(p, c) == SegmentEnd(p, n + 1, false)
  {
    assert HasValue(p, c);
  }

  lemma EntryWithoutValue(p: seq<byte>, c: nat, n: nat)
    requires c < |p| && n == SegmentEnd(p, c + 1, true) && !(n < |p| && p[n] == VALUE)
    ensures EntryAt(p, c) == EnvVar(p[c], Segment(p, c + 1, true), []) && NextEntry(p, c) == n
  {
    assert !HasValue(p, c);
  }

  lemma WrittenWithValue(p: seq<byte>, c: nat, esc: bool, s: Setting, d: nat)
    requires SettingLegible(esc, s) && s.value.Some?
    requires At(p, c, Written(esc, s)) && d == c + |Written(esc, s)| && Bounded(p, d, false)
    ensures EntryAt(p, c) == AsVar(s) && NextEntry(p, c) == d
  {
    var n := c + 1 + |Put(esc, s.name)|;
    NamePlaced(p, c, esc, s, n);
    ValueRead(p, n, esc, s, d);
    PutSegment(p, c + 1, esc, s.name, true);
    EntryWithValue(p, c, n);
  }

  lemma WrittenWithoutValue(p: seq<byte>, c: nat, esc: bool, s: Setting, d: nat)
    requires SettingLegible(esc, s) && s.value.None?
    requires At(p, c, Written(esc, s)) && d == c + |Written(esc, s)| && Bounded(p, d, false)
    ensures EntryAt(p, c) == AsVar(s) && NextEntry(p, c) == d
  {
    NamePlaced(p, c, esc, s, d);
    PutSegment(p, c + 1, esc, s.name, true);
    EntryWithoutValue(p, c, d);
  }

  lemma WrittenEntry(p: seq<byte>, c: nat, esc: bool, s: Setting, d: nat)
    requires SettingLegible(esc, s)
    requires At(p, c, Written(esc, s)) && d == c + |Written(esc, s)| && Bounded(p, d, false)
    ensures EntryAt(p, c) == AsVar(s) && NextEntry(p, c) == d
  {
    if s.value.Some? { WrittenWithValue(p, c, esc, s, d); } else { WrittenWithoutValue(p, c, esc, s, d); }
  }

  lemma EntriesCons(p: seq<byte>, c: nat, e: EnvVar, d: nat, rest: seq<EnvVar>)
    requires c < |p| && EntryAt(p, c) == e && NextEntry(p, c) == d && Entries(p, d) == rest
    ensures Entries(p, c) == [e] + rest
  {
  }

  /** The next variable, if any, starts where this one ends. */
  lemma WrittenBounded(p: seq<byte>, c: nat, esc: bool, ss: seq<Setting>, d: nat)
    requires ss != [] && At(p, c, WrittenAll(esc, ss)) && c + |WrittenAll(esc, ss)| == |p|
    requires d == c + |Written(esc, ss[0])|
    ensures At(p, c, Written(esc, ss[0])) && Bounded(p, d, false)
    ensures At(p, d, WrittenAll(esc, ss[1..])) && d + |WrittenAll(esc, ss[1..])| == |p|
  {
    AtConcat(p, c, Written(esc, ss[0]), WrittenAll(esc, ss[1..]));
  }

  lemma {:induction false} WrittenEntries(p: seq<byte>, c: nat, esc: bool, ss: seq<Setting>)
    requires AllLegible(esc, ss)
    requires At(p, c, WrittenAll(esc, ss)) && c + |WrittenAll(esc, ss)| == |p|
    ensures Entries(p, c) == AsVars(ss)
    decreases |ss|
  {
    if ss != [] {
      var d := c + |Written(esc, ss[0])|;
      WrittenBounded(p, c, esc, ss, d);
      WrittenEntry(p, c, esc, ss[0], d);
      WrittenEntries(p, d, esc, ss[1..]);
      EntriesCons(p, c, AsVar(ss[0]), d, AsVars(ss[1..]));
    }
  }

  lemma PayloadOutcome(cmd: byte, esc: bool, ss: seq<Setting>)
    requires cmd <= 2
    ensures var p := Payload(cmd, esc, ss);
            && At(p, 1, WrittenAll(esc, ss))
            && Outcome(p) == if ss == [] then [Event.Environ(cmd, [])]
                             else if p[|p| - 1] == ESC then [Warning(BadEnviron)]
                             else [Event.Environ(cmd, Entries(p, 1))]
  {
    Cons(cmd, WrittenAll(esc, ss));
    AtSuffix(Payload(cmd, esc, ss), 1);
  }

  /** A payload with any other command is answered by one warning. */
  lemma BadCommand(cmd: byte, esc: bool, ss: seq<Setting>)
    requires cmd > 2
    ensures Outcome(Payload(cmd, esc, ss)) == [Warning(BadEnviron)]
  {
  }

  /** Parsing undoes the RFC's encoding of any list of variables exactly for the commands IS (0),
      SEND (1) and INFO (2), and unless the encoded payload ends in ESC; otherwise the source
      rejects it. */
  lemma EscapeRoundTrip(cmd: byte, ss: seq<Setting>)
    ensures var p := Payload(cmd, true, ss);
            var readBack := cmd <= 2 && (ss == [] || p[|p| - 1] != 2);
            && (Outcome(p) == [Event.Environ(cmd, AsVars(ss))] <==> readBack)
            && (Outcome(p) == [Warning(BadEnviron)] <==> !readBack)
  {
    if cmd > 2 {
      BadCommand(cmd, true, ss);
    } else {
      PayloadOutcome(cmd, true, ss);
      EscapedLegible(ss);
      WrittenEntries(Payload(cmd, true, ss), 1, true, ss);
    }
  }

  /** The exception is real: a last value that ends in ESC makes the parser reject the RFC's
      encoding of it. */
  lemma EscapeRejected()
    ensures Outcome(Payload(IS, true, [Setting(VAR, [65], Some([ESC]))])) == [Warning(BadEnviron)]
  {
    var s := Setting(VAR, [65], Some([ESC]));
    assert Escaped([ESC]) == [ESC, ESC] + Escaped([]);
    assert ValuePart(true, s) == [VALUE, ESC, ESC];
    var p := Payload(IS, true, [s]);
    assert WrittenAll(true, [s]) == Written(true, s) + [];
    assert p[|p| - 1] == ESC;
  }

  // ----- What telnet_newenviron_value can carry -----

  function VarOccurrences(e: EnvVar, marks: set<byte>): nat {
    Occurrences(e.name, marks) + Occurrences(e.value, marks)
  }

  function VarsOccurrences(es: seq<EnvVar>, marks: set<byte>): nat {
    if es == [] then 0 else VarOccurrences(es[0], marks) + VarsOccurrences(es[1..], marks)
  }

  function Weight(b: byte, marks: set<byte>): nat {
    if b in marks then 1 else 0
  }

  lemma OccurrencesCons(b: byte, s: seq<byte>, marks: set<byte>)
    ensures Occurrences([b] + s, marks) == Weight(b, marks) + Occurrences(s, marks)
  {
    OccurrencesConcat([b], s, marks);
  }

  /** The marks among p[c..e]. */
  function Range(p: seq<byte>, c: nat, e: nat, marks: set<byte>): nat
    requires c <= e <= |p|
    decreases e - c
  {
    if c == e then 0 else Weight(p[c], marks) + Range(p, c + 1, e, marks)
  }

  lemma {:induction false} RangeSplit(p: seq<byte>, c: nat, d: nat, e: nat, marks: set<byte>)
    requires c <= d <= e <= |p|
    ensures Range(p, c, e, marks) == Range(p, c, d, marks) + Range(p, d, e, marks)
    decreases d - c
  {
    if c < d { RangeSplit(p, c + 1, d, e, marks); }
  }

  lemma {:induction false} RangeIsOccurrences(p: seq<byte>, c: nat, marks: set<byte>)
    requires c <= |p|
    ensures Range(p, c, |p|, marks) == Occurrences(p[c..], marks)
    decreases |p| - c
  {
    if c < |p| {
      RangeIsOccurrences(p, c + 1, marks);
      assert p[c..] == [p[c]] + p[c + 1..];
      OccurrencesCons(p[c], p[c + 1..], marks);
    }
  }

  /** `kept` of `found` ESC bytes survive the parse: all of them only if there were none. */
  predicate Thins(kept: nat, found: nat) {
    kept <= found && (kept == found ==> found == 0)
  }

  lemma {:induction false} SegmentThins(p: seq<byte>, c: nat, inName: bool)
    requires c <= |p|
    ensures Thins(Occurrences(Segment(p, c, inName), {ESC}), Range(p, c, SegmentEnd(p, c, inName), {ESC}))
    decreases |p| - c
  {
    if c == |p| || Stops(p[c], inName) {
    } else if p[c] == ESC {
      if c + 1 < |p| {
        SegmentThins(p, c + 2, inName);
        OccurrencesCons(p[c + 1], Segment(p, c + 2, inName), {ESC});
        assert Range(p, c, SegmentEnd(p, c, inName), {ESC}) == 1 + Range(p, c + 1, SegmentEnd(p, c, inName), {ESC});
      }
    } else {
      SegmentThins(p, c + 1, inName);
      OccurrencesCons(p[c], Segment(p, c + 1, inName), {ESC});
    }
  }

  lemma EntryThins(p: seq<byte>, c: nat)
    requires c < |p| && Heads(p[c])
    ensures Thins(VarOccurrences(EntryAt(p, c), {ESC}), Range(p, c, NextEntry(p, c), {ESC}))
  {
    var n, d := SegmentEnd(p, c + 1, true), NextEntry(p, c);
    SegmentThins(p, c + 1, true);
    RangeSplit(p, c + 1, n, d, {ESC});
    assert Range(p, c, d, {ESC}) == Range(p, c + 1, n, {ESC}) + Range(p, n, d, {ESC});
    if HasValue(p, c) {
      SegmentThins(p, n + 1, false);
      assert Range(p, n, d, {ESC}) == Range(p, n + 1, d, {ESC});
      EntryWithValue(p, c, n);
    } else {
      EntryWithoutValue(p, c, n);
    }
  }

  lemma {:induction false} EntriesThin(p: seq<byte>, c: nat)
    requires c <= |p| && (c < |p| ==> Heads(p[c]))
    ensures Thins(VarsOccurrences(Entries(p, c), {ESC}), Range(p, c, |p|, {ESC}))
    decreases |p| - c
  {
    if c < |p| {
      var d := NextEntry(p, c);
      EntryThins(p, c);
      EntriesThin(p, d);
      RangeSplit(p, c, d, |p|, {ESC});
      EntriesCons(p, c, EntryAt(p, c), d, Entries(p, d));
    }
  }

  /** Without ESC the counting pass counts every VAR and USERVAR byte. */
  lemma {:induction false} CountUnescaped(p: seq<byte>, c: nat)
    requires c <= |p| && Range(p, c, |p|, {ESC}) == 0
    ensures CountFrom(p, c) == Range(p, c, |p|, HEAD_MARKS)
    decreases |p| - c
  {
    if c < |p| { CountUnescaped(p, c + 1); }
  }

  lemma WrittenOccurrences(s: Setting, marks: set<byte>)
    requires VALUE !in marks
    ensures Occurrences(Written(false, s), marks) == Weight(s.kind, marks) + VarOccurrences(AsVar(s), marks)
  {
    OccurrencesCons(s.kind, s.name + ValuePart(false, s), marks);
    OccurrencesConcat(s.name, ValuePart(false, s), marks);
    if s.value.Some? { OccurrencesCons(VALUE, s.value.value, marks); }
  }

  lemma {:induction false} WrittenAllOccurrences(ss: seq<Setting>)
    ensures Occurrences(WrittenAll(false, ss), {ESC}) == VarsOccurrences(AsVars(ss), {ESC})
    ensures Occurrences(WrittenAll(false, ss), HEAD_MARKS) == |ss| + VarsOccurrences(AsVars(ss), HEAD_MARKS)
  {
    if ss != [] {
      WrittenAllOccurrences(ss[1..]);
      WrittenOccurrences(ss[0], {ESC});
      WrittenOccurrences(ss[0], HEAD_MARKS);
      OccurrencesConcat(Written(false, ss[0]), WrittenAll(false, ss[1..]), {ESC});
      OccurrencesConcat(Written(false, ss[0]), WrittenAll(false, ss[1..]), HEAD_MARKS);
    }
  }

  /** A name that holds VALUE is cut short there. */
  lemma NameCutShort(p: seq<byte>, c: nat, name: seq<byte>, j: nat)
    requires At(p, c, name) && j < |name| && name[j] == VALUE && Clean(name[..j], NAME_MARKS)
    ensures Segment(p, c, true) != name
  {
    assert name == name[..j] + name[j..];
    AtConcat(p, c, name[..j], name[j..]);
    PlainSegment(p, c, name[..j], true);
  }

  function FirstValue(name: seq<byte>): (j: nat)
    ensures j <= |name| && VALUE !in name[..j] && (j < |name| ==> name[j] == VALUE)
  {
    if name == [] then 0
    else
      var j := FirstValue(name[..|name| - 1]);
      if j < |name| - 1 then (assert name[..|name| - 1][..j] == name[..j]; j)
      else if name[|name| - 1] == VALUE then |name| - 1
      else (assert name == name[..|name| - 1] + [name[|name| - 1]]; |name|)
  }

  lemma UnmarkedClean(s: seq<byte>, j: nat)
    requires Occurrences(s, {ESC}) == 0 && Occurrences(s, HEAD_MARKS) == 0
    requires j <= |s| && VALUE !in s[..j]
    ensures Clean(s, VALUE_MARKS) && Clean(s[..j], NAME_MARKS)
  {
    NoOccurrences(s, {ESC});
    NoOccurrences(s, HEAD_MARKS);
    forall b | b in s ensures b !in VALUE_MARKS {
      assert b !in {ESC} && b !in HEAD_MARKS;
    }
  }

  lemma NameReadBackClean(p: seq<byte>, c: nat, name: seq<byte>)
    requires At(p, c, name) && Segment(p, c, true) == name
    requires Occurrences(name, {ESC}) == 0 && Occurrences(name, HEAD_MARKS) == 0
    ensures Clean(name, NAME_MARKS)
  {
    var j := FirstValue(name);
    UnmarkedClean(name, j);
    if j < |name| {
      NameCutShort(p, c, name, j);
    } else {
      assert name[..j] == name;
    }
  }

  lemma EntryReadBackLegible(p: seq<byte>, c: nat, s: Setting)
    requires At(p, c, Written(false, s))
    requires VarOccurrences(AsVar(s), {ESC}) == 0 && VarOccurrences(AsVar(s), HEAD_MARKS) == 0
    requires EntryAt(p, c) == AsVar(s)
    ensures SettingLegible(false, s)
  {
    NamePlaced(p, c, false, s, c + 1 + |s.name|);
    assert EntryAt(p, c).name == Segment(p, c + 1, true);
    NameReadBackClean(p, c + 1, s.name);
    UnmarkedClean(AsVar(s).value, 0);
  }

  lemma FirstEntry(p: seq<byte>, c: nat, e: EnvVar, rest: seq<EnvVar>)
    requires c < |p| && Entries(p, c) == [e] + rest
    ensures EntryAt(p, c) == e && Entries(p, NextEntry(p, c)) == rest
  {
    EntriesCons(p, c, EntryAt(p, c), NextEntry(p, c), Entries(p, NextEntry(p, c)));
    SameCons(EntryAt(p, c), Entries(p, NextEntry(p, c)), e, rest);
  }

  lemma FirstReadBack(p: seq<byte>, c: nat, s: Setting, d: nat, rest: seq<EnvVar>)
    requires At(p, c, Written(false, s)) && d == c + |Written(false, s)| && Bounded(p, d, false)
    requires VarOccurrences(AsVar(s), {ESC}) == 0 && VarOccurrences(AsVar(s), HEAD_MARKS) == 0
    requires Entries(p, c) == [AsVar(s)] + rest
    ensures SettingLegible(false, s) && Entries(p, d) == rest
  {
    FirstEntry(p, c, AsVar(s), rest);
    EntryReadBackLegible(p, c, s);
    RestReadBack(p, c, s, d, rest);
  }

  lemma RestReadBack(p: seq<byte>, c: nat, s: Setting, d: nat, rest: seq<EnvVar>)
    requires At(p, c, Written(false, s)) && d == c + |Written(false, s)| && Bounded(p, d, false)
    requires SettingLegible(false, s) && Entries(p, NextEntry(p, c)) == rest
    ensures Entries(p, d) == rest
  {
    WrittenEntry(p, c, false, s, d);
  }

  lemma {:induction false} ReadBackLegible(p: seq<byte>, c: nat, ss: seq<Setting>)
    requires At(p, c, WrittenAll(false, ss)) && c + |WrittenAll(false, ss)| == |p|
    requires VarsOccurrences(AsVars(ss), {ESC}) == 0 && VarsOccurrences(AsVars(ss), HEAD_MARKS) == 0
    requires Entries(p, c) == AsVars(ss)
    ensures AllLegible(false, ss)
    decreases |ss|
  {
    if ss != [] {
      var d := c + |Written(false, ss[0])|;
      WrittenBounded(p, c, false, ss, d);
      FirstReadBack(p, c, ss[0], d, AsVars(ss[1..]));
      ReadBackLegible(p, d, ss[1..]);
    }
  }

  lemma PlainEndsLegible(cmd: byte, ss: seq<Setting>)
    requires ss != [] && VarsOccurrences(AsVars(ss), {ESC}) == 0
    ensures var p := Payload(cmd, false, ss); p[|p| - 1] != ESC
  {
    var p := Payload(cmd, false, ss);
    WrittenAllOccurrences(ss);
    var w := WrittenAll(false, ss);
    assert p[|p| - 1] == w[|w| - 1] && w[|w| - 1] in w;
  }

  lemma {:induction false} LegibleNoEsc(ss: seq<Setting>)
    requires AllLegible(false, ss)
    ensures VarsOccurrences(AsVars(ss), {ESC}) == 0
  {
    if ss != [] {
      LegibleNoEsc(ss[1..]);
      NoOccurrences(ss[0].name, {ESC});
      NoOccurrences(AsVar(ss[0]).value, {ESC});
    }
  }

  lemma PlainMustBeLegible(cmd: byte, ss: seq<Setting>)
    requires cmd <= 2 && Outcome(Payload(cmd, false, ss)) == [Event.Environ(cmd, AsVars(ss))]
    ensures AllLegible(false, ss)
  {
    var p := Payload(cmd, false, ss);
    PayloadOutcome(cmd, false, ss);
    Cons(cmd, WrittenAll(false, ss));
    WrittenAllOccurrences(ss);
    RangeIsOccurrences(p, 1, {ESC});
    RangeIsOccurrences(p, 1, HEAD_MARKS);
    EntriesThin(p, 1);
    CountIsEntries(p, 1);
    CountUnescaped(p, 1);
    ReadBackLegible(p, 1, ss);
  }

  lemma PlainReadBack(cmd: byte, ss: seq<Setting>)
    requires cmd <= 2
    ensures Outcome(Payload(cmd, false, ss)) == [Event.Environ(cmd, AsVars(ss))] <==> AllLegible(false, ss)
  {
    PayloadOutcome(cmd, false, ss);
    if AllLegible(false, ss) {
      LegibleNoEsc(ss);
      if ss != [] { PlainEndsLegible(cmd, ss); }
      WrittenEntries(Payload(cmd, false, ss), 1, false, ss);
    } else if Outcome(Payload(cmd, false, ss)) == [Event.Environ(cmd, AsVars(ss))] {
      PlainMustBeLegible(cmd, ss);
    }
  }

  /** What telnet_newenviron_value writes is parsed back exactly for the commands 0, 1 and 2
      when no name holds 0, 1, 2 or 3 and no value holds 0, 2 or 3; any other command is
      answered by one warning. */
  lemma PlainRoundTrip(cmd: byte, ss: seq<Setting>)
    ensures Outcome(Payload(cmd, false, ss)) == [Event.Environ(cmd, AsVars(ss))]
            <==> cmd <= 2 && AllLegible(false, ss)
    ensures cmd > 2 ==> Outcome(Payload(cmd, false, ss)) == [Warning(BadEnviron)]
  {
    if cmd > 2 { BadCommand(cmd, false, ss); } else { PlainReadBack(cmd, ss); }
  }

  /** A name that holds VALUE comes back as a shorter name with a value nobody sent. */
  lemma PlainMisread()
    ensures Outcome(Payload(IS, false, [Setting(VAR, [65, VALUE, 66], None)]))
         == [Event.Environ(IS, [EnvVar(VAR, [65], [66])])]
  {
    var s := Setting(VAR, [65, VALUE, 66], None);
    var p := [IS, VAR, 65, VALUE, 66];
    assert WrittenAll(false, [s]) == Written(false, s) + [];
    assert Payload(IS, false, [s]) == p;
    assert SegmentEnd(p, 2, true) == SegmentEnd(p, 3, true) == 3;
    assert Segment(p, 2, true) == [65] + Segment(p, 3, true) == [65];
    assert SegmentEnd(p, 4, false) == SegmentEnd(p, 5, false) == 5;
    assert Segment(p, 4, false) == [66] + Segment(p, 5, false) == [66];
    EntryWithValue(p, 1, 3);
    EntriesCons(p, 1, EnvVar(VAR, [65], [66]), 5, []);
    assert [EnvVar(VAR, [65], [66])] + [] == [EnvVar(VAR, [65], [66])];
    assert Parses(p);
  }
}
