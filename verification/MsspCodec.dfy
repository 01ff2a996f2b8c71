/** MSSP payloads as an application writes them, and exactly when parsing undoes that: byte 1
    and a name for each variable, byte 2 and a string for each of its values. */
module MsspCodec {
  import opened Sequences
  import opened Bytes
  import opened Events
  import opened Mssp

  /** A variable to send, with any number of values. */
  datatype Variable = Variable(name: seq<byte>, values: seq<seq<byte>>)

  function WrittenValues(vs: seq<seq<byte>>): seq<byte> {
    if vs == [] then [] else [2] + (vs[0] + WrittenValues(vs[1..]))
  }

  function Payload(ws: seq<Variable>): seq<byte> {
    if ws == [] then [] else [1] + (ws[0].name + (WrittenValues(ws[0].values) + Payload(ws[1..])))
  }

  /** What the receiving application should see: one pair per value, under its own name. */
  function ValuePairs(name: seq<byte>, vs: seq<seq<byte>>): seq<MsspVar> {
    if vs == [] then [] else [MsspVar(name, vs[0])] + ValuePairs(name, vs[1..])
  }

  function AllPairs(ws: seq<Variable>): seq<MsspVar> {
    if ws == [] then [] else ValuePairs(ws[0].name, ws[0].values) + AllPairs(ws[1..])
  }

  /** As filled array cells. */
  function Told(pairs: seq<MsspVar>): (cells: seq<Option<MsspVar>>)
    ensures |cells| == |pairs|
    ensures forall i :: 0 <= i < |pairs| ==> cells[i] == Some(pairs[i])
  {
    seq(|pairs|, i requires 0 <= i < |pairs| => Some(pairs[i]))
  }

  predicate Lacks(s: seq<byte>, b: byte) { b !in s }

  predicate ValuesLack(vs: seq<seq<byte>>, b: byte) {
    vs == [] || (Lacks(vs[0], b) && ValuesLack(vs[1..], b))
  }

  /** No name and no value holds byte 2. */
  predicate NoTwo(ws: seq<Variable>) {
    ws == [] || (Lacks(ws[0].name, 2) && ValuesLack(ws[0].values, 2) && NoTwo(ws[1..]))
  }

  /** No value, and no name that has a value, holds byte 1. */
  predicate NoOne(ws: seq<Variable>) {
    ws == [] || ((ws[0].values == [] || Lacks(ws[0].name, 1)) && ValuesLack(ws[0].values, 1) && NoOne(ws[1..]))
  }

  // ----- Reading one segment after another -----

  /** The pairs read from the mark at `m` on, or none at the end. */
  function From(p: seq<byte>, m: nat, name: seq<byte>): seq<MsspVar>
    requires m <= |p|
  {
    if m < |p| then Pairs(p, m + 1, p[m], name) else []
  }

  lemma NoneLeft(p: seq<byte>, c: nat, kind: byte, name: seq<byte>)
    requires |p| <= c <= |p| + 1
    ensures Pairs(p, c, kind, name) == []
  {
  }

  /** The mark at `m`; at the end, any byte does. */
  function MarkOr(p: seq<byte>, m: nat): byte {
    if m < |p| then p[m] else NUL
  }

  lemma FromIs(p: seq<byte>, m: nat, name: seq<byte>)
    requires m <= |p|
    ensures Pairs(p, m + 1, MarkOr(p, m), name) == From(p, m, name)
  {
    if m == |p| { NoneLeft(p, m + 1, NUL, name); }
  }

  lemma NameUnfold(p: seq<byte>, c: nat, name: seq<byte>)
    requires 1 <= c < |p|
    ensures Pairs(p, c, VAR, name) == Pairs(p, MarkAt(p, c) + 1, MarkOr(p, MarkAt(p, c)), Segment(p, c))
  {
  }

  lemma ValueUnfold(p: seq<byte>, c: nat, name: seq<byte>)
    requires 1 <= c < |p|
    ensures Pairs(p, c, VAL, name)
         == [MsspVar(name, Segment(p, c))] + Pairs(p, MarkAt(p, c) + 1, MarkOr(p, MarkAt(p, c)), name)
  {
  }

  lemma FromName(p: seq<byte>, m: nat, name: seq<byte>)
    requires m < |p| && p[m] == 1
    ensures From(p, m, name) == From(p, MarkAt(p, m + 1), Segment(p, m + 1))
  {
    if m + 1 == |p| {
      NoneLeft(p, m + 1, VAR, name);
    } else {
      NameUnfold(p, m + 1, name);
      FromIs(p, MarkAt(p, m + 1), Segment(p, m + 1));
    }
  }

  lemma FromValue(p: seq<byte>, m: nat, name: seq<byte>)
    requires m + 1 < |p| && p[m] == 2
    ensures From(p, m, name) == [MsspVar(name, Segment(p, m + 1))] + From(p, MarkAt(p, m + 1), name)
  {
    ValueUnfold(p, m + 1, name);
    FromIs(p, MarkAt(p, m + 1), name);
  }

  /** After a VAR the name in force no longer matters. */
  lemma FromAnyName(p: seq<byte>, m: nat, name: seq<byte>, name': seq<byte>)
    requires m <= |p| && (m < |p| ==> p[m] == 1)
    ensures From(p, m, name) == From(p, m, name')
  {
    if m < |p| {
      FromName(p, m, name);
      FromName(p, m, name');
    }
  }

  /** `e` is the end, or a mark stands there. */
  predicate Ends(p: seq<byte>, e: nat) { e == |p| || (e < |p| && Marks(p[e])) }

  lemma {:induction false} MarkAtIs(p: seq<byte>, c: nat, e: nat)
    requires c <= e && Ends(p, e) && forall k :: c <= k < e ==> !Marks(p[k])
    ensures MarkAt(p, c) == e
    decreases e - c
  {
    if c < e { MarkAtIs(p, c + 1, e); }
  }

  lemma Unmarked(p: seq<byte>, c: nat, s: seq<byte>, k: nat)
    requires c + |s| <= |p| && p[c..c + |s|] == s && Lacks(s, 1) && Lacks(s, 2) && c <= k < c + |s|
    ensures !Marks(p[k])
  {
    assert p[k] == p[c..c + |s|][k - c];
    assert s[k - c] in s;
  }

  /** A string without marks, written from `c` to `e`, is read back. */
  lemma SegmentIs(p: seq<byte>, c: nat, s: seq<byte>, e: nat)
    requires e == c + |s| && Ends(p, e) && p[c..e] == s && Lacks(s, 1) && Lacks(s, 2)
    ensures MarkAt(p, c) == e && Segment(p, c) == s
  {
    forall k | c <= k < e ensures !Marks(p[k]) {
      Unmarked(p, c, s, k);
    }
    MarkAtIs(p, c, e);
  }

  lemma EndsThere(p: seq<byte>, e: nat, rest: seq<byte>)
    requires e <= |p| && p[e..] == rest && (rest != [] ==> Marks(rest[0]))
    ensures Ends(p, e)
  {
    if e < |p| { assert p[e] == p[e..][0]; }
  }

  lemma MarkFirst(p: seq<byte>, m: nat, b: byte, rest: seq<byte>)
    requires m <= |p| && p[m..] == [b] + rest
    ensures m < |p| && p[m] == b && p[m + 1..] == rest
  {
    assert p[m..][0] == b && p[m..][1..] == rest;
  }

  /** What is still to be read after some values. */
  function Rest(vs: seq<seq<byte>>, ws: seq<Variable>): seq<byte> {
    WrittenValues(vs) + Payload(ws)
  }

  lemma RestStarts(vs: seq<seq<byte>>, ws: seq<Variable>)
    ensures Rest(vs, ws) != [] ==> Marks(Rest(vs, ws)[0])
  {
  }

  lemma RestIs(vs: seq<seq<byte>>, ws: seq<Variable>)
    requires vs != []
    ensures Rest(vs, ws) == [2] + (vs[0] + Rest(vs[1..], ws))
  {
    Assoc([2], vs[0] + WrittenValues(vs[1..]), Payload(ws));
    Assoc(vs[0], WrittenValues(vs[1..]), Payload(ws));
  }

  /** Where one value stands: its mark at `m`, its bytes up to `e`. */
  lemma ValueStands(p: seq<byte>, m: nat, vs: seq<seq<byte>>, ws: seq<Variable>, e: nat)
    requires m <= |p| && vs != [] && p[m..] == Rest(vs, ws) && e == m + 1 + |vs[0]|
    ensures e <= |p| && p[m] == 2 && p[m + 1..e] == vs[0] && p[e..] == Rest(vs[1..], ws) && Ends(p, e)
  {
    RestIs(vs, ws);
    MarkFirst(p, m, 2, vs[0] + Rest(vs[1..], ws));
    DropPast(p, m + 1, vs[0], Rest(vs[1..], ws));
    RestStarts(vs[1..], ws);
    EndsThere(p, e, Rest(vs[1..], ws));
  }

  lemma ValueRead(p: seq<byte>, m: nat, name: seq<byte>, v: seq<byte>, e: nat)
    requires m + 1 + |v| == e <= |p| && p[m] == 2 && p[m + 1..e] == v && Ends(p, e) && Lacks(v, 1) && Lacks(v, 2)
    requires p[|p| - 1] != 2
    ensures From(p, m, name) == [MsspVar(name, v)] + From(p, e, name)
  {
    SegmentIs(p, m + 1, v, e);
    FromValue(p, m, name);
  }

  /** The values from the mark at `m` on are read back under the name in force. */
  lemma {:induction false} ValuesRead(p: seq<byte>, m: nat, name: seq<byte>, vs: seq<seq<byte>>, ws: seq<Variable>,
                                      e: nat)
    requires m <= |p| && p != [] && p[|p| - 1] != 2 && p[m..] == Rest(vs, ws)
    requires ValuesLack(vs, 1) && ValuesLack(vs, 2) && e == m + |WrittenValues(vs)|
    ensures e <= |p| && p[e..] == Payload(ws)
    ensures From(p, m, name) == ValuePairs(name, vs) + From(p, e, name)
    decreases |vs|
  {
    if vs == [] {
      PlusNothing(Payload(ws));
      PlusNothing(From(p, m, name));
    } else {
      var next := m + 1 + |vs[0]|;
      ValueStands(p, m, vs, ws, next);
      ValueRead(p, m, name, vs[0], next);
      ValuesRead(p, next, name, vs[1..], ws, e);
      Assoc([MsspVar(name, vs[0])], ValuePairs(name, vs[1..]), From(p, e, name));
    }
  }

  /** VARs that no VAL follows store nothing, whatever the names. */
  lemma {:induction false} NamesSkipped(p: seq<byte>, m: nat, e: nat, name: seq<byte>, name': seq<byte>)
    requires m <= e <= |p| && (m < |p| ==> p[m] == 1) && (e < |p| ==> p[e] == 1)
    requires forall k :: m <= k < e ==> p[k] != 2
    ensures From(p, m, name) == From(p, e, name')
    decreases e - m
  {
    if m == e {
      FromAnyName(p, m, name, name');
    } else {
      FromName(p, m, name);
      MarkBefore(p, m + 1, e);
      NamesSkipped(p, MarkAt(p, m + 1), e, Segment(p, m + 1), name');
    }
  }

  lemma {:induction false} MarkBefore(p: seq<byte>, c: nat, e: nat)
    requires c <= e && Ends(p, e)
    ensures MarkAt(p, c) <= e
    decreases e - c
  {
    if c < e && !Marks(p[c]) { MarkBefore(p, c + 1, e); }
  }

  lemma PayloadStarts(ws: seq<Variable>)
    ensures Payload(ws) != [] ==> Payload(ws)[0] == 1
  {
  }

  lemma NoTwoBetween(p: seq<byte>, m: nat, s: seq<byte>, k: nat)
    requires m + 1 + |s| <= |p| && p[m] == 1 && p[m + 1..m + 1 + |s|] == s && Lacks(s, 2) && m <= k < m + 1 + |s|
    ensures p[k] != 2
  {
    if k > m {
      assert p[k] == p[m + 1..m + 1 + |s|][k - m - 1];
      assert s[k - m - 1] in s;
    }
  }

  /** A variable without values. */
  lemma BareRead(p: seq<byte>, m: nat, name: seq<byte>, s: seq<byte>, ws: seq<Variable>, e: nat)
    requires m <= |p| && p[m..] == [1] + (s + Payload(ws)) && Lacks(s, 2) && e == m + 1 + |s|
    ensures e <= |p| && p[e..] == Payload(ws) && From(p, m, name) == From(p, e, s)
  {
    MarkFirst(p, m, 1, s + Payload(ws));
    DropPast(p, m + 1, s, Payload(ws));
    PayloadStarts(ws);
    if e < |p| { assert p[e] == p[e..][0]; }
    forall k | m <= k < e ensures p[k] != 2 {
      NoTwoBetween(p, m, s, k);
    }
    NamesSkipped(p, m, e, name, s);
  }

  /** The name of a variable with values. */
  lemma NameRead(p: seq<byte>, m: nat, name: seq<byte>, s: seq<byte>, vs: seq<seq<byte>>, ws: seq<Variable>, e: nat)
    requires m <= |p| && p[m..] == [1] + (s + Rest(vs, ws)) && Lacks(s, 1) && Lacks(s, 2) && e == m + 1 + |s|
    ensures e <= |p| && p[e..] == Rest(vs, ws) && From(p, m, name) == From(p, e, s)
  {
    MarkFirst(p, m, 1, s + Rest(vs, ws));
    DropPast(p, m + 1, s, Rest(vs, ws));
    RestStarts(vs, ws);
    EndsThere(p, e, Rest(vs, ws));
    SegmentIs(p, m + 1, s, e);
    FromName(p, m, name);
  }

  lemma PayloadIs(ws: seq<Variable>)
    requires ws != []
    ensures Payload(ws) == [1] + (ws[0].name + Rest(ws[0].values, ws[1..]))
  {
  }

  lemma BareVariable(p: seq<byte>, m: nat, name: seq<byte>, ws: seq<Variable>, e: nat)
    requires m <= |p| && ws != [] && p[m..] == Payload(ws) && Lacks(ws[0].name, 2) && ws[0].values == []
    requires e == m + 1 + |ws[0].name|
    ensures e <= |p| && p[e..] == Payload(ws[1..]) && From(p, m, name) == From(p, e, ws[0].name)
  {
    PayloadIs(ws);
    PlusNothing(Payload(ws[1..]));
    BareRead(p, m, name, ws[0].name, ws[1..], e);
  }

  lemma FullVariable(p: seq<byte>, m: nat, name: seq<byte>, s: seq<byte>, vs: seq<seq<byte>>, ws: seq<Variable>,
                     e: nat)
    requires m <= |p| && p != [] && p[|p| - 1] != 2 && p[m..] == [1] + (s + Rest(vs, ws))
    requires Lacks(s, 1) && Lacks(s, 2) && ValuesLack(vs, 1) && ValuesLack(vs, 2)
    requires e == m + 1 + |s| + |WrittenValues(vs)|
    ensures e <= |p| && p[e..] == Payload(ws) && From(p, m, name) == ValuePairs(s, vs) + From(p, e, s)
  {
    var n := m + 1 + |s|;
    NameRead(p, m, name, s, vs, ws, n);
    ValuesRead(p, n, s, vs, ws, e);
  }

  lemma VariableRead(p: seq<byte>, m: nat, name: seq<byte>, ws: seq<Variable>, e: nat)
    requires m <= |p| && p != [] && p[|p| - 1] != 2 && ws != [] && p[m..] == Payload(ws) && NoTwo(ws) && NoOne(ws)
    requires e == m + 1 + |ws[0].name| + |WrittenValues(ws[0].values)|
    ensures e <= |p| && p[e..] == Payload(ws[1..])
    ensures From(p, m, name) == ValuePairs(ws[0].name, ws[0].values) + From(p, e, ws[0].name)
  {
    if ws[0].values == [] {
      BareVariable(p, m, name, ws, e);
      PlusNothing(From(p, e, ws[0].name));
    } else {
      PayloadIs(ws);
      FullVariable(p, m, name, ws[0].name, ws[0].values, ws[1..], e);
    }
  }

  lemma {:induction false} VariablesRead(p: seq<byte>, m: nat, name: seq<byte>, ws: seq<Variable>)
    requires m <= |p| && p != [] && p[|p| - 1] != 2 && p[m..] == Payload(ws) && NoTwo(ws) && NoOne(ws)
    ensures From(p, m, name) == AllPairs(ws)
    decreases |ws|
  {
    if ws == [] {
      assert m == |p|;
    } else {
      var e := m + 1 + |ws[0].name| + |WrittenValues(ws[0].values)|;
      VariableRead(p, m, name, ws, e);
      VariablesRead(p, e, ws[0].name, ws[1..]);
    }
  }

  // ----- What a payload must have been to be read back -----

  lemma {:induction false} ValsAreTwos(p: seq<byte>, a: nat)
    requires a <= |p|
    ensures Vals(p, a, |p|) == Occurrences(p[a..], {2})
    decreases |p| - a
  {
    if a < |p| {
      ValsAreTwos(p, a + 1);
      ValsStep(p, a);
      DropOne(p, a);
      OccurrencesConcat([p[a]], p[a + 1..], {2});
    }
  }

  lemma OneByte(b: byte, s: seq<byte>)
    ensures Occurrences([b] + s, {2}) == Occurrences(s, {2}) + if b == 2 then 1 else 0
  {
    OccurrencesConcat([b], s, {2});
  }

  lemma LacksTwo(s: seq<byte>)
    ensures Occurrences(s, {2}) == 0 <==> Lacks(s, 2)
  {
    NoOccurrences(s, {2});
  }

  lemma {:induction false} ValuesTwos(name: seq<byte>, vs: seq<seq<byte>>)
    ensures |ValuePairs(name, vs)| <= Occurrences(WrittenValues(vs), {2})
    ensures |ValuePairs(name, vs)| == Occurrences(WrittenValues(vs), {2}) <==> ValuesLack(vs, 2)
  {
    if vs != [] {
      ValuesTwos(name, vs[1..]);
      OneByte(2, vs[0] + WrittenValues(vs[1..]));
      OccurrencesConcat(vs[0], WrittenValues(vs[1..]), {2});
      LacksTwo(vs[0]);
    }
  }

  /** A payload has as many bytes 2 as values exactly when no string holds one. */
  lemma {:induction false} PayloadTwos(ws: seq<Variable>)
    ensures |AllPairs(ws)| <= Occurrences(Payload(ws), {2})
    ensures |AllPairs(ws)| == Occurrences(Payload(ws), {2}) <==> NoTwo(ws)
  {
    if ws != [] {
      var s, vs := ws[0].name, ws[0].values;
      PayloadTwos(ws[1..]);
      PayloadIs(ws);
      OneByte(1, s + Rest(vs, ws[1..]));
      OccurrencesConcat(s, Rest(vs, ws[1..]), {2});
      OccurrencesConcat(WrittenValues(vs), Payload(ws[1..]), {2});
      LacksTwo(s);
      ValuesTwos(s, vs);
    }
  }

  predicate PairLacks(pair: MsspVar, b: byte) { Lacks(pair.name, b) && Lacks(pair.value, b) }

  lemma SegmentLacks(p: seq<byte>, c: nat)
    requires c <= |p|
    ensures Lacks(Segment(p, c), 1)
  {
    MarkAtFirst(p, c);
  }

  /** What the parser stores never holds byte 1. */
  lemma {:induction false} PairsLack(p: seq<byte>, c: nat, kind: byte, name: seq<byte>, i: nat)
    requires 1 <= c <= |p| + 1 && Lacks(name, 1) && i < |Pairs(p, c, kind, name)|
    ensures PairLacks(Pairs(p, c, kind, name)[i], 1)
    decreases |p| + 1 - c
  {
    if c < |p| {
      var e := MarkAt(p, c);
      var next := if e < |p| then p[e] else NUL;
      PairsUnfold(p, c, kind, name);
      SegmentLacks(p, c);
      if kind == VAR {
        PairsLack(p, e + 1, next, Segment(p, c), i);
      } else if i > 0 {
        PairsLack(p, e + 1, next, name, i - 1);
      }
    } else {
      NoneLeft(p, c, kind, name);
      assert false;
    }
  }

  predicate AllLack(pairs: seq<MsspVar>, b: byte) {
    pairs == [] || (PairLacks(pairs[0], b) && AllLack(pairs[1..], b))
  }

  lemma {:induction false} AllLackConcat(a: seq<MsspVar>, c: seq<MsspVar>, b: byte)
    requires AllLack(a + c, b)
    ensures AllLack(a, b) && AllLack(c, b)
  {
    if a == [] {
      PlusNothing(c);
    } else {
      Uncons(a);
      Assoc([a[0]], a[1..], c);
      Cons(a[0], a[1..] + c);
      AllLackConcat(a[1..], c, b);
    }
  }

  lemma {:induction false} AllLackAt(pairs: seq<MsspVar>, b: byte)
    requires forall i :: 0 <= i < |pairs| ==> PairLacks(pairs[i], b)
    ensures AllLack(pairs, b)
  {
    if pairs != [] {
      forall i | 0 <= i < |pairs[1..]| ensures PairLacks(pairs[1..][i], b) {
        assert pairs[1..][i] == pairs[i + 1];
      }
      AllLackAt(pairs[1..], b);
    }
  }

  lemma {:induction false} ValuesOne(name: seq<byte>, vs: seq<seq<byte>>)
    requires AllLack(ValuePairs(name, vs), 1)
    ensures ValuesLack(vs, 1) && (vs == [] || Lacks(name, 1))
  {
    if vs != [] {
      Cons(MsspVar(name, vs[0]), ValuePairs(name, vs[1..]));
      ValuesOne(name, vs[1..]);
    }
  }

  lemma {:induction false} PairsOne(ws: seq<Variable>)
    requires AllLack(AllPairs(ws), 1)
    ensures NoOne(ws)
  {
    if ws != [] {
      AllLackConcat(ValuePairs(ws[0].name, ws[0].values), AllPairs(ws[1..]), 1);
      ValuesOne(ws[0].name, ws[0].values);
      PairsOne(ws[1..]);
    }
  }

  // ----- How a payload ends -----

  /** The last value written is empty. */
  predicate EndsEmpty(ws: seq<Variable>) {
    ws != [] &&
    var vs := ws[|ws| - 1].values;
    vs != [] && vs[|vs| - 1] == []
  }

  lemma LastOf(a: seq<byte>, b: seq<byte>)
    requires b != []
    ensures (a + b)[|a + b| - 1] == b[|b| - 1]
  {
  }

  lemma OneValueEnds(v: seq<byte>, tail: seq<byte>)
    requires Lacks(v, 2)
    ensures var w := [2] + (v + tail);
            w[|w| - 1] == if tail != [] then tail[|tail| - 1] else if v == [] then 2 else v[|v| - 1]
    ensures v != [] ==> v[|v| - 1] != 2
  {
    if v != [] { assert v[|v| - 1] in v; }
  }

  lemma {:induction false} ValuesEnd(vs: seq<seq<byte>>)
    requires vs != [] && ValuesLack(vs, 2)
    ensures WrittenValues(vs) != []
    ensures WrittenValues(vs)[|WrittenValues(vs)| - 1] == 2 <==> vs[|vs| - 1] == []
  {
    OneValueEnds(vs[0], WrittenValues(vs[1..]));
    if |vs| > 1 { ValuesEnd(vs[1..]); }
  }

  lemma OneVariableEnds(s: seq<byte>, vs: seq<seq<byte>>, p: seq<byte>)
    requires Lacks(s, 2) && ValuesLack(vs, 2) && p == [1] + (s + Rest(vs, []))
    ensures p[|p| - 1] == 2 <==> vs != [] && vs[|vs| - 1] == []
  {
    PlusNothing(WrittenValues(vs));
    if vs != [] {
      ValuesEnd(vs);
      LastOf(s, WrittenValues(vs));
      LastOf([1], s + WrittenValues(vs));
    } else if s != [] {
      PlusNothing(s);
      LastOf([1], s);
      assert s[|s| - 1] in s;
    }
  }

  lemma {:induction false} PayloadEnds(ws: seq<Variable>)
    requires ws != [] && NoTwo(ws)
    ensures Payload(ws) != [] && (Payload(ws)[|Payload(ws)| - 1] == 2 <==> EndsEmpty(ws))
  {
    var s, vs, tail := ws[0].name, ws[0].values, Payload(ws[1..]);
    PayloadIs(ws);
    if |ws| == 1 {
      OneVariableEnds(s, vs, Payload(ws));
    } else {
      PayloadEnds(ws[1..]);
      LastOf(WrittenValues(vs), tail);
      LastOf(s, Rest(vs, ws[1..]));
      LastOf([1], s + Rest(vs, ws[1..]));
    }
  }

  // ----- The round trip -----

  lemma CellsTold(pairs: seq<MsspVar>)
    ensures Cells(|pairs|, pairs) == Told(pairs)
  {
  }

  lemma PayloadOutcome(ws: seq<Variable>)
    requires ws != []
    ensures var p := Payload(ws);
            && p != [] && p[0] == 1 && From(p, 0, []) == Pairs(p, 1, 1, [])
            && Outcome(p) == [Event.Mssp(Cells(Vals(p, 0, |p|), Pairs(p, 1, 1, [])))]
  {
    PayloadIs(ws);
  }

  lemma ReadBack(ws: seq<Variable>)
    requires ws != [] && NoTwo(ws) && NoOne(ws) && !EndsEmpty(ws)
    ensures Outcome(Payload(ws)) == [Event.Mssp(Told(AllPairs(ws)))]
  {
    var p := Payload(ws);
    PayloadOutcome(ws);
    PayloadEnds(ws);
    assert p[0..] == p;
    VariablesRead(p, 0, [], ws);
    PairsCount(p, 1, VAR, []);
    CellsTold(AllPairs(ws));
  }

  lemma ToldIs(count: nat, pairs: seq<MsspVar>, told: seq<MsspVar>)
    requires Cells(count, pairs) == Told(told)
    ensures count == |told| <= |pairs|
    ensures forall i :: 0 <= i < |told| ==> told[i] == pairs[i]
  {
    assert |Cells(count, pairs)| == |Told(told)|;
    if told != [] { assert Cells(count, pairs)[|told| - 1] == Told(told)[|told| - 1]; }
    forall i | 0 <= i < |told| ensures told[i] == pairs[i] {
      assert Cells(count, pairs)[i] == Told(told)[i];
    }
  }

  lemma OnlyReadBack(ws: seq<Variable>)
    requires ws != [] && Outcome(Payload(ws)) == [Event.Mssp(Told(AllPairs(ws)))]
    ensures NoTwo(ws) && NoOne(ws) && !EndsEmpty(ws)
  {
    var p, told := Payload(ws), AllPairs(ws);
    var pairs := Pairs(p, 1, 1, []);
    PayloadOutcome(ws);
    ToldIs(Vals(p, 0, |p|), pairs, told);
    ValsAreTwos(p, 0);
    assert p[0..] == p;
    PayloadTwos(ws);
    PayloadEnds(ws);
    PairsCount(p, 1, VAR, []);
    forall i | 0 <= i < |told| ensures PairLacks(told[i], 1) {
      PairsLack(p, 1, 1, [], i);
    }
    AllLackAt(told, 1);
    PairsOne(ws);
  }

  /** Any list of variables with their values comes back as one cell per value, in order and
      under its own name, exactly when there is a variable, no string holds byte 2, no value and
      no name that has a value holds byte 1, and the last value written is not empty. */
  lemma RoundTrip(ws: seq<Variable>)
    ensures Outcome(Payload(ws)) == [Event.Mssp(Told(AllPairs(ws)))]
            <==> ws != [] && NoTwo(ws) && NoOne(ws) && !EndsEmpty(ws)
  {
    if ws != [] {
      if NoTwo(ws) && NoOne(ws) && !EndsEmpty(ws) {
        ReadBack(ws);
      } else if Outcome(Payload(ws)) == [Event.Mssp(Told(AllPairs(ws)))] {
        OnlyReadBack(ws);
      }
    }
  }
}
