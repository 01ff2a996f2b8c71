/** MSSP payloads (`_mssp_telnet`): the in-place parser, the pairs it computes, and which
    VAL each array cell belongs to. */
module Mssp {
  import opened Sequences
  import opened Bytes
  import opened Events
  import opened Spans

  const VAR: byte := 1
  const VAL: byte := 2

  predicate Marks(b: byte) { b == VAR || b == VAL }

  /** The first mark at or after `c`, or the end. */
  function MarkAt(p: seq<byte>, c: nat): (e: nat)
    requires c <= |p|
    ensures c <= e <= |p| && (e < |p| ==> Marks(p[e]))
    decreases |p| - c
  {
    if c == |p| || Marks(p[c]) then c else MarkAt(p, c + 1)
  }

  lemma {:induction false} MarkAtFirst(p: seq<byte>, c: nat)
    requires c <= |p|
    ensures forall k :: c <= k < MarkAt(p, c) ==> !Marks(p[k])
    decreases |p| - c
  {
    if c < |p| && !Marks(p[c]) { MarkAtFirst(p, c + 1); }
  }

  function Segment(p: seq<byte>, c: nat): seq<byte>
    requires c <= |p|
  {
    p[c..MarkAt(p, c)]
  }

  /** The pairs stored from `c` on, where the segment at `c` follows a mark `kind` and
      `name` is the last variable name seen. A mark that ends the payload starts nothing. */
  function Pairs(p: seq<byte>, c: nat, kind: byte, name: seq<byte>): seq<MsspVar>
    requires c <= |p| + 1
    decreases |p| + 1 - c
  {
    if c >= |p| then [] else
      var e := MarkAt(p, c);
      var next := if e < |p| then p[e] else NUL;
      if kind == VAR then Pairs(p, e + 1, next, Segment(p, c))
      else [MsspVar(name, Segment(p, c))] + Pairs(p, e + 1, next, name)
  }

  /** The VAL bytes in p[a..b]. */
  function Vals(p: seq<byte>, a: nat, b: nat): nat
    requires a <= b <= |p|
    decreases b - a
  {
    if a == b then 0 else (if p[a] == VAL then 1 else 0) + Vals(p, a + 1, b)
  }

  /** The array handed to the application: one cell per VAL, the pairs first; cells the loop
      does not reach keep their null pointers. */
  function Cells(count: nat, pairs: seq<MsspVar>): seq<Option<MsspVar>> {
    seq(count, i requires 0 <= i < count => if i < |pairs| then Some(pairs[i]) else None)
  }

  function Outcome(p: seq<byte>): seq<Event> {
    if p == [] then []
    else if p[0] != VAR then [Warning(BadMssp)]
    else [Event.Mssp(Cells(Vals(p, 0, |p|), Pairs(p, 1, VAR, [])))]
  }

  // ----- What the pairs are -----

  /** The last VAR before `i`. */
  function LastVar(p: seq<byte>, i: nat): (j: nat)
    requires 0 < i <= |p| && p[0] == VAR
    ensures j < i && p[j] == VAR
    decreases i
  {
    if p[i - 1] == VAR then i - 1 else LastVar(p, i - 1)
  }

  lemma {:induction false} LastVarSkip(p: seq<byte>, i: nat, e: nat)
    requires 0 < i <= e <= |p| && p[0] == VAR && forall k :: i <= k < e ==> p[k] != VAR
    ensures LastVar(p, e) == LastVar(p, i)
    decreases e
  {
    if i < e { LastVarSkip(p, i, e - 1); }
  }

  lemma {:induction false} ValsSkip(p: seq<byte>, a: nat, e: nat, b: nat)
    requires a <= e <= b <= |p| && forall k :: a <= k < e ==> !Marks(p[k])
    ensures Vals(p, a, b) == Vals(p, e, b)
    decreases e - a
  {
    if a < e { ValsSkip(p, a + 1, e, b); }
  }

  /** The mark at `m` is followed by the variable name that holds there. */
  predicate NameKnown(p: seq<byte>, m: nat, name: seq<byte>)
    requires m < |p| && p[0] == VAR
  {
    p[m] == VAR || (0 < m && name == Segment(p, LastVar(p, m) + 1))
  }

  /** The pair a VAL at `v` stands for: the segment after it, under the nearest VAR before it. */
  function PairAt(p: seq<byte>, v: nat): MsspVar
    requires 0 < v < |p| && p[0] == VAR
  {
    MsspVar(Segment(p, LastVar(p, v) + 1), Segment(p, v + 1))
  }

  predicate HasPair(pairs: seq<MsspVar>, k: nat, pair: MsspVar) {
    k < |pairs| && pairs[k] == pair
  }

  /** The name in force after the segment at `c`. */
  function NextName(p: seq<byte>, c: nat, kind: byte, name: seq<byte>): seq<byte>
    requires c <= |p|
  {
    if kind == VAR then Segment(p, c) else name
  }

  lemma PairsUnfold(p: seq<byte>, c: nat, kind: byte, name: seq<byte>)
    requires 1 <= c < |p|
    ensures var e := MarkAt(p, c);
            var rest := Pairs(p, e + 1, if e < |p| then p[e] else NUL, NextName(p, c, kind, name));
            Pairs(p, c, kind, name) == if kind == VAR then rest else [MsspVar(name, Segment(p, c))] + rest
  {
  }

  lemma ValsStep(p: seq<byte>, a: nat)
    requires a < |p|
    ensures Vals(p, a, |p|) == (if p[a] == VAL then 1 else 0) + Vals(p, a + 1, |p|)
  {
  }

  /** One pair per VAL from the mark at c-1 on, except for a VAL that ends the payload. */
  lemma {:induction false} PairsCount(p: seq<byte>, c: nat, kind: byte, name: seq<byte>)
    requires 1 <= c <= |p| && p[c - 1] == kind && Marks(kind)
    ensures |Pairs(p, c, kind, name)| == Vals(p, c - 1, |p|) - if p[|p| - 1] == VAL then 1 else 0
    decreases |p| - c
  {
    ValsStep(p, c - 1);
    if c < |p| {
      var e := MarkAt(p, c);
      MarkAtFirst(p, c);
      ValsSkip(p, c, e, |p|);
      PairsUnfold(p, c, kind, name);
      if e < |p| {
        PairsCount(p, e + 1, p[e], NextName(p, c, kind, name));
      } else {
        assert !Marks(p[|p| - 1]);
      }
    }
  }

  lemma HasPairStep(p: seq<byte>, c: nat, kind: byte, name: seq<byte>, k: nat, pair: MsspVar)
    requires 1 <= c < |p| && MarkAt(p, c) < |p|
    requires HasPair(Pairs(p, MarkAt(p, c) + 1, p[MarkAt(p, c)], NextName(p, c, kind, name)), k, pair)
    ensures HasPair(Pairs(p, c, kind, name), if kind == VAR then k else k + 1, pair)
  {
    PairsUnfold(p, c, kind, name);
  }

  lemma NameKnownStep(p: seq<byte>, c: nat, kind: byte, name: seq<byte>)
    requires 1 <= c < |p| && MarkAt(p, c) < |p| && p[0] == VAR
    requires p[c - 1] == kind && Marks(kind) && NameKnown(p, c - 1, name)
    ensures NameKnown(p, MarkAt(p, c), NextName(p, c, kind, name))
  {
    MarkAtFirst(p, c);
    LastVarSkip(p, c, MarkAt(p, c));
  }

  lemma {:induction false} PairOf(p: seq<byte>, c: nat, kind: byte, name: seq<byte>, v: nat, pair: MsspVar)
    requires 1 <= c <= v + 1 < |p| && p[0] == VAR
    requires p[c - 1] == kind && Marks(kind) && NameKnown(p, c - 1, name)
    requires p[v] == VAL && pair == PairAt(p, v)
    ensures HasPair(Pairs(p, c, kind, name), Vals(p, c - 1, v), pair)
    decreases |p| - c
  {
    if v == c - 1 {
      PairsUnfold(p, c, kind, name);
    } else {
      var e := MarkAt(p, c);
      MarkAtFirst(p, c);
      assert e <= v;
      ValsSkip(p, c, e, v);
      NameKnownStep(p, c, kind, name);
      PairOf(p, e + 1, p[e], NextName(p, c, kind, name), v, pair);
      HasPairStep(p, c, kind, name, Vals(p, e, v), pair);
    }
  }

  /** The cell of the VAL at `v`: the segment after it, under the nearest VAR before it. */
  predicate CellOf(p: seq<byte>, cells: seq<Option<MsspVar>>, v: nat)
    requires p != [] && p[0] == VAR && v + 1 < |p| && p[v] == VAL
  {
    var k := Vals(p, 0, v);
    k < |cells| && cells[k] == Some(PairAt(p, v))
  }

  /** The array is filled in the order of the VALs, each paired with the nearest VAR before
      it; it has one cell per VAL, and every cell is filled exactly when no VAL ends the payload. */
  lemma PairsNearestVar(p: seq<byte>)
    requires p != [] && p[0] == VAR
    ensures Outcome(p) == [Event.Mssp(Outcome(p)[0].cells)]
    ensures var cells := Outcome(p)[0].cells;
            && |cells| == Vals(p, 0, |p|)
            && ((forall i :: 0 <= i < |cells| ==> cells[i].Some?) <==> p[|p| - 1] != VAL)
            && (forall v :: 0 <= v < |p| - 1 && p[v] == VAL ==> CellOf(p, cells, v))
  {
    var cells := Outcome(p)[0].cells;
    PairsCount(p, 1, VAR, []);
    if p[|p| - 1] == VAL {
      assert cells[|cells| - 1].None?;
    }
    forall v | 0 <= v < |p| - 1 && p[v] == VAL ensures CellOf(p, cells, v) {
      PairOf(p, 1, VAR, [], v, PairAt(p, v));
    }
  }

  /** A payload that ends in VAL hands the application a cell with null pointers. */
  lemma CellUnfilled()
    ensures Outcome([VAR, 65, VAL]) == [Event.Mssp([None])]
  {
    var p := [VAR, 65, VAL];
    assert MarkAt(p, 1) == MarkAt(p, 2) == 2;
    assert Pairs(p, 1, VAR, []) == Pairs(p, 3, VAL, Segment(p, 1)) == [];
    assert Vals(p, 0, 3) == Vals(p, 1, 3) == Vals(p, 2, 3) == 1 + Vals(p, 3, 3);
    assert Cells(1, []) == [None];
  }

  // ----- The in-place parser -----

  datatype Slot = Slot(name: Span, value: Span)

  predicate Stored(buf: seq<byte>, cell: Option<Slot>, pair: MsspVar, out: nat) {
    cell.Some? && Holds(buf, cell.value.name, pair.name, out) && Holds(buf, cell.value.value, pair.value, out)
  }

  ghost predicate Filled(buf: seq<byte>, values: seq<Option<Slot>>, pairs: seq<MsspVar>, n: nat, out: nat) {
    && n <= |values| && n <= |pairs|
    && (forall i :: 0 <= i < n ==> Stored(buf, values[i], pairs[i], out))
    && (forall i :: n <= i < |values| ==> values[i].None?)
  }

  lemma FilledFrame(buf: seq<byte>, buf': seq<byte>, values: seq<Option<Slot>>, pairs: seq<MsspVar>, n: nat,
                    out: nat, out': nat)
    requires Filled(buf, values, pairs, n, out) && out <= out' <= |buf'| == |buf|
    requires forall k :: 0 <= k < out ==> buf'[k] == buf[k]
    ensures Filled(buf', values, pairs, n, out')
  {
    forall i | 0 <= i < n ensures Stored(buf', values[i], pairs[i], out') {
      assert Stored(buf, values[i], pairs[i], out);
      HoldsFrame(buf, buf', values[i].value.name, pairs[i].name, out, out');
      HoldsFrame(buf, buf', values[i].value.value, pairs[i].value, out, out');
    }
  }

  lemma FilledStore(buf: seq<byte>, values: seq<Option<Slot>>, pairs: seq<MsspVar>, i: nat, out: nat, slot: Slot)
    requires Filled(buf, values, pairs, i, out) && i < |pairs| && i < |values|
    requires Holds(buf, slot.name, pairs[i].name, out) && Holds(buf, slot.value, pairs[i].value, out)
    ensures Filled(buf, values[i := Some(slot)], pairs, i + 1, out)
  {
  }

  /** The segments still to be read give the pairs not yet stored. */
  ghost predicate Remaining(p: seq<byte>, c: nat, kind: byte, name: seq<byte>, pairs: seq<MsspVar>, i: nat)
    requires 1 <= c <= |p| + 1
  {
    && i <= |pairs|
    && pairs[i..] == Pairs(p, c, kind, name)
    && (c <= |p| ==> p[c - 1] == kind && Marks(kind))
  }

  /** The variables of the second pass: the read pointer, the mark before it, the name in
      force, the array, and its first free cell. */
  datatype Cursor = Cursor(c: nat, kind: byte, name: Option<Span>, values: seq<Option<Slot>>, i: nat)

  /** What the second pass keeps: the name in force (spelled `text`) and the filled cells lie
      below the write pointer, which is one behind the read pointer. */
  ghost predicate Stands(buf: seq<byte>, p: seq<byte>, pairs: seq<MsspVar>, at: Cursor, text: seq<byte>)
    requires 1 <= at.c <= |p| + 1
  {
    && Remaining(p, at.c, at.kind, text, pairs, at.i)
    && (at.c <= |p| && at.kind == VAL ==> at.name.Some?)
    && (at.name.Some? ==> Holds(buf, at.name.value, text, at.c - 1))
    && Filled(buf, at.values, pairs, at.i, at.c - 1)
  }

  /** From `at` to `at'` the read pointer passed the segment and the mark after it. */
  predicate Passed(p: seq<byte>, at: Cursor, at': Cursor) {
    && 1 <= at.c < |p|
    && at'.c == MarkAt(p, at.c) + 1
    && (at'.c <= |p| ==> at'.kind == p[at'.c - 1])
  }

  /** From `buf` to `buf'` the segment `text` was moved to `to`, and nothing below it changed. */
  ghost predicate Moved(buf: seq<byte>, buf': seq<byte>, to: Span, text: seq<byte>, out: nat) {
    |buf'| == |buf| && Holds(buf', to, text, out) && forall k :: 0 <= k < to.at ==> buf'[k] == buf[k]
  }

  lemma RemainingAfterName(p: seq<byte>, at: Cursor, text: seq<byte>, pairs: seq<MsspVar>, at': Cursor)
    requires Passed(p, at, at') && at.kind == VAR && Remaining(p, at.c, at.kind, text, pairs, at.i)
    requires at'.i == at.i
    ensures Remaining(p, at'.c, at'.kind, Segment(p, at.c), pairs, at'.i)
  {
    PairsUnfold(p, at.c, VAR, text);
  }

  lemma RemainingAfterValue(p: seq<byte>, at: Cursor, text: seq<byte>, pairs: seq<MsspVar>, at': Cursor)
    requires Passed(p, at, at') && at.kind == VAL && Remaining(p, at.c, at.kind, text, pairs, at.i)
    requires at'.i == at.i + 1
    ensures at.i < |pairs| && pairs[at.i] == MsspVar(text, Segment(p, at.c))
    ensures Remaining(p, at'.c, at'.kind, text, pairs, at'.i)
  {
    var i, rest := at.i, Pairs(p, at'.c, at'.kind, text);
    PairsUnfold(p, at.c, VAL, text);
    assert pairs[i..] == [MsspVar(text, Segment(p, at.c))] + rest;
    DropOne(pairs, i);
    SameCons(pairs[i], pairs[i + 1..], MsspVar(text, Segment(p, at.c)), rest);
  }

  lemma FilledMoved(buf: seq<byte>, buf': seq<byte>, at: Cursor, pairs: seq<MsspVar>, to: Span, text: seq<byte>,
                    out: nat)
    requires Filled(buf, at.values, pairs, at.i, to.at) && Moved(buf, buf', to, text, out)
    ensures Filled(buf', at.values, pairs, at.i, out)
  {
    FilledFrame(buf, buf', at.values, pairs, at.i, to.at, out);
  }

  lemma CellStored(buf: seq<byte>, buf': seq<byte>, at: Cursor, pairs: seq<MsspVar>, name: seq<byte>, to: Span,
                   text: seq<byte>, out: nat, slot: Slot)
    requires Filled(buf, at.values, pairs, at.i, to.at) && Moved(buf, buf', to, text, out)
    requires at.i < |pairs| && pairs[at.i] == MsspVar(name, text) && at.i < |at.values|
    requires Holds(buf, slot.name, name, to.at) && slot.value == to
    ensures Filled(buf', at.values[at.i := Some(slot)], pairs, at.i + 1, out) && Holds(buf', slot.name, name, out)
  {
    FilledMoved(buf, buf', at, pairs, to, text, out);
    HoldsFrame(buf, buf', slot.name, name, to.at, out);
    FilledStore(buf', at.values, pairs, at.i, out, slot);
  }

  /** A turn of the loop after VAR: the segment becomes the name in force. */
  lemma NameStands(buf: seq<byte>, buf': seq<byte>, p: seq<byte>, pairs: seq<MsspVar>, at: Cursor, text: seq<byte>,
                   to: Span, at': Cursor, text': seq<byte>)
    requires Passed(p, at, at') && at.kind == VAR && Stands(buf, p, pairs, at, text)
    requires to.at == at.c - 1 && text' == Segment(p, at.c) && Moved(buf, buf', to, text', at'.c - 1)
    requires at'.name == Some(to) && at'.values == at.values && at'.i == at.i
    ensures Stands(buf', p, pairs, at', text')
  {
    RemainingAfterName(p, at, text, pairs, at');
    FilledMoved(buf, buf', at, pairs, to, text', at'.c - 1);
  }

  /** A turn after VAL: the segment and the name in force fill the next cell. */
  lemma ValueStands(buf: seq<byte>, buf': seq<byte>, p: seq<byte>, pairs: seq<MsspVar>, at: Cursor, text: seq<byte>,
                    to: Span, at': Cursor, slot: Slot)
    requires Passed(p, at, at') && at.kind == VAL && Stands(buf, p, pairs, at, text)
    requires to.at == at.c - 1 && Moved(buf, buf', to, Segment(p, at.c), at'.c - 1)
    requires at.name.Some? && at.i < |at.values| && slot == Slot(at.name.value, to)
    requires at'.name == at.name && at'.values == at.values[at.i := Some(slot)] && at'.i == at.i + 1
    ensures Stands(buf', p, pairs, at', text)
  {
    RemainingAfterValue(p, at, text, pairs, at');
    CellStored(buf, buf', at, pairs, text, to, Segment(p, at.c), at'.c - 1, slot);
  }

  /** A VAL segment always has a name to go with and a cell to go to. */
  lemma CellFree(buf: seq<byte>, p: seq<byte>, pairs: seq<MsspVar>, at: Cursor, text: seq<byte>)
    requires 1 <= at.c < |p| && |pairs| <= |at.values| && Stands(buf, p, pairs, at, text)
    ensures at.kind == VAR || (at.kind == VAL && at.name.Some? && at.i < |at.values|)
  {
    PairsUnfold(p, at.c, at.kind, text);
  }

  lemma StandsDone(buf: seq<byte>, p: seq<byte>, pairs: seq<MsspVar>, at: Cursor, text: seq<byte>)
    requires |p| <= at.c <= |p| + 1 && 1 <= at.c && |p| <= |buf| && Stands(buf, p, pairs, at, text)
    ensures Filled(buf, at.values, pairs, |pairs|, |p|)
  {
    assert pairs[at.i..] == [];
    FilledFrame(buf, buf, at.values, pairs, at.i, at.c - 1, |p|);
  }

  /** Moves one segment down by one cell and ends it with NUL (libtelnet.c:692-697). */
  method CopySegment(buffer: array<byte>, size: nat, ghost p: seq<byte>, c0: nat) returns (c: nat)
    requires |p| == size <= buffer.Length && 1 <= c0 < size
    requires forall k :: c0 <= k < size ==> buffer[k] == p[k]
    modifies buffer
    ensures c == MarkAt(p, c0)
    ensures Holds(buffer[..], Span(c0 - 1, c - c0), Segment(p, c0), c)
    ensures forall k :: 0 <= k < c0 - 1 || c <= k < buffer.Length ==> buffer[k] == old(buffer[k])
  {
    var out: nat := c0 - 1;
    c := c0;
    while c < size && !Marks(buffer[c])
      invariant c0 <= c <= size && out == c - 1
      invariant MarkAt(p, c) == MarkAt(p, c0)
      invariant forall k :: 0 <= k < c0 - 1 || c <= k < buffer.Length ==> buffer[k] == old(buffer[k])
      invariant forall k :: c0 <= k < c ==> buffer[k - 1] == p[k]
    {
      buffer[out] := buffer[c];
      out, c := out + 1, c + 1;
    }
    buffer[out] := NUL;
    forall k | 0 <= k < c - c0 ensures buffer[c0 - 1 + k] == Segment(p, c0)[k] {
      assert buffer[(c0 + k) - 1] == p[c0 + k];
    }
  }

  /** The counting pass (libtelnet.c:670-675). */
  method CountVals(buffer: array<byte>, size: nat) returns (count: nat)
    requires size <= buffer.Length
    ensures count == Vals(buffer[..size], 0, size)
  {
    ghost var p := buffer[..size];
    count := 0;
    var i: nat := 0;
    while i != size
      invariant i <= size && count + Vals(p, i, size) == Vals(p, 0, size)
      decreases size - i
    {
      assert p[i] == buffer[i];
      if buffer[i] == VAL {
        count := count + 1;
      }
      i := i + 1;
    }
  }

  /** One turn of the second pass (libtelnet.c:691-716). The "invalid MSSP" branch is dead. At the
      end of the payload the source also reads the cell after it into `next_type`; where the
      array ends too, `past` stands for whatever is there. */
  method FillCell(buffer: array<byte>, size: nat, at0: Cursor, past: byte, ghost p: seq<byte>,
                  ghost pairs: seq<MsspVar>, ghost text0: seq<byte>)
    returns (at: Cursor, ghost text: seq<byte>)
    requires |p| == size <= buffer.Length && 1 <= at0.c < size && |pairs| <= |at0.values|
    requires Stands(buffer[..], p, pairs, at0, text0)
    requires forall k :: at0.c <= k < size ==> buffer[k] == p[k]
    modifies buffer
    ensures at0.c < at.c <= size + 1 && |at.values| == |at0.values|
    ensures Stands(buffer[..], p, pairs, at, text)
    ensures forall k :: 0 <= k < buffer.Length && (at.c <= k || size <= k) ==> buffer[k] == old(buffer[k])
  {
    CellFree(buffer[..], p, pairs, at0, text0);
    ghost var buf := buffer[..];
    var c := CopySegment(buffer, size, p, at0.c);
    var last := Span(at0.c - 1, c - at0.c);
    at := at0.(c := c + 1, kind := if c < buffer.Length then buffer[c] else past);
    if at0.kind == VAR {
      at, text := at.(name := Some(last)), Segment(p, at0.c);
      NameStands(buf, buffer[..], p, pairs, at0, text0, last, at, text);
    } else if at0.kind == VAL && at0.name.Some? {
      var slot := Slot(at0.name.value, last);
      at, text := at.(values := at0.values[at0.i := Some(slot)], i := at0.i + 1), text0;
      ValueStands(buf, buffer[..], p, pairs, at0, text0, last, at, slot);
    } else {
      assert false;
    }
  }

  /** The second pass; `past` is the byte behind the array. */
  method FillCells(buffer: array<byte>, size: nat, count: nat, past: byte) returns (values: seq<Option<Slot>>)
    requires 0 < size <= buffer.Length && buffer[0] == VAR
    requires count == Vals(buffer[..size], 0, size)
    modifies buffer
    ensures |values| == count
    ensures var pairs := Pairs(old(buffer[..size]), 1, VAR, []);
            |pairs| <= count && Filled(buffer[..], values, pairs, |pairs|, size)
    ensures forall k :: size <= k < buffer.Length ==> buffer[k] == old(buffer[k])
  {
    ghost var p := buffer[..size];
    ghost var pairs := Pairs(p, 1, VAR, []);
    PairsCount(p, 1, VAR, []);
    ghost var text := [];
    var at := Cursor(1, buffer[0], None, seq(count, _ => None), 0);
    while at.c < size
      invariant 1 <= at.c <= size + 1 && |at.values| == count
      invariant Stands(buffer[..], p, pairs, at, text)
      invariant forall k :: 0 <= k < buffer.Length && (at.c <= k || size <= k) ==> buffer[k] == old(buffer[k])
      decreases size + 1 - at.c
    {
      at, text := FillCell(buffer, size, at, past, p, pairs, text);
    }
    StandsDone(buffer[..], p, pairs, at, text);
    values := at.values;
  }

  /** The handler's view of the array, read after the whole parse. */
  method ReadCells(buffer: array<byte>, size: nat, values: seq<Option<Slot>>, ghost pairs: seq<MsspVar>)
    returns (cells: seq<Option<MsspVar>>)
    requires size <= buffer.Length
    requires |pairs| <= |values| && Filled(buffer[..], values, pairs, |pairs|, size)
    ensures cells == Cells(|values|, pairs)
  {
    cells := [];
    for i := 0 to |values|
      invariant cells == Cells(|values|, pairs)[..i]
    {
      if values[i].Some? {
        var slot := values[i].value;
        assert i < |pairs| && Stored(buffer[..], values[i], pairs[i], size);
        LoadHeld(buffer[..], slot.name, pairs[i].name, size);
        LoadHeld(buffer[..], slot.value, pairs[i].value, size);
        cells := cells + [Some(MsspVar(Load(buffer[..], slot.name), Load(buffer[..], slot.value)))];
      } else {
        cells := cells + [None];
      }
    }
  }

  /** `_mssp_telnet`, which always returns 0. */
  method ParseMssp(buffer: array<byte>, size: nat) returns (events: seq<Event>)
    requires size <= buffer.Length
    modifies buffer
    ensures events == Outcome(old(buffer[..size]))
  {
    if size == 0 {
      return [];
    }
    if buffer[0] != VAR {
      return [Warning(BadMssp)];
    }
    ghost var pairs := Pairs(buffer[..size], 1, VAR, []);
    var count := CountVals(buffer, size);
    var past: byte := *;
    var values := FillCells(buffer, size, count, past);
    var cells := ReadCells(buffer, size, values, pairs);
    return [Event.Mssp(cells)];
  }
}
