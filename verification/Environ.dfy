/** ENVIRON and NEW-ENVIRON payloads (`_environ_telnet`): the in-place parser, the pure
    parser it computes, and the encodings it undoes. */
module Environ {
  import opened Sequences
  import opened Bytes
  import opened Events
  import opened Spans

  // RFC 1572.
  const SEND: byte := 1
  const IS: byte := 0
  const INFO: byte := 2
  const VAR: byte := 0
  const VALUE: byte := 1
  const ESC: byte := 2
  const USERVAR: byte := 3

  predicate Heads(b: byte) { b == VAR || b == USERVAR }

  /** Does `b`, unescaped, end a name (or, when `inName` is false, a value)? */
  predicate Stops(b: byte, inName: bool) {
    Heads(b) || (inName && b == VALUE)
  }

  // ----- The pure parser -----

  /** Where the name or value starting at `c` ends. */
  function SegmentEnd(p: seq<byte>, c: nat, inName: bool): (e: nat)
    requires c <= |p|
    ensures c <= e <= |p|
    ensures e < |p| ==> Stops(p[e], inName)
    decreases |p| - c
  {
    if c == |p| || Stops(p[c], inName) then c
    else if p[c] == ESC then if c + 1 == |p| then |p| else SegmentEnd(p, c + 2, inName)
    else SegmentEnd(p, c + 1, inName)
  }

  /** Its bytes, each ESC replaced by the byte it protects. */
  function Segment(p: seq<byte>, c: nat, inName: bool): (s: seq<byte>)
    requires c <= |p|
    ensures |s| <= SegmentEnd(p, c, inName) - c
    decreases |p| - c
  {
    if c == |p| || Stops(p[c], inName) then []
    else if p[c] == ESC then if c + 1 == |p| then [] else [p[c + 1]] + Segment(p, c + 2, inName)
    else [p[c]] + Segment(p, c + 1, inName)
  }

  /** One step of the parser inside a name or value. */
  lemma SegmentStep(p: seq<byte>, c: nat, next: nat, inName: bool)
    requires c < |p| && !Stops(p[c], inName) && next == (if p[c] == ESC then c + 2 else c + 1) <= |p|
    ensures SegmentEnd(p, c, inName) == SegmentEnd(p, next, inName)
    ensures Segment(p, c, inName) == [p[next - 1]] + Segment(p, next, inName)
  {
  }

  /** Has the variable whose type byte is at `c` a VALUE part? */
  predicate HasValue(p: seq<byte>, c: nat)
    requires c < |p|
  {
    var n := SegmentEnd(p, c + 1, true);
    n < |p| && p[n] == VALUE
  }

  function EntryAt(p: seq<byte>, c: nat): EnvVar
    requires c < |p|
  {
    var n := SegmentEnd(p, c + 1, true);
    EnvVar(p[c], Segment(p, c + 1, true), if HasValue(p, c) then Segment(p, n + 1, false) else [])
  }

  function NextEntry(p: seq<byte>, c: nat): (d: nat)
    requires c < |p|
    ensures c < d <= |p|
    ensures d < |p| ==> Heads(p[d])
  {
    var n := SegmentEnd(p, c + 1, true);
    if HasValue(p, c) then SegmentEnd(p, n + 1, false) else n
  }

  /** The variables from the type byte at `c` on. */
  function Entries(p: seq<byte>, c: nat): seq<EnvVar>
    requires c <= |p|
    decreases |p| - c
  {
    if c == |p| then [] else [EntryAt(p, c)] + Entries(p, NextEntry(p, c))
  }

  /** The counting pass: unescaped type bytes from `c` on. */
  function CountFrom(p: seq<byte>, c: nat): nat
    requires c <= |p|
    decreases |p| - c
  {
    if c == |p| then 0
    else if Heads(p[c]) then 1 + CountFrom(p, c + 1)
    else if p[c] == ESC then if c + 1 == |p| then 0 else CountFrom(p, c + 2)
    else CountFrom(p, c + 1)
  }

  lemma {:induction false} CountSkipsSegment(p: seq<byte>, c: nat, inName: bool)
    requires c <= |p|
    ensures CountFrom(p, c) == CountFrom(p, SegmentEnd(p, c, inName))
    decreases |p| - c
  {
    if c == |p| || Stops(p[c], inName) {
    } else if p[c] == ESC {
      if c + 1 < |p| { CountSkipsSegment(p, c + 2, inName); }
    } else {
      CountSkipsSegment(p, c + 1, inName);
    }
  }

  lemma CountSkipsEntry(p: seq<byte>, c: nat)
    requires c < |p| && Heads(p[c])
    ensures CountFrom(p, c) == 1 + CountFrom(p, NextEntry(p, c))
  {
    var n := SegmentEnd(p, c + 1, true);
    CountSkipsSegment(p, c + 1, true);
    if HasValue(p, c) {
      assert CountFrom(p, n) == CountFrom(p, n + 1);
      CountSkipsSegment(p, n + 1, false);
    }
  }

  /** The counting pass and the parsing pass see the same variables. */
  lemma {:induction false} CountIsEntries(p: seq<byte>, c: nat)
    requires c <= |p| && (c < |p| ==> Heads(p[c]))
    ensures CountFrom(p, c) == |Entries(p, c)|
    decreases |p| - c
  {
    if c < |p| {
      CountSkipsEntry(p, c);
      CountIsEntries(p, NextEntry(p, c));
    }
  }

  predicate KnownCommand(cmd: byte) { cmd == SEND || cmd == IS || cmd == INFO }

  /** The checks of libtelnet.c:520-558 that a payload of at least two bytes must pass. */
  predicate Parses(p: seq<byte>) {
    |p| >= 2 && KnownCommand(p[0]) && Heads(p[1]) && p[|p| - 1] != ESC
  }

  /** What the application is told about a payload. */
  function Outcome(p: seq<byte>): seq<Event> {
    if p == [] then []
    else if |p| == 1 && KnownCommand(p[0]) then [Event.Environ(p[0], [])]
    else if Parses(p) then [Event.Environ(p[0], Entries(p, 1))]
    else [Warning(BadEnviron)]
  }

  /** Whether the parser returns 1, which makes the decoder start over on the rest of its input. */
  predicate Succeeds(p: seq<byte>) {
    (|p| == 1 && KnownCommand(p[0])) || Parses(p)
  }

  /** The payloads RFC 1572 lets through, by their bytes: a command 0, 1 or 2, then nothing, or
      a type byte 0 or 3 and no ESC at the end. */
  predicate WellFormed(p: seq<byte>) {
    p != [] && p[0] <= 2 && (|p| == 1 || ((p[1] == 0 || p[1] == 3) && p[|p| - 1] != 2))
  }

  /** The parser returns 1 for exactly these, raises one ENVIRON event with the command for
      exactly these, and warns of every other payload that is not empty. */
  lemma AcceptsWellFormed(p: seq<byte>)
    ensures Succeeds(p) <==> WellFormed(p)
    ensures if p == [] then Outcome(p) == []
            else if WellFormed(p) then |Outcome(p)| == 1 && Outcome(p)[0].Environ? && Outcome(p)[0].cmd == p[0]
            else Outcome(p) == [Warning(BadEnviron)]
  {
  }

  // ----- The in-place parser -----

  /** One cell of the `values` array. `None` is C's literal "", which is not in the buffer. */
  datatype Slot = Slot(kind: byte, name: Span, value: Option<Span>)

  const BLANK := Slot(0, Span(0, 0), None)

  predicate Stored(buf: seq<byte>, s: Slot, e: EnvVar, out: nat) {
    && s.kind == e.kind
    && Holds(buf, s.name, e.name, out)
    && (if s.value.Some? then Holds(buf, s.value.value, e.value, out) else e.value == [])
  }

  /** How far the copy of the segment at `c0` has come: `text` is written, the rest is at `c`. */
  ghost predicate Copying(p: seq<byte>, c0: nat, c: nat, inName: bool, text: seq<byte>)
    requires c0 <= |p|
  {
    && c0 <= c <= |p|
    && |text| <= c - c0
    && text + Segment(p, c, inName) == Segment(p, c0, inName)
    && SegmentEnd(p, c, inName) == SegmentEnd(p, c0, inName)
  }

  lemma CopyingStep(p: seq<byte>, c0: nat, c: nat, next: nat, inName: bool, text: seq<byte>, text': seq<byte>)
    requires c0 <= c < |p| && !Stops(p[c], inName)
    requires next == (if p[c] == ESC then c + 2 else c + 1) <= |p|
    requires text' == text + [p[next - 1]]
    requires Copying(p, c0, c, inName, text)
    ensures Copying(p, c0, next, inName, text')
  {
    SegmentStep(p, c, next, inName);
    Assoc(text, [p[next - 1]], Segment(p, next, inName));
  }

  lemma CopyingDone(p: seq<byte>, c0: nat, c: nat, inName: bool, text: seq<byte>)
    requires c0 <= |p| && Copying(p, c0, c, inName, text)
    requires c == |p| || Stops(p[c], inName)
    ensures c == SegmentEnd(p, c0, inName) && text == Segment(p, c0, inName)
  {
    assert Segment(p, c, inName) == [];
  }

  /** The payload from `c` on has not been overwritten. */
  ghost predicate Ahead(buf: seq<byte>, p: seq<byte>, c: nat) {
    |p| <= |buf| && forall k :: c <= k < |p| ==> buf[k] == p[k]
  }

  /** From `buf0` to `buf` nothing below `lo` and nothing from `hi` on changed. */
  ghost predicate Kept(buf0: seq<byte>, buf: seq<byte>, lo: nat, hi: nat) {
    |buf| == |buf0| && forall k :: 0 <= k < |buf| && (k < lo || hi <= k) ==> buf[k] == buf0[k]
  }

  lemma AheadKept(buf0: seq<byte>, buf: seq<byte>, p: seq<byte>, lo: nat, c0: nat, c: nat)
    requires Ahead(buf0, p, c0) && Kept(buf0, buf, lo, c) && c0 <= c
    ensures Ahead(buf, p, c)
  {
  }

  lemma AheadMore(buf: seq<byte>, p: seq<byte>, c: nat, out: nat, b: byte, next: nat)
    requires Ahead(buf, p, c) && out <= c < next && out < |buf|
    ensures Ahead(buf[out := b], p, next)
  {
  }

  lemma KeptTwice(buf0: seq<byte>, buf1: seq<byte>, buf2: seq<byte>, lo0: nat, hi1: nat, lo1: nat, hi2: nat)
    requires Kept(buf0, buf1, lo0, hi1) && Kept(buf1, buf2, lo1, hi2) && lo0 <= lo1 && hi1 <= hi2
    ensures Kept(buf0, buf2, lo0, hi2)
  {
  }

  lemma HoldsKept(buf0: seq<byte>, buf: seq<byte>, at: Span, s: seq<byte>, lo: nat, hi: nat, out: nat)
    requires Holds(buf0, at, s, lo) && Kept(buf0, buf, lo, hi) && lo <= out <= |buf|
    ensures Holds(buf, at, s, out)
  {
    HoldsFrame(buf0, buf, at, s, lo, out);
  }

  /** From `buf0` to `buf` the bytes `text` were written at `out0`, below the read pointer `c`. */
  ghost predicate Copied(buf0: seq<byte>, buf: seq<byte>, out0: nat, c: nat, text: seq<byte>) {
    && Kept(buf0, buf, out0, c)
    && out0 + |text| < c
    && forall k :: 0 <= k < |text| && out0 + k < |buf| ==> buf[out0 + k] == text[k]
  }

  lemma CopiedMore(buf0: seq<byte>, buf: seq<byte>, out0: nat, c: nat, text: seq<byte>, b: byte, next: nat)
    requires Copied(buf0, buf, out0, c, text) && out0 + |text| < |buf| && c < next
    ensures Copied(buf0, buf[out0 + |text| := b], out0, next, text + [b])
  {
  }

  /** The NUL after the text. */
  lemma CopiedHolds(buf0: seq<byte>, buf: seq<byte>, out0: nat, c: nat, text: seq<byte>, buf': seq<byte>)
    requires Copied(buf0, buf, out0, c, text) && out0 + |text| < |buf| && buf' == buf[out0 + |text| := NUL]
    ensures Holds(buf', Span(out0, |text|), text, out0 + |text| + 1) && Kept(buf0, buf', out0, c)
  {
  }

  /** Moves the next byte down to the write pointer, or the byte after it when it is an ESC. */
  method CopyByte(buffer: array<byte>, c0: nat, out0: nat) returns (c: nat, out: nat)
    requires out0 <= c0 < buffer.Length && (buffer[c0] == ESC ==> c0 + 1 < buffer.Length)
    modifies buffer
    ensures c == (if old(buffer[c0]) == ESC then c0 + 2 else c0 + 1) && out == out0 + 1
    ensures buffer[..] == old(buffer[..])[out0 := old(buffer[c - 1])]
  {
    c := if buffer[c0] == ESC then c0 + 1 else c0;
    buffer[out0] := buffer[c];
    c, out := c + 1, out0 + 1;
  }

  /** One turn of the copying loop. */
  method CopyNext(buffer: array<byte>, size: nat, ghost p: seq<byte>, c0: nat, out0: nat, inName: bool,
                  c1: nat, out1: nat, ghost was: seq<byte>, ghost text: seq<byte>)
    returns (c: nat, out: nat, ghost text': seq<byte>)
    requires |p| == size <= buffer.Length && c0 <= c1 < size && p[size - 1] != ESC && out1 == out0 + |text|
    requires Ahead(buffer[..], p, c1) && !Stops(p[c1], inName)
    requires Copying(p, c0, c1, inName, text) && Copied(was, buffer[..], out0, c1, text)
    modifies buffer
    ensures c1 < c <= size && out == out0 + |text'|
    ensures Copying(p, c0, c, inName, text') && Copied(was, buffer[..], out0, c, text')
    ensures Ahead(buffer[..], p, c)
  {
    ghost var buf := buffer[..];
    assert buf[c1] == p[c1];
    c, out := CopyByte(buffer, c1, out1);
    assert buf[c - 1] == p[c - 1];
    text' := text + [p[c - 1]];
    CopyingStep(p, c0, c1, c, inName, text, text');
    CopiedMore(was, buf, out0, c1, text, p[c - 1], c);
    AheadMore(buf, p, c1, out1, p[c - 1], c);
  }

  /** Copies one name or value down to `out0`, dropping ESCs. */
  method CopyText(buffer: array<byte>, size: nat, ghost p: seq<byte>, c0: nat, out0: nat, inName: bool)
    returns (c: nat, out: nat)
    requires |p| == size <= buffer.Length && out0 < c0 <= size && p[size - 1] != ESC && Ahead(buffer[..], p, c0)
    modifies buffer
    ensures c == SegmentEnd(p, c0, inName) && out == out0 + |Segment(p, c0, inName)|
    ensures Copied(old(buffer[..]), buffer[..], out0, c, Segment(p, c0, inName))
  {
    c, out := c0, out0;
    ghost var was, text := buffer[..], [];
    while c < size && !Stops(buffer[c], inName)
      invariant out == out0 + |text| && c <= size
      invariant Copying(p, c0, c, inName, text)
      invariant Copied(was, buffer[..], out0, c, text)
      invariant Ahead(buffer[..], p, c)
      decreases size - c
    {
      assert buffer[..][c] == p[c];
      c, out, text := CopyNext(buffer, size, p, c0, out0, inName, c, out, was, text);
    }
    if c < size { assert buffer[..][c] == p[c]; }
    CopyingDone(p, c0, c, inName, text);
  }

  /** Copies one name or value down to `out0` and ends it with NUL (libtelnet.c:586-604 and
      614-629). The write pointer stays behind the read pointer. */
  method CopySegment(buffer: array<byte>, size: nat, ghost p: seq<byte>, c0: nat, out0: nat, inName: bool)
    returns (c: nat, out: nat)
    requires |p| == size <= buffer.Length && out0 < c0 <= size && p[size - 1] != ESC && Ahead(buffer[..], p, c0)
    modifies buffer
    ensures c == SegmentEnd(p, c0, inName)
    ensures out == out0 + |Segment(p, c0, inName)| + 1 <= c
    ensures Holds(buffer[..], Span(out0, |Segment(p, c0, inName)|), Segment(p, c0, inName), out)
    ensures Kept(old(buffer[..]), buffer[..], out0, c)
  {
    c, out := CopyText(buffer, size, p, c0, out0, inName);
    ghost var buf := buffer[..];
    buffer[out] := NUL;
    CopiedHolds(old(buffer[..]), buf, out0, c, Segment(p, c0, inName), buffer[..]);
    out := out + 1;
  }

  /** The value after the VALUE byte at `n`; the name stored before stays intact. */
  method FillValue(buffer: array<byte>, size: nat, ghost p: seq<byte>, n: nat, out0: nat,
                   ghost name: Span, ghost text: seq<byte>) returns (value: Span, c: nat, out: nat)
    requires |p| == size <= buffer.Length && out0 < n < size && p[size - 1] != ESC && Ahead(buffer[..], p, n)
    requires Holds(buffer[..], name, text, out0)
    modifies buffer
    ensures c == SegmentEnd(p, n + 1, false) && n < c && out0 <= out < c
    ensures Holds(buffer[..], name, text, out) && Holds(buffer[..], value, Segment(p, n + 1, false), out)
    ensures Kept(old(buffer[..]), buffer[..], out0, c)
  {
    c, out := CopySegment(buffer, size, p, n + 1, out0, false);
    value := Span(out0, out - 1 - out0);
    HoldsKept(old(buffer[..]), buffer[..], name, text, out0, c, out);
  }

  /** One variable of the second pass (libtelnet.c:583-633). */
  method FillSlot(buffer: array<byte>, size: nat, ghost p: seq<byte>, c0: nat, out0: nat)
    returns (slot: Slot, c: nat, out: nat)
    requires |p| == size <= buffer.Length && out0 < c0 < size && p[size - 1] != ESC && Ahead(buffer[..], p, c0)
    modifies buffer
    ensures c == NextEntry(p, c0) && out0 <= out < c
    ensures Stored(buffer[..], slot, EntryAt(p, c0), out)
    ensures Kept(old(buffer[..]), buffer[..], out0, c)
  {
    ghost var was := buffer[..];
    var kind := buffer[c0];
    c, out := CopySegment(buffer, size, p, c0 + 1, out0, true);
    AheadKept(was, buffer[..], p, out0, c0, c);
    var name := Span(out0, out - 1 - out0);
    slot := Slot(kind, name, None);
    if c < size && buffer[c] == VALUE {
      ghost var named, n, last := buffer[..], c, out;
      var value;
      value, c, out := FillValue(buffer, size, p, c, out, name, Segment(p, c0 + 1, true));
      slot := Slot(kind, name, Some(value));
      KeptTwice(was, named, buffer[..], out0, n, last, c);
    }
  }

  /** The first `index` cells hold the first `index` variables, all below `out`. */
  ghost predicate Filled(buf: seq<byte>, values: seq<Slot>, entries: seq<EnvVar>, index: nat, out: nat) {
    && index <= |values| == |entries|
    && forall i :: 0 <= i < index ==> Stored(buf, values[i], entries[i], out)
  }

  lemma FilledStep(buf: seq<byte>, buf': seq<byte>, values: seq<Slot>, entries: seq<EnvVar>, index: nat, out: nat,
                   hi: nat, slot: Slot, out': nat)
    requires Filled(buf, values, entries, index, out) && index < |values|
    requires out <= out' <= |buf'| && Kept(buf, buf', out, hi)
    requires Stored(buf', slot, entries[index], out')
    ensures Filled(buf', values[index := slot], entries, index + 1, out')
  {
    forall i | 0 <= i < index ensures Stored(buf', values[i], entries[i], out') {
      HoldsKept(buf, buf', values[i].name, entries[i].name, out, hi, out');
      if values[i].value.Some? {
        HoldsKept(buf, buf', values[i].value.value, entries[i].value, out, hi, out');
      }
    }
  }

  lemma FilledWiden(buf: seq<byte>, values: seq<Slot>, entries: seq<EnvVar>, index: nat, out: nat, out': nat)
    requires Filled(buf, values, entries, index, out) && out <= out' <= |buf|
    ensures Filled(buf, values, entries, index, out')
  {
  }

  lemma EntriesStep(p: seq<byte>, c: nat, entries: seq<EnvVar>, index: nat)
    requires c < |p| && index < |entries| && entries[index..] == Entries(p, c)
    ensures entries[index] == EntryAt(p, c)
    ensures entries[index + 1..] == Entries(p, NextEntry(p, c))
  {
    assert entries[index..][0] == entries[index];
    assert entries[index + 1..] == entries[index..][1..];
  }

  /** The second pass: one slot per variable, its strings unescaped into the buffer they are
      read from. `count` is the first pass's result; the last read ends exactly at `size`. */
  method FillSlots(buffer: array<byte>, size: nat, count: nat) returns (values: seq<Slot>, ghost end: nat)
    requires 2 <= size <= buffer.Length
    requires Heads(buffer[1]) && buffer[size - 1] != ESC
    requires count == CountFrom(buffer[..size], 1)
    modifies buffer
    ensures |values| == count && end == size
    ensures Filled(buffer[..], values, Entries(old(buffer[..size]), 1), count, size)
    ensures Kept(old(buffer[..]), buffer[..], 0, size)
  {
    ghost var was, p := buffer[..], buffer[..size];
    ghost var entries := Entries(p, 1);
    CountIsEntries(p, 1);
    values := seq(count, _ => BLANK);
    var out: nat, c: nat, index: nat := 0, 1, 0;
    while index != count
      invariant index <= count == |values| == |entries|
      invariant out < c <= size && (c < size ==> Heads(p[c]))
      invariant entries[index..] == Entries(p, c)
      invariant Kept(was, buffer[..], 0, c)
      invariant Filled(buffer[..], values, entries, index, out)
    {
      ghost var buf, out0, c0 := buffer[..], out, c;
      EntriesStep(p, c, entries, index);
      AheadKept(was, buf, p, 0, 1, c);
      var slot;
      slot, c, out := FillSlot(buffer, size, p, c, out);
      KeptTwice(was, buf, buffer[..], 0, c0, out0, c);
      FilledStep(buf, buffer[..], values, entries, index, out0, c, slot, out);
      values := values[index := slot];
      index := index + 1;
    }
    end := c;
    FilledWiden(buffer[..], values, entries, index, out, size);
  }

  /** The first pass (libtelnet.c:560-569). */
  method CountVars(buffer: array<byte>, size: nat) returns (count: nat)
    requires 2 <= size <= buffer.Length && buffer[size - 1] != ESC
    ensures count == CountFrom(buffer[..size], 1)
  {
    ghost var p := buffer[..size];
    count := 0;
    var c: nat := 1;
    while c < size
      invariant c <= size
      invariant count + CountFrom(p, c) == CountFrom(p, 1)
      decreases size - c
    {
      assert p[c] == buffer[c];
      if Heads(buffer[c]) {
        count := count + 1;
      } else if buffer[c] == ESC {
        c := c + 1;
      }
      c := c + 1;
    }
  }

  /** What a handler reads through one cell's pointers. */
  function LoadSlot(buf: seq<byte>, s: Slot): EnvVar
    requires s.name.at + s.name.len <= |buf|
    requires s.value.Some? ==> s.value.value.at + s.value.value.len <= |buf|
  {
    EnvVar(s.kind, Load(buf, s.name), if s.value.Some? then Load(buf, s.value.value) else [])
  }

  lemma LoadStored(buf: seq<byte>, s: Slot, e: EnvVar, out: nat)
    requires Stored(buf, s, e, out)
    ensures LoadSlot(buf, s) == e
  {
    LoadHeld(buf, s.name, e.name, out);
    if s.value.Some? { LoadHeld(buf, s.value.value, e.value, out); }
  }

  /** `_environ_telnet`: the events it raises and the value it returns are those of the pure
      parser on the payload it was given; the strings are read after the whole parse. */
  method ParseEnviron(buffer: array<byte>, size: nat) returns (events: seq<Event>, ok: bool)
    requires size <= buffer.Length
    modifies buffer
    ensures events == Outcome(old(buffer[..size]))
    ensures ok == Succeeds(old(buffer[..size]))
  {
    if size == 0 {
      return [], false;
    }
    if buffer[0] != SEND && buffer[0] != IS && buffer[0] != INFO {
      return [Warning(BadEnviron)], false;
    }
    var cmd := buffer[0];
    if size == 1 {
      return [Event.Environ(cmd, [])], true;
    }
    if buffer[1] != VAR && buffer[1] != USERVAR {
      return [Warning(BadEnviron)], false;
    }
    if buffer[size - 1] == ESC {
      return [Warning(BadEnviron)], false;
    }
    ghost var entries := Entries(buffer[..size], 1);
    var count := CountVars(buffer, size);
    var values, end := FillSlots(buffer, size, count);
    var vars := ReadVars(buffer, size, values, entries);
    return [Event.Environ(cmd, vars)], true;
  }

  /** The handler's view of the whole array. */
  method ReadVars(buffer: array<byte>, size: nat, values: seq<Slot>, ghost entries: seq<EnvVar>)
    returns (vars: seq<EnvVar>)
    requires size <= buffer.Length
    requires Filled(buffer[..], values, entries, |values|, size)
    ensures vars == entries
  {
    vars := [];
    for i := 0 to |values|
      invariant vars == entries[..i]
    {
      LoadStored(buffer[..], values[i], entries[i], size);
      vars := vars + [LoadSlot(buffer[..], values[i])];
    }
  }
}
