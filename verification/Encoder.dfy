/** The bytes each sending function puts on the wire. */
module Encoder {
  import opened Sequences
  import opened Bytes
  import opened Events
  import opened Decoder
  import Environ
  import EnvironCodec
  import ZmpCodec

  function EscapeByte(b: byte): seq<byte> {
    if b == IAC then [IAC, IAC] else [b]
  }

  /** `telnet_send`. */
  function Escape(xs: seq<byte>): seq<byte> {
    if xs == [] then [] else Escape(xs[..|xs| - 1]) + EscapeByte(xs[|xs| - 1])
  }

  function TextByte(b: byte, binary: bool): seq<byte> {
    if b == IAC then [IAC, IAC]
    else if !binary && b == CR then [CR, NUL]
    else if !binary && b == LF then [CR, LF]
    else [b]
  }

  /** `telnet_send_text`. */
  function EncodeText(xs: seq<byte>, binary: bool): seq<byte> {
    if xs == [] then [] else EncodeText(xs[..|xs| - 1], binary) + TextByte(xs[|xs| - 1], binary)
  }

  lemma {:induction false} BinaryTextIsData(xs: seq<byte>)
    ensures EncodeText(xs, true) == Escape(xs)
  {
    if xs != [] { BinaryTextIsData(xs[..|xs| - 1]); }
  }

  /** `telnet_begin_sb`. */
  function Header(telopt: byte): seq<byte> { [IAC, SB, telopt] }

  const FOOTER: seq<byte> := [IAC, SE]

  /** `telnet_subnegotiation`. */
  function Frame(telopt: byte, p: seq<byte>): seq<byte> {
    Header(telopt) + Escape(p) + FOOTER
  }

  lemma {:induction false} EscapeConcat(a: seq<byte>, b: seq<byte>)
    ensures Escape(a + b) == Escape(a) + Escape(b)
  {
    if b == [] {
      assert a + b == a;
    } else {
      var init, x := b[..|b| - 1], b[|b| - 1];
      assert (a + b)[..|a + b| - 1] == a + init;
      EscapeConcat(a, init);
      Assoc(Escape(a), Escape(init), EscapeByte(x));
    }
  }

  lemma EscapeSnoc(a: seq<byte>, b: byte)
    ensures Escape(a + [b]) == Escape(a) + EscapeByte(b)
  {
    assert (a + [b])[..|a + [b]| - 1] == a;
  }

  lemma EscapeMore(bytes: seq<byte>, i: nat)
    requires i < |bytes|
    ensures Escape(bytes[..i + 1]) == Escape(bytes[..i]) + EscapeByte(bytes[i])
  {
    TakeMore(bytes, i);
  }

  lemma EncodeTextMore(bytes: seq<byte>, i: nat, binary: bool)
    requires i < |bytes|
    ensures EncodeText(bytes[..i + 1], binary) == EncodeText(bytes[..i], binary) + TextByte(bytes[i], binary)
  {
    TakeMore(bytes, i);
  }

  // ----- Sessions -----

  /** What a PROXY-mode application asks its engine to send. */
  datatype Call =
    | CallSend(bytes: seq<byte>)
    | CallIac(cmd: byte)
    | CallNegotiate(verb: Verb, telopt: byte)
    | CallSub(telopt: byte, payload: seq<byte>)

  function CallWire(c: Call): seq<byte> {
    match c
    case CallSend(bs) => Escape(bs)
    case CallIac(cmd) => [IAC, cmd]
    case CallNegotiate(v, o) => NegotiationBytes(v, o)
    case CallSub(o, p) => Frame(o, p)
  }

  function CallsWire(cs: seq<Call>): seq<byte> {
    if cs == [] then [] else CallsWire(cs[..|cs| - 1]) + CallWire(cs[|cs| - 1])
  }

  /** What the peer's application should be told. */
  function Expected(c: Call): seq<Event> {
    match c
    case CallSend(bs) => Singles(bs)
    case CallIac(cmd) => [Iac(cmd)]
    case CallNegotiate(v, o) => [Negotiation(v, o)]
    case CallSub(o, p) => SubEvents(o, p)
  }

  function ExpectedAll(cs: seq<Call>): seq<Event> {
    if cs == [] then [] else ExpectedAll(cs[..|cs| - 1]) + Expected(cs[|cs| - 1])
  }

  // ----- The subnegotiations built piece by piece -----

  /** `telnet_newenviron_value`: a type byte and a string, neither ESC-encoded. */
  function ValueWire(kind: byte, s: seq<byte>): seq<byte> {
    Escape([kind]) + Escape(s)
  }

  /** The calls that send one variable. */
  function SettingWire(s: EnvironCodec.Setting): seq<byte> {
    ValueWire(s.kind, s.name) + if s.value.Some? then ValueWire(Environ.VALUE, s.value.value) else []
  }

  function SettingsWire(ss: seq<EnvironCodec.Setting>): seq<byte> {
    if ss == [] then [] else SettingWire(ss[0]) + SettingsWire(ss[1..])
  }

  /** `telnet_begin_newenviron`, the values, `telnet_finish_newenviron`. */
  function NewEnvironWire(cmd: byte, ss: seq<EnvironCodec.Setting>): seq<byte> {
    Header(TELOPT_NEW_ENVIRON) + Escape([cmd]) + SettingsWire(ss) + FOOTER
  }

  /** `telnet_ttype_send`. */
  const TTYPE_SEND_WIRE: seq<byte> := [IAC, SB, TELOPT_TTYPE, TTYPE_SEND, IAC, SE]

  /** `telnet_ttype_is`: the name goes out as it is, without IAC escaping. */
  function TtypeIsWire(name: seq<byte>): seq<byte> {
    [IAC, SB, TELOPT_TTYPE, TTYPE_IS] + name + FOOTER
  }

  lemma {:induction false} EscapeLength(xs: seq<byte>)
    ensures |Escape(xs)| == |xs| + Occurrences(xs, {IAC})
  {
    if xs != [] { EscapeLength(xs[..|xs| - 1]); }
  }

  lemma {:induction false} NothingEscaped(xs: seq<byte>)
    requires IAC !in xs
    ensures Escape(xs) == xs
  {
    if xs != [] {
      Unsnoc(xs);
      NothingEscaped(xs[..|xs| - 1]);
    }
  }

  lemma TtypeIsFrame(name: seq<byte>)
    requires IAC !in name
    ensures TtypeIsWire(name) == Frame(TELOPT_TTYPE, [TTYPE_IS] + name)
  {
    NothingEscaped([TTYPE_IS] + name);
    assert [IAC, SB, TELOPT_TTYPE, TTYPE_IS] == Header(TELOPT_TTYPE) + [TTYPE_IS];
    Assoc(Header(TELOPT_TTYPE), [TTYPE_IS], name);
  }

  lemma TtypeSendFrame()
    ensures TTYPE_SEND_WIRE == Frame(TELOPT_TTYPE, [TTYPE_SEND])
  {
    NothingEscaped([TTYPE_SEND]);
  }

  lemma SettingWireIs(s: EnvironCodec.Setting)
    ensures SettingWire(s) == Escape(EnvironCodec.Written(false, s))
  {
    var tail := EnvironCodec.ValuePart(false, s);
    EscapeConcat([s.kind as byte], s.name + tail);
    EscapeConcat(s.name, tail);
    Assoc(Escape([s.kind as byte]), Escape(s.name), Escape(tail));
    if s.value.Some? {
      EscapeConcat([Environ.VALUE], s.value.value);
    } else {
      assert ValueWire(s.kind, s.name) + [] == ValueWire(s.kind, s.name) + Escape(tail);
    }
  }

  lemma {:induction false} SettingsWireIs(ss: seq<EnvironCodec.Setting>)
    ensures SettingsWire(ss) == Escape(EnvironCodec.WrittenAll(false, ss))
  {
    if ss != [] {
      SettingWireIs(ss[0]);
      SettingsWireIs(ss[1..]);
      EscapeConcat(EnvironCodec.Written(false, ss[0]), EnvironCodec.WrittenAll(false, ss[1..]));
    }
  }

  lemma NewEnvironWireIsFrame(cmd: byte, ss: seq<EnvironCodec.Setting>)
    ensures NewEnvironWire(cmd, ss) == Frame(TELOPT_NEW_ENVIRON, EnvironCodec.Payload(cmd, false, ss))
  {
    SettingsWireIs(ss);
    EscapeConcat([cmd], EnvironCodec.WrittenAll(false, ss));
    Assoc(Header(TELOPT_NEW_ENVIRON), Escape([cmd]), SettingsWire(ss));
  }

  /** `telnet_zmp_arg` for each argument: the string with its trailing NUL. */
  function ArgsWire(args: seq<seq<byte>>): seq<byte> {
    if args == [] then [] else ArgsWire(args[..|args| - 1]) + Escape(args[|args| - 1] + [NUL])
  }

  /** `telnet_send_zmp`. */
  function ZmpWire(args: seq<seq<byte>>): seq<byte> {
    Header(TELOPT_ZMP) + ArgsWire(args) + FOOTER
  }

  lemma {:induction false} JoinedSnoc(args: seq<seq<byte>>, a: seq<byte>)
    ensures ZmpCodec.Joined(args + [a]) == ZmpCodec.Joined(args) + (a + [NUL])
  {
    if args == [] {
      assert [] + [a] == [a] && [a][1..] == [];
      assert ZmpCodec.Joined([a]) == a + [NUL] + [];
    } else {
      assert (args + [a])[1..] == args[1..] + [a];
      JoinedSnoc(args[1..], a);
      Assoc(args[0] + [NUL], ZmpCodec.Joined(args[1..]), a + [NUL]);
    }
  }

  lemma {:induction false} ArgsWireIs(args: seq<seq<byte>>)
    ensures ArgsWire(args) == Escape(ZmpCodec.Joined(args))
  {
    if args != [] {
      var init, a := args[..|args| - 1], args[|args| - 1];
      assert args == init + [a];
      ArgsWireIs(init);
      JoinedSnoc(init, a);
      EscapeConcat(ZmpCodec.Joined(init), a + [NUL]);
    }
  }
}
