/** `_event_handler` of util/telnet-proxy.c, as it acts on the far engine. */
module Relay {
  import opened Sequences
  import opened Bytes
  import opened Events
  import opened Decoder
  import opened Proxy
  import opened TelnetEngine

  /** A NEGOTIATION event: telnet_negotiate in PROXY mode. */
  method ForwardVerb(far: Telnet, v: Verb, telopt: byte)
    requires far.Valid() && far.flags.proxy
    modifies far.q, far`flags, far`events, far`inputs
    ensures far.Valid() && far.Abs() == old(far.Abs())
    ensures Sent(old(far.events), far.events, NegotiationBytes(v, telopt))
  {
    far.TelnetNegotiate(Code(v), telopt);
  }

  /** One event. Only the forwarding is modelled, not the printing. */
  method HandleEvent(far: Telnet, ev: Event)
    requires far.Valid() && far.flags.proxy && ev != Wrapped
    modifies far.q, far`flags, far`events, far`inputs
    ensures far.Valid() && far.Abs() == old(far.Abs())
    ensures Sent(old(far.events), far.events, ForwardBytes(ev))
  {
    SentNothing(far.events);
    match ev {
      case Data(bytes) => far.TelnetSend(bytes);
      case Iac(cmd) => far.TelnetIac(cmd);
      case Negotiation(v, telopt) => ForwardVerb(far, v, telopt);
      case Subnegotiation(telopt, payload) => far.TelnetSubnegotiation(telopt, payload);
      case _ =>
    }
  }

  /** Every event of one side's log, in order: the far side is sent what Proxy.Forwarded says. */
  method ForwardAll(far: Telnet, es: seq<Event>)
    requires far.Valid() && far.flags.proxy && Wrapped !in es
    modifies far.q, far`flags, far`events, far`inputs
    ensures far.Valid() && far.Abs() == old(far.Abs())
    ensures Sent(old(far.events), far.events, Forwarded(es))
  {
    ghost var log := far.events;
    SentNothing(log);
    var i: nat := 0;
    while i != |es|
      invariant i <= |es| && far.Valid() && far.Abs() == old(far.Abs())
      invariant Sent(log, far.events, Forwarded(es[..i]))
      decreases |es| - i
    {
      ghost var before := far.events;
      HandleEvent(far, es[i]);
      SentThen(log, before, far.events, Forwarded(es[..i]), ForwardBytes(es[i]));
      ForwardedMore(es, i);
      i := i + 1;
    }
    TakeAll(es, i);
  }
}
