/** Strings left in a buffer that is rewritten while it is read. */
module Spans {
  import opened Bytes

  /** A stored string: the pointer C keeps, and the length of the segment stored there. */
  datatype Span = Span(at: nat, len: nat)

  /** `s` is stored below `out`, followed by NUL. */
  predicate Holds(buf: seq<byte>, at: Span, s: seq<byte>, out: nat) {
    && at.at + at.len < out <= |buf|
    && at.len == |s|
    && (forall k :: 0 <= k < |s| ==> buf[at.at + k] == s[k])
    && buf[at.at + at.len] == NUL
  }

  lemma HoldsFrame(buf: seq<byte>, buf': seq<byte>, at: Span, s: seq<byte>, out: nat, out': nat)
    requires Holds(buf, at, s, out) && out <= out' <= |buf'|
    requires forall k :: 0 <= k < out ==> buf'[k] == buf[k]
    ensures Holds(buf', at, s, out')
  {
  }

  /** What a reader finds there. */
  function Load(buf: seq<byte>, at: Span): seq<byte>
    requires at.at + at.len <= |buf|
  {
    buf[at.at..at.at + at.len]
  }

  lemma LoadHeld(buf: seq<byte>, at: Span, s: seq<byte>, out: nat)
    requires Holds(buf, at, s, out)
    ensures Load(buf, at) == s
  {
  }
}
