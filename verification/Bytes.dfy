/** Bytes, the protocol's byte values (libtelnet.h) and the few container types
    the other modules share. */
module Bytes {
  type byte = b: int | 0 <= b < 256

  datatype Option<+T> = None | Some(value: T)

  // Telnet commands, RFC 854.
  const IAC: byte := 255
  const DONT: byte := 254
  const DO: byte := 253
  const WONT: byte := 252
  const WILL: byte := 251
  const SB: byte := 250
  const SE: byte := 240

  const NUL: byte := 0
  const LF: byte := 10
  const CR: byte := 13

  // Options the engine treats specially.
  const TELOPT_BINARY: byte := 0
  const TELOPT_TTYPE: byte := 24
  const TELOPT_ENVIRON: byte := 36
  const TELOPT_NEW_ENVIRON: byte := 39
  const TELOPT_MSSP: byte := 70
  const TELOPT_COMPRESS: byte := 85
  const TELOPT_ZMP: byte := 93

  /** The number of positions of `s` that hold a byte of `marks`. */
  function Occurrences(s: seq<byte>, marks: set<byte>): nat {
    if s == [] then 0
    else Occurrences(s[..|s| - 1], marks) + if s[|s| - 1] in marks then 1 else 0
  }

  lemma {:induction false} NoOccurrences(s: seq<byte>, marks: set<byte>)
    ensures Occurrences(s, marks) == 0 <==> forall b :: b in s ==> b !in marks
  {
    if s != [] {
      NoOccurrences(s[..|s| - 1], marks);
      assert s == s[..|s| - 1] + [s[|s| - 1]];
    }
  }

  lemma {:induction false} OccurrencesConcat(a: seq<byte>, b: seq<byte>, marks: set<byte>)
    ensures Occurrences(a + b, marks) == Occurrences(a, marks) + Occurrences(b, marks)
  {
    if b == [] {
      assert a + b == a;
    } else {
      assert (a + b)[..|a + b| - 1] == a + b[..|b| - 1];
      OccurrencesConcat(a, b[..|b| - 1], marks);
    }
  }
}
