/** ZMP payloads (`_zmp_telnet`): the two-pass parser, and the encoding it undoes
    (`telnet_zmp_arg` sends each argument with its trailing NUL). */
module ZmpCodec {
  import opened Sequences
  import opened Bytes
  import opened Events

  /** The end of the C string at `c`. */
  function StrEnd(p: seq<byte>, c: nat): (e: nat)
    requires c <= |p|
    ensures c <= e <= |p| && (e < |p| ==> p[e] == NUL)
    decreases |p| - c
  {
    if c == |p| || p[c] == NUL then c else StrEnd(p, c + 1)
  }

  lemma {:induction false} StrEndFirst(p: seq<byte>, c: nat)
    requires c <= |p|
    ensures forall k :: c <= k < StrEnd(p, c) ==> p[k] != NUL
    decreases |p| - c
  {
    if c < |p| && p[c] != NUL { StrEndFirst(p, c + 1); }
  }

  lemma StrEndInside(p: seq<byte>, c: nat)
    requires c < |p| && p[|p| - 1] == NUL
    ensures StrEnd(p, c) < |p|
  {
    StrEndFirst(p, c);
  }

  /** The strings from `c` on. */
  function Args(p: seq<byte>, c: nat): seq<seq<byte>>
    requires c <= |p| + 1
    decreases |p| + 1 - c
  {
    if c >= |p| then [] else [p[c..StrEnd(p, c)]] + Args(p, StrEnd(p, c) + 1)
  }

  /** No string holds NUL. */
  predicate NulFree(args: seq<seq<byte>>) {
    args == [] || (NUL !in args[0] && NulFree(args[1..]))
  }

  lemma {:induction false} NulFreeIs(args: seq<seq<byte>>)
    ensures NulFree(args) <==> forall a :: a in args ==> NUL !in a
  {
    if args != [] {
      NulFreeIs(args[1..]);
      Uncons(args);
    }
  }

  lemma {:induction false} ArgsNulFree(p: seq<byte>, c: nat)
    requires c <= |p| + 1
    ensures NulFree(Args(p, c))
    decreases |p| + 1 - c
  {
    if c < |p| {
      var e := StrEnd(p, c);
      StrEndFirst(p, c);
      ArgsNulFree(p, e + 1);
      Cons(p[c..e], Args(p, e + 1));
    }
  }

  function Outcome(p: seq<byte>): seq<Event> {
    if p == [] || p[|p| - 1] != NUL then [Warning(BadZmp)] else [Event.Zmp(Args(p, 0))]
  }

  function Joined(args: seq<seq<byte>>): seq<byte> {
    if args == [] then [] else args[0] + [NUL] + Joined(args[1..])
  }

  lemma StrEndIs(p: seq<byte>, c: nat, a: seq<byte>, rest: seq<byte>)
    requires c <= |p| && p[c..] == a + [NUL] + rest && NUL !in a
    ensures StrEnd(p, c) < |p| && p[c..StrEnd(p, c)] == a && p[StrEnd(p, c) + 1..] == rest
  {
    var s := p[c..];
    assert s[..|a|] == a && s[|a|] == NUL && s[|a| + 1..] == rest;
    assert p[c + |a| + 1..] == s[|a| + 1..];
    forall k | c <= k < c + |a| ensures p[k] != NUL {
      assert p[k] == s[..|a|][k - c];
    }
    StrEndAt(p, c, c + |a|);
  }

  lemma {:induction false} StrEndAt(p: seq<byte>, c: nat, e: nat)
    requires c <= e < |p| && p[e] == NUL && forall k :: c <= k < e ==> p[k] != NUL
    ensures StrEnd(p, c) == e
    decreases e - c
  {
    if c < e { StrEndAt(p, c + 1, e); }
  }

  lemma ArgsCons(p: seq<byte>, c: nat)
    requires c < |p|
    ensures Args(p, c) == [p[c..StrEnd(p, c)]] + Args(p, StrEnd(p, c) + 1)
  {
  }

  lemma JoinedCons(a: seq<byte>, rest: seq<seq<byte>>)
    ensures Joined([a] + rest) == a + [NUL] + Joined(rest)
  {
    Cons(a, rest);
  }

  lemma JoinedHead(p: seq<byte>, c: nat, args: seq<seq<byte>>)
    requires c <= |p| && p[c..] == Joined(args) && NulFree(args) && args != []
    ensures StrEnd(p, c) < |p| && p[c..StrEnd(p, c)] == args[0] && p[StrEnd(p, c) + 1..] == Joined(args[1..])
    ensures NulFree(args[1..])
  {
    StrEndIs(p, c, args[0], Joined(args[1..]));
  }

  lemma {:induction false} ArgsOfJoined(p: seq<byte>, c: nat, args: seq<seq<byte>>)
    requires c <= |p| && p[c..] == Joined(args) && NulFree(args)
    ensures Args(p, c) == args
    decreases |args|
  {
    if args != [] {
      JoinedHead(p, c, args);
      ArgsOfJoined(p, StrEnd(p, c) + 1, args[1..]);
      ArgsCons(p, c);
      Uncons(args);
    }
  }

  lemma {:induction false} JoinedEndsNul(args: seq<seq<byte>>)
    requires args != []
    ensures Joined(args) != [] && Joined(args)[|Joined(args)| - 1] == NUL
  {
    if |args| > 1 {
      JoinedEndsNul(args[1..]);
    } else {
      assert Joined(args) == args[0] + [NUL];
    }
  }

  /** An argument list survives exactly when it is not empty and no argument holds NUL. */
  lemma JoinedRoundTrip(args: seq<seq<byte>>)
    ensures Outcome(Joined(args)) == [Event.Zmp(args)] <==> args != [] && forall a :: a in args ==> NUL !in a
  {
    var p := Joined(args);
    NulFreeIs(args);
    if args != [] {
      JoinedEndsNul(args);
      assert p[0..] == p;
      if NulFree(args) { ArgsOfJoined(p, 0, args); }
      ArgsNulFree(p, 0);
    }
  }

  /** Parsing loses nothing: the arguments spell the payload they came from. */
  lemma {:induction false} ArgsSpellPayload(p: seq<byte>, c: nat)
    requires c <= |p| && p != [] && p[|p| - 1] == NUL
    ensures Joined(Args(p, c)) == p[c..]
    decreases |p| - c
  {
    if c < |p| {
      var e := StrEnd(p, c);
      StrEndInside(p, c);
      calc {
        Joined(Args(p, c));
      ==  { ArgsCons(p, c); }
        Joined([p[c..e]] + Args(p, e + 1));
      ==  { JoinedCons(p[c..e], Args(p, e + 1)); }
        p[c..e] + [NUL] + Joined(Args(p, e + 1));
      ==  { ArgsSpellPayload(p, e + 1); }
        p[c..e] + [NUL] + p[e + 1..];
      ==  { Cut(p, c, e); }
        p[c..];
      }
    }
  }

  // ----- The parser -----

  /** `strlen(buffer + c)`, in a payload that ends in NUL. */
  method StrLen(buffer: array<byte>, size: nat, ghost p: seq<byte>, c: nat) returns (n: nat)
    requires size <= buffer.Length && p == buffer[..size] && c < size && p[size - 1] == NUL
    ensures c + n == StrEnd(p, c) < size
  {
    StrEndInside(p, c);
    n := 0;
    while buffer[c + n] != NUL
      invariant c + n <= StrEnd(p, c) && StrEnd(p, c + n) == StrEnd(p, c)
      decreases size - n
    {
      assert p[c + n] == buffer[c + n];
      n := n + 1;
    }
    assert p[c + n] == buffer[c + n];
  }

  /** The counting pass (libtelnet.c:742-744) ends exactly at the payload's end. */
  method CountArgs(buffer: array<byte>, size: nat) returns (argc: nat, ghost end: nat)
    requires 0 < size <= buffer.Length && buffer[size - 1] == NUL
    ensures argc == |Args(buffer[..size], 0)| && end == size
  {
    ghost var p := buffer[..size];
    var c: nat := 0;
    argc := 0;
    while c != size
      invariant c <= size && argc + |Args(p, c)| == |Args(p, 0)|
      decreases size - c
    {
      ArgsCons(p, c);
      var n := StrLen(buffer, size, p, c);
      c := c + n + 1;
      argc := argc + 1;
    }
    end := c;
  }

  /** Pointer `at` starts the string `a`. */
  predicate Starts(p: seq<byte>, at: nat, a: seq<byte>) {
    at < |p| && a == p[at..StrEnd(p, at)]
  }

  /** The first `n` pointers start the first `n` strings. */
  predicate Pointing(p: seq<byte>, argv: seq<nat>, args: seq<seq<byte>>, n: nat) {
    n <= |argv| && n <= |args| && forall j :: 0 <= j < n ==> Starts(p, argv[j], args[j])
  }

  lemma PointingMore(p: seq<byte>, argv: seq<nat>, args: seq<seq<byte>>, n: nat, c: nat)
    requires Pointing(p, argv, args, n) && n < |argv| && n < |args| && c <= |p| && args[n..] == Args(p, c)
    ensures c < |p| && Pointing(p, argv[n := c], args, n + 1)
    ensures args[n + 1..] == Args(p, StrEnd(p, c) + 1)
  {
    ArgsCons(p, c);
    DropOne(args, n);
    SameCons(args[n], args[n + 1..], p[c..StrEnd(p, c)], Args(p, StrEnd(p, c) + 1));
  }

  lemma ArgsDone(p: seq<byte>, args: seq<seq<byte>>, c: nat)
    requires c <= |p| && args[|args|..] == Args(p, c)
    ensures c == |p|
  {
  }

  /** The filling pass (libtelnet.c:753-757) stores one pointer per string and ends there too. */
  method FillArgs(buffer: array<byte>, size: nat, argc: nat) returns (argv: seq<nat>, ghost end: nat)
    requires 0 < size <= buffer.Length && buffer[size - 1] == NUL
    requires argc == |Args(buffer[..size], 0)|
    ensures |argv| == argc && end == size
    ensures Pointing(buffer[..size], argv, Args(buffer[..size], 0), argc)
  {
    ghost var p := buffer[..size];
    ghost var args := Args(p, 0);
    argv := seq(argc, _ => 0);
    var i: nat, c: nat := 0, 0;
    while i != argc
      invariant i <= argc == |argv| && c <= size
      invariant args[i..] == Args(p, c)
      invariant Pointing(p, argv, args, i)
    {
      PointingMore(p, argv, args, i, c);
      argv := argv[i := c];
      var n := StrLen(buffer, size, p, c);
      c := c + n + 1;
      i := i + 1;
    }
    ArgsDone(p, args, c);
    end := c;
  }

  /** The handler's view: the C string each pointer starts. */
  method ReadArgs(buffer: array<byte>, size: nat, argv: seq<nat>, ghost args: seq<seq<byte>>)
    returns (strings: seq<seq<byte>>)
    requires 0 < size <= buffer.Length && buffer[size - 1] == NUL && |argv| == |args|
    requires Pointing(buffer[..size], argv, args, |argv|)
    ensures strings == args
  {
    ghost var p := buffer[..size];
    strings := [];
    for i := 0 to |argv|
      invariant strings == args[..i]
    {
      var n := StrLen(buffer, size, p, argv[i]);
      assert buffer[argv[i]..argv[i] + n] == p[argv[i]..argv[i] + n];
      strings := strings + [buffer[argv[i]..argv[i] + n]];
    }
  }

  /** `_zmp_telnet`, which always returns 0. */
  method ParseZmp(buffer: array<byte>, size: nat) returns (events: seq<Event>)
    requires size <= buffer.Length
    ensures events == Outcome(buffer[..size])
  {
    if size == 0 || buffer[size - 1] != NUL {
      return [Warning(BadZmp)];
    }
    ghost var args := Args(buffer[..size], 0);
    var argc, counted := CountArgs(buffer, size);
    var argv, end := FillArgs(buffer, size, argc);
    var strings := ReadArgs(buffer, size, argv, args);
    return [Event.Zmp(strings)];
  }
}
