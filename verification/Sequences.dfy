/** Facts about sequences that the proofs name where the verifier would search. */
module Sequences {
  lemma Assoc<T>(a: seq<T>, b: seq<T>, c: seq<T>)
    ensures (a + b) + c == a + (b + c)
  {
  }

  lemma PlusNothing<T>(a: seq<T>)
    ensures a + [] == a && [] + a == a
  {
  }

  lemma Unsnoc<T>(s: seq<T>)
    requires s != []
    ensures s == s[..|s| - 1] + [s[|s| - 1]]
  {
  }

  lemma Snoc<T>(a: seq<T>, x: T)
    ensures (a + [x])[..|a + [x]| - 1] == a && (a + [x])[|a + [x]| - 1] == x
  {
  }

  lemma Uncons<T>(s: seq<T>)
    requires s != []
    ensures s == [s[0]] + s[1..]
  {
  }

  lemma Cons<T>(x: T, s: seq<T>)
    ensures ([x] + s)[0] == x && ([x] + s)[1..] == s
  {
  }

  /** Where the two parts of a suffix stand. */
  lemma DropPast<T>(s: seq<T>, m: nat, a: seq<T>, rest: seq<T>)
    requires m <= |s| && s[m..] == a + rest
    ensures m + |a| <= |s| && s[m..m + |a|] == a && s[m + |a|..] == rest
  {
    var t := s[m..];
    assert t[..|a|] == a && t[|a|..] == rest;
    assert s[m..m + |a|] == t[..|a|] && s[m + |a|..] == t[|a|..];
  }

  lemma DropOne<T>(s: seq<T>, i: nat)
    requires i < |s|
    ensures s[i..] == [s[i]] + s[i + 1..]
  {
  }

  lemma SameCons<T>(x: T, a: seq<T>, y: T, b: seq<T>)
    requires [x] + a == [y] + b
    ensures x == y && a == b
  {
    Cons(x, a);
    Cons(y, b);
  }

  lemma Cut<T>(s: seq<T>, i: nat, j: nat)
    requires i <= j < |s|
    ensures s[i..] == s[i..j] + [s[j]] + s[j + 1..]
  {
  }

  lemma TakeMore<T>(s: seq<T>, i: nat)
    requires i < |s|
    ensures s[..i + 1] == s[..i] + [s[i]]
    ensures s[..i + 1][..i] == s[..i] && s[..i + 1][|s[..i + 1]| - 1] == s[i]
  {
  }

  lemma TakeAll<T>(s: seq<T>, i: nat)
    requires i == |s|
    ensures s[..i] == s
  {
  }
}
