/** string_split (src/alloc.c) on values: cutting a string at the delimiters that are not
    shielded by quotes. */
module Pieces {
  import opened Memory

  const QUOTE: byte := 34

  /** The loop of string_split from a state: what is left to read, whether it is inside
      quotes, and the piece collected so far. */
  function SplitFrom(s: seq<byte>, delim: byte, reserve: bool, inString: bool, curr: seq<byte>): seq<seq<byte>> {
    if s == [] then [curr]
    else
      var quoted := if s[0] == QUOTE then !inString else inString;
      if s[0] == delim && (!quoted || !reserve)
      then [curr] + SplitFrom(s[1..], delim, reserve, quoted, [])
      else SplitFrom(s[1..], delim, reserve, quoted, curr + [s[0]])
  }

  /** An empty string has no piece; any other has at least one, the last possibly empty. */
  function Split(s: seq<byte>, delim: byte, reserve: bool): seq<seq<byte>> {
    if s == [] then [] else SplitFrom(s, delim, reserve, false, [])
  }

  // --------------------------------------------------- what the pieces are

  function Join(pieces: seq<seq<byte>>, delim: byte): seq<byte> {
    if pieces == [] then []
    else if |pieces| == 1 then pieces[0]
    else pieces[0] + [delim] + Join(pieces[1..], delim)
  }

  function QuoteCount(s: seq<byte>): nat {
    if s == [] then 0 else QuoteCount(s[..|s| - 1]) + (if s[|s| - 1] == QUOTE then 1 else 0)
  }

  /** Position `i` is a delimiter at which the string is cut: with `reserve`, an even
      number of quotes has been seen up to and including it. */
  predicate CutsAt(s: seq<byte>, delim: byte, reserve: bool, i: nat)
    requires i < |s|
  {
    s[i] == delim && (!reserve || QuoteCount(s[..i + 1]) % 2 == 0)
  }

  function Cuts(s: seq<byte>, delim: byte, reserve: bool): seq<bool> {
    seq(|s|, i requires 0 <= i < |s| => CutsAt(s, delim, reserve, i))
  }

  function Falses(n: nat): (bs: seq<bool>)
    ensures |bs| == n && forall i :: 0 <= i < n ==> !bs[i]
  {
    seq(n, _ => false)
  }

  /** The positions of the joined pieces: false inside a piece, true between two. */
  function Separators(pieces: seq<seq<byte>>): seq<bool> {
    if pieces == [] then []
    else if |pieces| == 1 then Falses(|pieces[0]|)
    else Falses(|pieces[0]|) + [true] + Separators(pieces[1..])
  }

  lemma {:induction false} SplitFromNonempty(s: seq<byte>, delim: byte, reserve: bool, inString: bool, curr: seq<byte>)
    ensures SplitFrom(s, delim, reserve, inString, curr) != []
    decreases |s|
  {
    if s != [] {
      var quoted := if s[0] == QUOTE then !inString else inString;
      SplitFromNonempty(s[1..], delim, reserve, quoted, curr + [s[0]]);
    }
  }

  lemma JoinCons(rest: seq<seq<byte>>, delim: byte, curr: seq<byte>, s: seq<byte>)
    requires rest != [] && s != [] && s[0] == delim && Join(rest, delim) == [] + s[1..]
    ensures Join([curr] + rest, delim) == curr + s
  {
    assert ([curr] + rest)[1..] == rest;
    assert curr + [delim] + ([] + s[1..]) == curr + s;
  }

  lemma ShiftFirst(curr: seq<byte>, s: seq<byte>)
    ensures s != [] ==> curr + [s[0]] + s[1..] == curr + s
    ensures curr + [] == curr
  {
  }

  lemma {:induction false} JoinSplitFrom(s: seq<byte>, delim: byte, reserve: bool, inString: bool, curr: seq<byte>)
    ensures Join(SplitFrom(s, delim, reserve, inString, curr), delim) == curr + s
    decreases |s|
  {
    ShiftFirst(curr, s);
    if s != [] {
      hide Join;
      var quoted := if s[0] == QUOTE then !inString else inString;
      if s[0] == delim && (!quoted || !reserve) {
        SplitFromNonempty(s[1..], delim, reserve, quoted, []);
        JoinSplitFrom(s[1..], delim, reserve, quoted, []);
        JoinCons(SplitFrom(s[1..], delim, reserve, quoted, []), delim, curr, s);
      } else {
        JoinSplitFrom(s[1..], delim, reserve, quoted, curr + [s[0]]);
      }
    }
  }

  /** Whether the next character is a cut, in terms of the running quote flag. */
  lemma CutsStep(all: seq<byte>, n: nat, delim: byte, reserve: bool, inString: bool)
    requires n < |all| && inString == (QuoteCount(all[..n]) % 2 == 1)
    ensures var quoted := if all[n] == QUOTE then !inString else inString;
            && quoted == (QuoteCount(all[..n + 1]) % 2 == 1)
            && Cuts(all, delim, reserve)[n] == (all[n] == delim && (!quoted || !reserve))
  {
    assert all[..n + 1][..n] == all[..n];
  }

  /** The cuts of what is left to read, from the running quote flag. */
  function CutsFrom(s: seq<byte>, delim: byte, reserve: bool, inString: bool): (bs: seq<bool>)
    ensures |bs| == |s|
  {
    if s == [] then []
    else
      var quoted := if s[0] == QUOTE then !inString else inString;
      [s[0] == delim && (!quoted || !reserve)] + CutsFrom(s[1..], delim, reserve, quoted)
  }

  lemma {:induction false} CutsFromIs(all: seq<byte>, n: nat, delim: byte, reserve: bool, inString: bool)
    requires n <= |all| && inString == (QuoteCount(all[..n]) % 2 == 1)
    ensures CutsFrom(all[n..], delim, reserve, inString) == Cuts(all, delim, reserve)[n..]
    decreases |all| - n
  {
    var cuts := Cuts(all, delim, reserve);
    if n < |all| {
      CutsStep(all, n, delim, reserve, inString);
      var quoted := if all[n] == QUOTE then !inString else inString;
      CutsFromIs(all, n + 1, delim, reserve, quoted);
      assert all[n..][1..] == all[n + 1..];
      assert cuts[n..] == [cuts[n]] + cuts[n + 1..];
    }
  }

  /** The separators of the pieces still to come are the cuts of what is left to read. */
  lemma {:induction false} SeparatorsSplitFrom(s: seq<byte>, delim: byte, reserve: bool, inString: bool,
                                               curr: seq<byte>)
    ensures Separators(SplitFrom(s, delim, reserve, inString, curr))
         == Falses(|curr|) + CutsFrom(s, delim, reserve, inString)
    decreases |s|
  {
    hide Separators, Falses;
    if s != [] {
      var quoted := if s[0] == QUOTE then !inString else inString;
      var after := CutsFrom(s[1..], delim, reserve, quoted);
      if s[0] == delim && (!quoted || !reserve) {
        var rest := SplitFrom(s[1..], delim, reserve, quoted, []);
        SplitFromNonempty(s[1..], delim, reserve, quoted, []);
        SeparatorsSplitFrom(s[1..], delim, reserve, quoted, []);
        SeparatorsCons(curr, rest, after);
      } else {
        SeparatorsSplitFrom(s[1..], delim, reserve, quoted, curr + [s[0]]);
        FalsesStep(|curr|, after);
      }
    } else {
      SeparatorsOne(curr);
    }
  }

  lemma SeparatorsCons(curr: seq<byte>, rest: seq<seq<byte>>, after: seq<bool>)
    requires rest != [] && Separators(rest) == Falses(0) + after
    ensures Separators([curr] + rest) == Falses(|curr|) + ([true] + after)
  {
    assert ([curr] + rest)[1..] == rest;
    assert Falses(0) + after == after;
    assert Falses(|curr|) + [true] + after == Falses(|curr|) + ([true] + after);
  }

  lemma SeparatorsOne(curr: seq<byte>)
    ensures Separators([curr]) == Falses(|curr|) + []
  {
    assert Falses(|curr|) + [] == Falses(|curr|);
  }

  lemma FalsesStep(n: nat, after: seq<bool>)
    ensures Falses(n + 1) + after == Falses(n) + ([false] + after)
  {
  }

  /** Joining the pieces gives the string back, and the joints are exactly its cuts: so
      there is one more piece than cuts, and no piece contains one. */
  lemma SplitLaw(s: seq<byte>, delim: byte, reserve: bool)
    requires s != []
    ensures Join(Split(s, delim, reserve), delim) == s
    ensures Separators(Split(s, delim, reserve)) == Cuts(s, delim, reserve)
  {
    JoinSplitFrom(s, delim, reserve, false, []);
    SeparatorsSplitFrom(s, delim, reserve, false, []);
    CutsFromIs(s, 0, delim, reserve, false);
    assert s[0..] == s;
    assert Cuts(s, delim, reserve)[0..] == Cuts(s, delim, reserve);
  }

  function Trues(bs: seq<bool>): nat {
    if bs == [] then 0 else (if bs[0] then 1 else 0) + Trues(bs[1..])
  }

  lemma {:induction false} TruesConcat(a: seq<bool>, b: seq<bool>)
    ensures Trues(a + b) == Trues(a) + Trues(b)
  {
    if a == [] {
      assert a + b == b;
    } else {
      TruesConcat(a[1..], b);
      assert (a + b)[1..] == a[1..] + b;
    }
  }

  lemma {:induction false} TruesFalse(n: nat)
    ensures Trues(Falses(n)) == 0
  {
    if n > 0 {
      TruesFalse(n - 1);
      assert Falses(n)[1..] == Falses(n - 1);
    }
  }

  lemma {:induction false} SeparatorCount(pieces: seq<seq<byte>>)
    requires pieces != []
    ensures |pieces| == 1 + Trues(Separators(pieces))
  {
    TruesFalse(|pieces[0]|);
    if |pieces| > 1 {
      SeparatorCount(pieces[1..]);
      TruesConcat(Falses(|pieces[0]|), [true] + Separators(pieces[1..]));
      TruesConcat([true], Separators(pieces[1..]));
      assert Falses(|pieces[0]|) + [true] + Separators(pieces[1..])
          == Falses(|pieces[0]|) + ([true] + Separators(pieces[1..]));
    }
  }

  lemma SplitCount(s: seq<byte>, delim: byte, reserve: bool)
    requires s != []
    ensures |Split(s, delim, reserve)| == 1 + Trues(Cuts(s, delim, reserve))
  {
    SplitLaw(s, delim, reserve);
    SplitFromNonempty(s, delim, reserve, false, []);
    SeparatorCount(Split(s, delim, reserve));
  }
}
