/**
 * The few functions of Go's `strings` package that the router uses to cut
 * templates and request paths into pieces, restricted to a one-character
 * cut set or separator, which is how the router calls them.
 */
module Strings {

  /** strings.TrimLeft(s, string(c)): drops every leading `c`. */
  function TrimLeft(s: string, c: char): (r: string)
    ensures |r| <= |s| && r == s[|s| - |r|..]
    ensures r == [] || r[0] != c
    ensures forall i | 0 <= i < |s| - |r| :: s[i] == c
    decreases |s|
  {
    if s != [] && s[0] == c then TrimLeft(s[1..], c) else s
  }

  /** strings.TrimRight(s, string(c)): drops every trailing `c`. */
  function TrimRight(s: string, c: char): (r: string)
    ensures |r| <= |s| && r == s[..|r|]
    ensures r == [] || r[|r| - 1] != c
    ensures forall i | |r| <= i < |s| :: s[i] == c
    decreases |s|
  {
    if s != [] && s[|s| - 1] == c then TrimRight(s[..|s| - 1], c) else s
  }

  /** strings.Trim(s, string(c)): drops `c` at both ends. */
  function Trim(s: string, c: char): (r: string)
    ensures |r| <= |s|
    ensures r == [] || (r[0] != c && r[|r| - 1] != c)
    ensures (s == [] || (s[0] != c && s[|s| - 1] != c)) ==> r == s
  {
    TrimRight(TrimLeft(s, c), c)
  }

  /** strings.TrimPrefix(s, p): drops `p` from the front of `s` when it is there. */
  function TrimPrefix(s: string, p: string): (r: string)
    ensures if |p| <= |s| && s[..|p|] == p then p + r == s else r == s
  {
    if |p| <= |s| && s[..|p|] == p then s[|p|..] else s
  }

  /** The lower-case form of one character; letters outside ASCII are left as they are. */
  function Lower(c: char): (l: char)
    ensures 'A' <= c <= 'Z' ==> 'a' <= l <= 'z'
    ensures !('A' <= c <= 'Z') ==> l == c
  {
    if 'A' <= c <= 'Z' then (c as int - 'A' as int + 'a' as int) as char else c
  }

  /** strings.ToLower on ASCII text. */
  function ToLower(s: string): (r: string)
    ensures |r| == |s|
    ensures forall i | 0 <= i < |s| :: r[i] == Lower(s[i])
  {
    seq(|s|, i requires 0 <= i < |s| => Lower(s[i]))
  }

  /** Text without upper-case letters is already lower-case. */
  lemma ToLowerIdentity(s: string)
    requires forall i | 0 <= i < |s| :: !('A' <= s[i] <= 'Z')
    ensures ToLower(s) == s
  {
  }

  /** The position of the first `c` in `s`. */
  function IndexOf(s: string, c: char): (i: nat)
    requires c in s
    ensures i < |s| && s[i] == c && c !in s[..i]
  {
    if s[0] == c then 0 else
      var j := IndexOf(s[1..], c);
      assert s[..j + 1] == [s[0]] + s[1..][..j];
      j + 1
  }

  /**
   * strings.Split(s, string(c)): the pieces of `s` between the `c`s, in
   * order. There is always at least one piece, and no piece holds a `c`.
   */
  function Split(s: string, c: char): (r: seq<string>)
    ensures |r| >= 1
    ensures forall i | 0 <= i < |r| :: c !in r[i]
    decreases |s|
  {
    if c in s then
      var i := IndexOf(s, c);
      [s[..i]] + Split(s[i + 1..], c)
    else
      [s]
  }

  /** Every character of a piece comes from the text that was split. */
  lemma {:induction false} SplitChars(s: string, c: char, i: nat, k: nat)
    requires i < |Split(s, c)| && k < |Split(s, c)[i]|
    ensures Split(s, c)[i][k] in s
    decreases |s|
  {
    if c in s {
      var j := IndexOf(s, c);
      if i == 0 {
        assert Split(s, c)[0] == s[..j];
        assert s[..j][k] == s[k];
      } else {
        var rest := Split(s[j + 1..], c);
        assert Split(s, c)[i] == rest[i - 1];
        SplitChars(s[j + 1..], c, i - 1, k);
        assert rest[i - 1][k] in s[j + 1..];
      }
    }
  }

  /** strings.Join(ps, string(c)). */
  function Join(ps: seq<string>, c: char): string
    requires |ps| >= 1
  {
    if |ps| == 1 then ps[0] else ps[0] + [c] + Join(ps[1..], c)
  }

  /** Joining the pieces back with the separator gives the original text. */
  lemma {:induction false} JoinSplit(s: string, c: char)
    ensures Join(Split(s, c), c) == s
    decreases |s|
  {
    if c in s {
      var i := IndexOf(s, c);
      JoinSplit(s[i + 1..], c);
      var rest := Split(s[i + 1..], c);
      assert Split(s, c) == [s[..i]] + rest;
      assert Split(s, c)[1..] == rest;
      assert s == s[..i] + [c] + s[i + 1..];
    }
  }

  /** The first separator of a joined text is the one after the first piece. */
  lemma FirstSeparator(ps: seq<string>, c: char)
    requires |ps| >= 2 && c !in ps[0]
    ensures c in Join(ps, c)
    ensures IndexOf(Join(ps, c), c) == |ps[0]|
    ensures Join(ps, c)[..|ps[0]|] == ps[0]
    ensures Join(ps, c)[|ps[0]| + 1..] == Join(ps[1..], c)
  {
    var s := Join(ps, c);
    var n := |ps[0]|;
    assert s == ps[0] + [c] + Join(ps[1..], c);
    assert s[n] == c;
    var i := IndexOf(s, c);
    assert s[..n] == ps[0];
    assert forall j | 0 <= j < n :: s[j] == ps[0][j];
  }

  /** Splitting at the first separator. */
  lemma SplitAt(s: string, c: char)
    requires c in s
    ensures Split(s, c) == [s[..IndexOf(s, c)]] + Split(s[IndexOf(s, c) + 1..], c)
  {
  }

  /** Splitting pieces that hold no separator after joining them gives the same pieces. */
  lemma {:induction false} SplitJoin(ps: seq<string>, c: char)
    requires |ps| >= 1
    requires forall i | 0 <= i < |ps| :: c !in ps[i]
    ensures Split(Join(ps, c), c) == ps
  {
    if |ps| > 1 {
      var tail := ps[1..];
      SplitJoin(tail, c);
      FirstSeparator(ps, c);
      var s := Join(ps, c);
      SplitAt(s, c);
      calc {
        Split(s, c);
        [ps[0]] + Split(Join(tail, c), c);
        [ps[0]] + tail;
        ps;
      }
    }
  }
}
