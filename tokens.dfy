/**
 * Splitting a string on a separator character, as .NET's String.Split(char)
 * does it: every occurrence of the separator ends a piece, so n separators
 * give n + 1 pieces, empty pieces included, and the empty string gives one
 * empty piece.  Join is the inverse.
 */
module Tokens {

  /** The pieces of `s` between occurrences of `sep`, in order. */
  function Split(s: string, sep: char): (r: seq<string>)
    ensures |r| >= 1
    ensures forall i :: 0 <= i < |r| ==> sep !in r[i]
    decreases |s|
  {
    if s == [] then [""]
    else
      var rest := Split(s[1..], sep);
      if s[0] == sep then [""] + rest
      else [[s[0]] + rest[0]] + rest[1..]
  }

  /** The pieces of `ts` glued together with `sep` between neighbours. */
  function Join(ts: seq<string>, sep: char): string
  {
    if |ts| == 0 then ""
    else if |ts| == 1 then ts[0]
    else ts[0] + [sep] + Join(ts[1..], sep)
  }

  /** Joining the pieces of a split gives back the original string. */
  lemma {:induction false} JoinSplit(s: string, sep: char)
    ensures Join(Split(s, sep), sep) == s
    decreases |s|
  {
    if s != [] {
      var rest := Split(s[1..], sep);
      JoinSplit(s[1..], sep);
      if s[0] == sep {
        assert ([""] + rest)[1..] == rest;
      } else if |rest| == 1 {
        assert [s[0]] + s[1..] == s;
      } else {
        var r := [[s[0]] + rest[0]] + rest[1..];
        assert r[1..] == rest[1..];
        assert Join(rest, sep) == rest[0] + [sep] + Join(rest[1..], sep);
        assert [s[0]] + s[1..] == s;
      }
    }
  }

  /** A string without the separator is a single piece. */
  lemma {:induction false} SplitWhole(t: string, sep: char)
    requires sep !in t
    ensures Split(t, sep) == [t]
    decreases |t|
  {
    if t != [] {
      SplitWhole(t[1..], sep);
      assert [t[0]] + t[1..] == t;
    }
  }

  /** A piece without the separator, then the separator, splits off as the first piece. */
  lemma {:induction false} SplitFirst(t: string, sep: char, u: string)
    requires sep !in t
    ensures Split(t + [sep] + u, sep) == [t] + Split(u, sep)
    decreases |t|
  {
    var s := t + [sep] + u;
    if t == [] {
      assert s[1..] == u;
    } else {
      assert s[1..] == t[1..] + [sep] + u;
      SplitFirst(t[1..], sep, u);
      assert [t[0]] + t[1..] == t;
    }
  }

  /** Splitting a join of separator-free pieces gives back the pieces. */
  lemma {:induction false} SplitJoin(ts: seq<string>, sep: char)
    requires |ts| >= 1
    requires forall i :: 0 <= i < |ts| ==> sep !in ts[i]
    ensures Split(Join(ts, sep), sep) == ts
    decreases |ts|
  {
    if |ts| == 1 {
      SplitWhole(ts[0], sep);
    } else {
      SplitJoin(ts[1..], sep);
      SplitFirst(ts[0], sep, Join(ts[1..], sep));
      assert [ts[0]] + ts[1..] == ts;
    }
  }

  /** There is one piece more than there are separators. */
  lemma {:induction false} SplitCount(s: string, sep: char)
    ensures |Split(s, sep)| == multiset(s)[sep] + 1
    decreases |s|
  {
    if s != [] {
      SplitCount(s[1..], sep);
      assert s == [s[0]] + s[1..];
      assert multiset(s) == multiset([s[0]]) + multiset(s[1..]);
    }
  }

  /** There are at least two pieces exactly when the separator occurs. */
  lemma SeveralPieces(s: string, sep: char)
    ensures |Split(s, sep)| >= 2 <==> sep in s
  {
    SplitCount(s, sep);
    assert sep in s <==> sep in multiset(s);
  }

  /**
   * The first piece is the text before the first separator: a prefix of `s`
   * without the separator, followed in `s` by the separator or by nothing.
   */
  lemma FirstPiece(s: string, sep: char)
    ensures var head := Split(s, sep)[0];
      && |head| <= |s| && s[..|head|] == head && sep !in head
      && (|head| < |s| ==> s[|head|] == sep)
      && (|head| == |s| <==> sep !in s)
  {
    var ts := Split(s, sep);
    JoinSplit(s, sep);
    SeveralPieces(s, sep);
    if |ts| >= 2 {
      assert s == ts[0] + [sep] + Join(ts[1..], sep);
      assert s[..|ts[0]|] == ts[0];
    }
  }
}
