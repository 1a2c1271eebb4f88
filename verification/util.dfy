/** `common::Util::Split`: `boost::split` with a one-byte delimiter and
    `token_compress_off`, so every delimiter ends a piece and no empty piece is
    ever dropped. `Join` is its inverse. */
module Util {
  import opened Text

  /** The byte `\3` that separates the title, url and content fields of a
      corpus line; the parser writes it and the index builder splits on it. */
  const FieldSep: Byte := 3 as char

  /** The pieces of `s` between occurrences of `d`, left to right. */
  function Split(s: Bytes, d: Byte): (r: seq<Bytes>)
    decreases |s|
    ensures |r| >= 1
  {
    if |s| == 0 then [[]]
    else
      var rest := Split(s[1..], d);
      if s[0] == d then [[]] + rest
      else [[s[0]] + rest[0]] + rest[1..]
  }

  /** The pieces glued back together with `d` between neighbours. */
  function Join(pieces: seq<Bytes>, d: Byte): Bytes
    decreases |pieces|
  {
    if |pieces| == 0 then []
    else if |pieces| == 1 then pieces[0]
    else pieces[0] + [d] + Join(pieces[1..], d)
  }

  lemma JoinThree(a: Bytes, b: Bytes, c: Bytes, d: Byte)
    ensures Join([a, b, c], d) == a + [d] + b + [d] + c
  {
    assert [a, b, c][1..] == [b, c];
    assert [b, c][1..] == [c];
    assert Join([b, c], d) == b + [d] + c;
  }

  /** The empty input is one empty piece. */
  lemma SplitEmpty(d: Byte)
    ensures Split([], d) == [[]]
  {
  }

  /** There is exactly one more piece than there are delimiters. */
  lemma {:induction false} SplitCount(s: Bytes, d: Byte)
    ensures |Split(s, d)| == multiset(s)[d] + 1
    decreases |s|
  {
    if |s| > 0 {
      SplitCount(s[1..], d);
      assert s == [s[0]] + s[1..];
    }
  }

  /** No piece contains the delimiter. */
  lemma {:induction false} SplitPiecesFree(s: Bytes, d: Byte)
    ensures forall i :: 0 <= i < |Split(s, d)| ==> d !in Split(s, d)[i]
    decreases |s|
  {
    if |s| > 0 {
      SplitPiecesFree(s[1..], d);
    }
  }

  /** A delimiter is never merged with its neighbours: splitting around one
      delimiter is splitting each side. With `a` empty this is a leading empty
      piece; with `b` empty a trailing one. */
  lemma {:induction false} SplitAround(a: Bytes, b: Bytes, d: Byte)
    ensures Split(a + [d] + b, d) == Split(a, d) + Split(b, d)
    decreases |a|
  {
    var s := a + [d] + b;
    if |a| == 0 {
      assert s[1..] == b;
    } else {
      assert s[1..] == a[1..] + [d] + b;
      SplitAround(a[1..], b, d);
    }
  }

  /** Input without the delimiter is a single piece. */
  lemma {:induction false} SplitNoDelimiter(s: Bytes, d: Byte)
    requires d !in s
    ensures Split(s, d) == [s]
    decreases |s|
  {
    if |s| > 0 {
      SplitNoDelimiter(s[1..], d);
      assert s == [s[0]] + s[1..];
    }
  }

  lemma JoinCons(c: Byte, p: Bytes, ps: seq<Bytes>, d: Byte)
    ensures Join([[c] + p] + ps, d) == [c] + Join([p] + ps, d)
  {
    if |ps| > 0 {
      assert ([[c] + p] + ps)[1..] == ps;
      assert ([p] + ps)[1..] == ps;
    }
  }

  /** Joining the pieces gives back the input. */
  lemma {:induction false} JoinSplit(s: Bytes, d: Byte)
    ensures Join(Split(s, d), d) == s
    decreases |s|
  {
    if |s| > 0 {
      var rest := Split(s[1..], d);
      JoinSplit(s[1..], d);
      if s[0] == d {
        assert ([[]] + rest)[1..] == rest;
        assert s == [d] + s[1..];
      } else {
        assert rest == [rest[0]] + rest[1..];
        JoinCons(s[0], rest[0], rest[1..], d);
        assert s == [s[0]] + s[1..];
      }
    }
  }

  /** Splitting the join of delimiter-free pieces gives back the pieces. */
  lemma {:induction false} SplitJoin(pieces: seq<Bytes>, d: Byte)
    requires |pieces| >= 1
    requires forall i :: 0 <= i < |pieces| ==> d !in pieces[i]
    ensures Split(Join(pieces, d), d) == pieces
    decreases |pieces|
  {
    SplitNoDelimiter(pieces[0], d);
    if |pieces| > 1 {
      SplitJoin(pieces[1..], d);
      SplitAround(pieces[0], Join(pieces[1..], d), d);
    }
  }
}
