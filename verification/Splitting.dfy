/** Text as pieces between separators. */
module Splitting {

  /** The pieces of s between separators; always at least one. */
  function Pieces<T(==)>(s: seq<T>, separator: T): (r: seq<seq<T>>)
    ensures |r| > 0
  {
    if s == [] then [[]]
    else
      var front, last := Pieces(s[..|s| - 1], separator), s[|s| - 1];
      if last == separator then front + [[]]
      else front[..|front| - 1] + [front[|front| - 1] + [last]]
  }

  /** The pieces one after the other with separators between them. */
  function Join<T>(pieces: seq<seq<T>>, separator: T): seq<T>
    requires |pieces| > 0
  {
    if |pieces| == 1 then pieces[0]
    else Join(pieces[..|pieces| - 1], separator) + [separator] + pieces[|pieces| - 1]
  }

  lemma JoinGrown<T>(pieces: seq<seq<T>>, tail: seq<T>, separator: T)
    requires |pieces| > 0
    ensures var n := |pieces| - 1;
            Join(pieces[..n] + [pieces[n] + tail], separator) == Join(pieces, separator) + tail
  {
    var n := |pieces| - 1;
    var grown := pieces[..n] + [pieces[n] + tail];
    if n > 0 {
      var front := Join(pieces[..n], separator) + [separator];
      assert grown[..n] == pieces[..n];
      assert front + (pieces[n] + tail) == (front + pieces[n]) + tail;
    }
  }

  /** Splitting and joining gives the text back. */
  lemma {:induction false} JoinPieces<T>(s: seq<T>, separator: T)
    ensures Join(Pieces(s, separator), separator) == s
  {
    if s != [] {
      var n := |s| - 1;
      var front := Pieces(s[..n], separator);
      JoinPieces(s[..n], separator);
      assert s == s[..n] + [s[n]];
      if s[n] == separator {
        assert (front + [[]])[..|front|] == front;
        assert s[..n] + [separator] + [] == s;
      } else {
        JoinGrown(front, [s[n]], separator);
      }
    }
  }

  /** The pieces known so far never change as more text follows, but for the last one, which only grows. */
  lemma {:induction false} PiecesGrow<T>(s: seq<T>, separator: T, n: nat)
    requires n <= |s|
    ensures var now, all := Pieces(s[..n], separator), Pieces(s, separator);
            && |now| <= |all| && now[..|now| - 1] == all[..|now| - 1]
            && now[|now| - 1] <= all[|now| - 1]
    decreases |s|
  {
    if n == |s| {
      assert s[..n] == s;
    } else {
      assert s[..|s| - 1][..n] == s[..n];
      PiecesGrow(s[..|s| - 1], separator, n);
    }
  }

  /** A last piece without separators can be split off. */
  lemma {:induction false} PiecesOfAppended<T>(front: seq<T>, separator: T, piece: seq<T>)
    requires separator !in piece
    ensures Pieces(front + [separator] + piece, separator) == Pieces(front, separator) + [piece]
  {
    var all, n := front + [separator] + piece, |front|;
    if piece == [] {
      assert all[..|all| - 1] == front;
    } else {
      var shorter := piece[..|piece| - 1];
      assert all[..|all| - 1] == front + [separator] + shorter;
      PiecesOfAppended(front, separator, shorter);
      assert shorter + [piece[|piece| - 1]] == piece;
    }
  }

  /** Text without separators is one piece. */
  lemma {:induction false} PiecesOfOne<T>(piece: seq<T>, separator: T)
    requires separator !in piece
    ensures Pieces(piece, separator) == [piece]
  {
    if piece != [] {
      PiecesOfOne(piece[..|piece| - 1], separator);
      assert piece[..|piece| - 1] + [piece[|piece| - 1]] == piece;
    }
  }

  /** What strtok finds: the pieces that are not empty. */
  function Tokens<T(==,!new)>(s: seq<T>, separator: T): seq<seq<T>> {
    NonEmpty(Pieces(s, separator))
  }

  function NonEmpty<T(==,!new)>(pieces: seq<seq<T>>): (r: seq<seq<T>>)
    ensures forall p :: p in r <==> p in pieces && p != []
  {
    if pieces == [] then []
    else if pieces[0] == [] then NonEmpty(pieces[1..])
    else [pieces[0]] + NonEmpty(pieces[1..])
  }
}
