/** The ALPN protocol list: comma-separated text to the wire form of section 3.1 of RFC 7301. */
module Alpn {
  import opened Bytes
  import opened Splitting

  const COMMA: byte := 44

  /** A protocol name fits its length byte. */
  predicate Fits(piece: seq<byte>) {
    |piece| <= 255
  }

  ghost predicate AllFit(pieces: seq<seq<byte>>) {
    forall i | 0 <= i < |pieces| :: Fits(pieces[i])
  }

  /** Each name behind its length. */
  function Encode(pieces: seq<seq<byte>>): (wire: seq<byte>)
    requires AllFit(pieces)
  {
    if pieces == [] then []
    else
      assert Fits(pieces[|pieces| - 1]);
      Encode(pieces[..|pieces| - 1]) + [|pieces[|pieces| - 1]| as byte] + pieces[|pieces| - 1]
  }

  /** Reading the wire form: a length byte, so many bytes, and so on to the end. */
  function Decode(wire: seq<byte>): Option<seq<seq<byte>>>
    decreases |wire|
  {
    if wire == [] then Some([])
    else if |wire| < wire[0] as int + 1 then None
    else
      match Decode(wire[wire[0] as int + 1..])
      case None => None
      case Some(rest) => Some([wire[1..wire[0] as int + 1]] + rest)
  }

  /** Decoding a piece and then the rest, for an encoding built from the front. */
  lemma {:induction false} EncodeFront(piece: seq<byte>, rest: seq<seq<byte>>)
    requires Fits(piece) && AllFit(rest) && AllFit([piece] + rest)
    ensures Encode([piece] + rest) == [|piece| as byte] + piece + Encode(rest)
  {
    var all := [piece] + rest;
    if rest == [] {
      assert all[..0] == [];
    } else {
      var n := |rest| - 1;
      assert all[..|all| - 1] == [piece] + rest[..n];
      EncodeFront(piece, rest[..n]);
    }
  }

  /** The wire form is unambiguous: it decodes to the names it was made of. */
  lemma {:induction false} DecodeEncode(pieces: seq<seq<byte>>)
    requires AllFit(pieces)
    ensures Decode(Encode(pieces)) == Some(pieces)
    decreases |pieces|
  {
    if pieces != [] {
      var piece, rest := pieces[0], pieces[1..];
      assert pieces == [piece] + rest && Fits(piece);
      EncodeFront(piece, rest);
      var wire := Encode(pieces);
      assert wire[1..wire[0] as int + 1] == piece && wire[wire[0] as int + 1..] == Encode(rest);
      DecodeEncode(rest);
    }
  }

  /** Every name costs one byte more, as every name but the first costs a comma: the sizes differ by one. */
  lemma {:induction false} EncodeLength(pieces: seq<seq<byte>>, separator: byte)
    requires |pieces| > 0 && AllFit(pieces)
    ensures |Encode(pieces)| == |Join(pieces, separator)| + 1
  {
    if |pieces| > 1 {
      EncodeLength(pieces[..|pieces| - 1], separator);
    } else {
      assert Encode(pieces[..0]) == [];
    }
  }

  /** What a successful parse promises: the wire form decodes to names that, joined by commas, are the input. */
  lemma ParsedProtocols(text: seq<byte>)
    requires AllFit(Pieces(text, COMMA))
    ensures var wire := Encode(Pieces(text, COMMA));
            && |wire| == |text| + 1
            && Decode(wire).Some? && |Decode(wire).value| > 0 && Join(Decode(wire).value, COMMA) == text
  {
    JoinPieces(text, COMMA);
    DecodeEncode(Pieces(text, COMMA));
    EncodeLength(Pieces(text, COMMA), COMMA);
  }

  /** Where the name that reaches up to position i starts, and the names before it. */
  function Start(text: seq<byte>, i: nat): (start: nat)
    requires i <= |text|
    ensures start <= i
  {
    if i == 0 then 0 else if text[i - 1] == COMMA then i else Start(text, i - 1)
  }

  function Done(text: seq<byte>, i: nat): seq<seq<byte>>
    requires i <= |text|
  {
    if i == 0 then []
    else if text[i - 1] == COMMA then Done(text, i - 1) + [text[Start(text, i - 1)..i - 1]]
    else Done(text, i - 1)
  }

  /** One more character of a text ends a piece or makes it longer. */
  lemma PiecesStep(text: seq<byte>, i: nat)
    requires i < |text|
    ensures var front := Pieces(text[..i], COMMA);
            var n := |front| - 1;
            Pieces(text[..i + 1], COMMA) ==
            if text[i] == COMMA then front + [[]] else front[..n] + [front[n] + [text[i]]]
  {
    assert text[..i + 1][..i] == text[..i];
  }

  lemma NoText()
    ensures Pieces([], COMMA) == [[]]
  {
  }

  lemma LongerPiece(done: seq<seq<byte>>, last: seq<byte>, c: byte)
    ensures var front := done + [last];
            front[..|front| - 1] + [front[|front| - 1] + [c]] == done + [last + [c]]
  {
    assert (done + [last])[..|done|] == done;
  }

  lemma {:induction false} PiecesAre(text: seq<byte>, i: nat)
    requires i <= |text|
    ensures Pieces(text[..i], COMMA) == Done(text, i) + [text[Start(text, i)..i]]
  {
    hide Pieces, Start, Done;
    if i == 0 {
      StartOf(text);
      NoText();
      assert text[..0] == [] && text[0..0] == [];
    } else {
      PiecesAre(text, i - 1);
      PiecesStep(text, i - 1);
      StartNext(text, i - 1);
      var last := text[Start(text, i - 1)..i - 1];
      if text[i - 1] == COMMA {
        assert text[i..i] == [];
      } else {
        LongerPiece(Done(text, i - 1), last, text[i - 1]);
        assert text[Start(text, i)..i] == last + [text[i - 1]];
      }
    }
  }

  lemma StartOf(text: seq<byte>)
    ensures Start(text, 0) == 0 && Done(text, 0) == [] && Encode([]) == []
  {
  }

  lemma StartNext(text: seq<byte>, i: nat)
    requires i < |text|
    ensures Start(text, i + 1) == if text[i] == COMMA then i + 1 else Start(text, i)
    ensures Done(text, i + 1) ==
            if text[i] == COMMA then Done(text, i) + [text[Start(text, i)..i]] else Done(text, i)
  {
  }

  /** The names of the whole text. */
  lemma AllNames(text: seq<byte>)
    ensures Pieces(text, COMMA) == Done(text, |text|) + [text[Start(text, |text|)..|text|]]
  {
    PiecesAre(text, |text|);
    assert text[..|text|] == text;
  }

  /** A name that is too long already makes the whole list unfit. */
  lemma TooLong(text: seq<byte>, i: nat)
    requires i <= |text| && i - Start(text, i) > 255
    ensures !AllFit(Pieces(text, COMMA))
  {
    PiecesAre(text, i);
    PiecesGrow(text, COMMA, i);
    var n := |Done(text, i)|;
    assert Pieces(text[..i], COMMA)[n] <= Pieces(text, COMMA)[n];
    assert !Fits(Pieces(text, COMMA)[n]);
  }

  lemma EncodeNext(done: seq<seq<byte>>, piece: seq<byte>)
    requires AllFit(done) && Fits(piece)
    ensures AllFit(done + [piece])
    ensures Encode(done + [piece]) == Encode(done) + [|piece| as byte] + piece
  {
    var all := done + [piece];
    assert all[..|all| - 1] == done && all[|all| - 1] == piece;
  }

  /** Putting the length byte before a name that is in place already. */
  lemma WireStep(wire: seq<byte>, start: nat, i: nat, length: byte, piece: seq<byte>)
    requires start <= i < |wire| && |piece| == i - start
    requires forall k | 0 <= k < |piece| :: piece[k] == wire[start + 1 + k]
    ensures wire[start := length][..i + 1] == wire[..start] + [length] + piece
  {
  }

  /**
   * Parses a comma-separated list (a NUL-terminated string, given without its NUL) into the wire form.
   * It fails exactly on texts of 65535 bytes or more and on names longer than 255 bytes.
   */
  method ProtosParse(text: seq<byte>) returns (out: array?<byte>)
    ensures out == null <==> |text| >= 65535 || !AllFit(Pieces(text, COMMA))
    ensures out != null ==> fresh(out) && out[..] == Encode(Pieces(text, COMMA)) && out.Length == |text| + 1
  {
    hide Encode, Start, Done;
    var len := |text|;
    if len >= 65535 {
      return null;
    }
    StartOf(text);
    var wire := new byte[len + 1];
    var start := 0;
    ghost var done: seq<seq<byte>> := [];
    for i := 0 to len + 1
      invariant 0 <= start <= i <= len + 1
      invariant AllFit(done) && wire[..][..start] == Encode(done)
      invariant i <= len ==> start == Start(text, i) && done == Done(text, i)
      invariant i <= len ==> forall j | start < j <= i :: wire[j] == text[j - 1]
      invariant i == len + 1 ==> start == i && done == Done(text, len) + [text[Start(text, len)..len]]
    {
      ghost var before := wire[..];
      if i < len {
        StartNext(text, i);
      }
      if i == len || text[i] == COMMA {
        if i - start > 255 {
          TooLong(text, i);
          return null;
        }
        ghost var piece := text[start..i];
        EncodeNext(done, piece);
        WireStep(before, start, i, (i - start) as byte, piece);
        wire[start] := (i - start) as byte;
        assert wire[..] == before[start := (i - start) as byte];
        done := done + [piece];
        start := i + 1;
      } else {
        wire[i + 1] := text[i];
        assert wire[..] == before[i + 1 := text[i]];
      }
    }
    AllNames(text);
    assert wire[..][..len + 1] == wire[..];
    return wire;
  }
}
