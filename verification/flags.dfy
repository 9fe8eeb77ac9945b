/** Sets of flags as text: names, or numbers, between delimiters. */
module Flags {
  import opened Wrappers
  import opened Bits
  import opened Numerals

  // ---- text between delimiters ----

  predicate Free(piece: string, delim: char) {
    delim !in piece
  }

  /** The pieces of `text` between the delimiters; there is always at least one. */
  function Split(text: string, delim: char): (pieces: seq<string>)
    ensures |pieces| > 0
  {
    if text == "" then [""]
    else
      var rest := Split(text[1..], delim);
      if text[0] == delim then [""] + rest else [[text[0]] + rest[0]] + rest[1..]
  }

  /** Every piece followed by a delimiter. */
  function Terminated(pieces: seq<string>, delim: char): string {
    if pieces == [] then "" else pieces[0] + [delim] + Terminated(pieces[1..], delim)
  }

  /** The pieces with a delimiter between neighbours. */
  function Join(pieces: seq<string>, delim: char): string {
    if pieces == [] then ""
    else if |pieces| == 1 then pieces[0]
    else pieces[0] + [delim] + Join(pieces[1..], delim)
  }

  /** Cutting at the first delimiter gives the first piece. */
  lemma {:induction false} SplitAt(piece: string, rest: string, delim: char)
    requires Free(piece, delim)
    ensures Split(piece, delim) == [piece]
    ensures Split(piece + [delim] + rest, delim) == [piece] + Split(rest, delim)
    decreases |piece|
  {
    var text := piece + [delim] + rest;
    if piece == "" {
      assert text[1..] == rest;
    } else {
      SplitAt(piece[1..], rest, delim);
      assert text[1..] == piece[1..] + [delim] + rest;
      assert [piece[0]] + piece[1..] == piece;
    }
  }

  lemma {:induction false} TerminatedIsJoin(pieces: seq<string>, delim: char)
    requires pieces != []
    ensures Terminated(pieces, delim) == Join(pieces, delim) + [delim]
    decreases |pieces|
  {
    if |pieces| > 1 {
      TerminatedIsJoin(pieces[1..], delim);
    }
  }

  lemma {:induction false} TerminatedAppend(pieces: seq<string>, piece: string, delim: char)
    ensures Terminated(pieces + [piece], delim) == Terminated(pieces, delim) + piece + [delim]
    decreases |pieces|
  {
    if pieces == [] {
    } else {
      TerminatedAppend(pieces[1..], piece, delim);
      assert (pieces + [piece])[1..] == pieces[1..] + [piece];
    }
  }

  // ---- printing ----

  /** The text of bit `k`. */
  function PieceOf(names: seq<string>, k: nat): string {
    if k < |names| then names[k] else Decimal(Pow2(k))
  }

  /** The texts of the set bits, lowest first, when `v` holds the bits from number `k` on. */
  function PiecesFrom(names: seq<string>, v: nat, k: nat): seq<string> {
    if v == 0 then []
    else (if v % 2 == 1 then [PieceOf(names, k)] else []) + PiecesFrom(names, v / 2, k + 1)
  }

  function Render(names: seq<string>, v: nat, delim: char): string {
    Join(PiecesFrom(names, v, 0), delim)
  }

  /** `to_string`, for an unsigned type of `width` bits. */
  method ToString(value: nat, names: seq<string>, delim: char, width: nat) returns (res: string)
    requires value < Pow2(width)
    ensures res == Render(names, value, delim)
  {
    res := "";
    var unsigned := value;
    if unsigned != 0 {
      var i := 0;
      ghost var done: seq<string> := [];
      assert [] + PiecesFrom(names, value, 0) == PiecesFrom(names, value, 0);
      while true
        invariant unsigned != 0
        invariant done + PiecesFrom(names, unsigned, i) == PiecesFrom(names, value, 0)
        invariant res == Terminated(done, delim)
        decreases unsigned
      {
        NextBit(names, done, unsigned, i, delim);
        if unsigned % 2 == 1 {
          res := res + if i < |names| then names[i] else Decimal(Pow2(i));
          res := res + [delim];
          done := done + [PieceOf(names, i)];
        }
        unsigned := unsigned / 2;
        i := i + 1;
        if unsigned == 0 {
          break;
        }
      }
      DropLastDelimiter(names, value, done, delim);
      res := res[..|res| - 1];
    }
  }

  /** What one round of the printing loop moves from the bits to the text. */
  lemma NextBit(names: seq<string>, done: seq<string>, v: nat, i: nat, delim: char)
    requires v != 0
    ensures var done' := if v % 2 == 1 then done + [PieceOf(names, i)] else done;
            && done' + PiecesFrom(names, v / 2, i + 1) == done + PiecesFrom(names, v, i)
            && Terminated(done', delim)
               == if v % 2 == 1 then Terminated(done, delim) + PieceOf(names, i) + [delim] else Terminated(done, delim)
  {
    var rest := PiecesFrom(names, v / 2, i + 1);
    if v % 2 == 1 {
      TerminatedAppend(done, PieceOf(names, i), delim);
      assert done + ([PieceOf(names, i)] + rest) == (done + [PieceOf(names, i)]) + rest;
    } else {
      assert [] + rest == rest;
    }
  }

  lemma DropLastDelimiter(names: seq<string>, value: nat, done: seq<string>, delim: char)
    requires value != 0 && done + [] == PiecesFrom(names, value, 0)
    ensures Terminated(done, delim) == Render(names, value, delim) + [delim]
  {
    assert done + [] == done;
    NonzeroPrintsSomething(names, value, 0);
    TerminatedIsJoin(done, delim);
  }

  lemma {:induction false} NonzeroPrintsSomething(names: seq<string>, v: nat, k: nat)
    requires v != 0
    ensures PiecesFrom(names, v, k) != []
    decreases v
  {
    if v % 2 == 0 {
      NonzeroPrintsSomething(names, v / 2, k + 1);
    }
  }

  // ---- parsing ----

  /** Position of the first name equal to `piece`, or the number of names. */
  function IndexOf(names: seq<string>, piece: string): (i: nat)
    ensures i <= |names|
    ensures i < |names| ==> names[i] == piece
    ensures forall j :: 0 <= j < i ==> names[j] != piece
  {
    if names == [] || names[0] == piece then 0 else 1 + IndexOf(names[1..], piece)
  }

  /** The bits one piece stands for. */
  function PieceValue(names: seq<string>, width: nat, piece: string): Option<nat> {
    var i := IndexOf(names, piece);
    if i < |names| then Some(Pow2(i)) else Numeral(piece, width)
  }

  predicate Accepted(names: seq<string>, width: nat, piece: string) {
    piece == "" || PieceValue(names, width, piece).Some?
  }

  /** OR of the values of the pieces; empty and unknown pieces add nothing. */
  function OrOf(names: seq<string>, width: nat, pieces: seq<string>): nat {
    if pieces == [] then 0
    else
      Or(OrOf(names, width, pieces[..|pieces| - 1]), Contribution(names, width, pieces[|pieces| - 1]))
  }

  /** The value a piece adds to the result. */
  function Contribution(names: seq<string>, width: nat, piece: string): nat {
    var value := PieceValue(names, width, piece);
    if piece != "" && value.Some? then value.value else 0
  }

  predicate AllAccepted(names: seq<string>, width: nat, pieces: seq<string>) {
    forall i :: 0 <= i < |pieces| ==> Accepted(names, width, pieces[i])
  }

  /** `std::find` from `begin` on. */
  function FindFrom(text: string, begin: nat, delim: char): (last: nat)
    requires begin <= |text|
    ensures begin <= last <= |text|
    ensures Free(text[begin..last], delim)
    ensures last < |text| ==> text[last] == delim
    decreases |text| - begin
  {
    if begin == |text| || text[begin] == delim then begin
    else
      var last := FindFrom(text, begin + 1, delim);
      assert text[begin..last] == [text[begin]] + text[begin + 1..last];
      last
  }

  lemma FirstPiece(text: string, begin: nat, delim: char)
    requires begin <= |text|
    ensures var last := FindFrom(text, begin, delim);
            Split(text[begin..], delim) ==
              [text[begin..last]] + if last < |text| then Split(text[last + 1..], delim) else []
  {
    var last := FindFrom(text, begin, delim);
    if last < |text| {
      assert text[begin..] == text[begin..last] + [delim] + text[last + 1..];
      SplitAt(text[begin..last], text[last + 1..], delim);
    } else {
      assert text[begin..] == text[begin..last];
      SplitAt(text[begin..last], "", delim);
    }
  }

  /**
   `parse_string`: ORs the pieces up to the first that is neither a name nor a number in range, and leaves
   `begin` at the start of that piece, or at the end when there is none.
   */
  method ParseString(text: string, names: seq<string>, delim: char, width: nat) returns (res: nat, begin: nat)
    requires |names| <= width
    ensures begin <= |text| && res < Pow2(width)
    ensures begin == |text| <==> AllAccepted(names, width, Split(text, delim))
    ensures begin == |text| ==> res == OrOf(names, width, Split(text, delim))
    ensures begin < |text| ==> StoppedAt(names, width, text, delim, Split(text, delim), begin, res)
  {
    ghost var pieces, j := Split(text, delim), 0;
    assert text[0..] == text;
    res, begin := 0, 0;
    while true
      invariant ReadSoFar(names, width, text, delim, pieces, begin, j, res)
      decreases |text| - begin
    {
      TakePiece(names, width, text, delim, pieces, begin, j, res);
      var last := FindFrom(text, begin, delim);
      if last != begin {
        var ok, val := ParseToken(text[begin..last], names, width);
        if !ok {
          break;
        }
        res := Or(res, val);
      }
      begin := last;
      if begin == |text| {
        break;
      }
      begin := begin + 1;
      j := j + 1;
      if begin == |text| {
        NothingLeft(names, width, text, delim, pieces, j, res);
        break;
      }
    }
    OutcomeMeans(names, width, text, delim, res, begin);
  }

  /** The result after one more piece. */
  function WithPiece(names: seq<string>, width: nat, res: nat, piece: string): nat {
    if piece == "" then res else Or(res, Contribution(names, width, piece))
  }

  /** Before piece `j`, which starts at `begin`, all pieces are accepted and `res` is their OR. */
  ghost predicate ReadSoFar(names: seq<string>, width: nat, text: string, delim: char, pieces: seq<string>,
                            begin: nat, j: nat, res: nat) {
    && AtPiece(text, begin, delim, pieces, j)
    && AllAccepted(names, width, pieces[..j])
    && res == OrOf(names, width, pieces[..j]) < Pow2(width)
  }

  /** Reading stopped at `begin`, the start of the first unknown piece, with the OR of the pieces before it. */
  ghost predicate StoppedAt(names: seq<string>, width: nat, text: string, delim: char, pieces: seq<string>,
                            begin: nat, res: nat) {
    exists j :: IsFirstUnknown(names, width, pieces, j)
                && begin <= |text| && text[..begin] == Terminated(pieces[..j], delim)
                && res == OrOf(names, width, pieces[..j]) < Pow2(width)
  }

  ghost predicate ReadAll(names: seq<string>, width: nat, pieces: seq<string>, res: nat) {
    AllAccepted(names, width, pieces) && res == OrOf(names, width, pieces) < Pow2(width)
  }

  /** Reading left the result `outcome.0` and `begin` at `outcome.1`: behind all pieces, or at the first unknown one. */
  ghost predicate ReadEnds(names: seq<string>, width: nat, text: string, delim: char, pieces: seq<string>,
                           outcome: (nat, nat)) {
    var (res, end) := outcome;
    && end <= |text|
    && if end == |text| then ReadAll(names, width, pieces, res)
       else StoppedAt(names, width, text, delim, pieces, end, res) && !AllAccepted(names, width, pieces)
  }

  /** Reading piece `j`: unknown, or taken into the result, and then either the end or the next piece. */
  lemma TakePiece(names: seq<string>, width: nat, text: string, delim: char, pieces: seq<string>,
                  begin: nat, j: nat, res: nat)
    requires |names| <= width && ReadSoFar(names, width, text, delim, pieces, begin, j, res)
    ensures var last := FindFrom(text, begin, delim);
            var piece := text[begin..last];
            var sum := WithPiece(names, width, res, piece);
            if !Accepted(names, width, piece) then ReadEnds(names, width, text, delim, pieces, (res, begin))
            else if last == |text| then ReadEnds(names, width, text, delim, pieces, (sum, last))
            else ReadSoFar(names, width, text, delim, pieces, last + 1, j + 1, sum)
  {
    NextPiece(text, begin, delim, pieces, j);
    OrOfNext(names, width, pieces, j);
    ContributionFits(names, width, pieces[j]);
    OrFits(res, Contribution(names, width, pieces[j]), width);
    if !Accepted(names, width, pieces[j]) {
      assert IsFirstUnknown(names, width, pieces, j);
    }
  }

  lemma ContributionFits(names: seq<string>, width: nat, piece: string)
    requires |names| <= width
    ensures Contribution(names, width, piece) < Pow2(width)
  {
    var i := IndexOf(names, piece);
    if i < |names| {
      Pow2Increases(i, width);
    }
  }

  lemma OutcomeMeans(names: seq<string>, width: nat, text: string, delim: char, res: nat, begin: nat)
    requires ReadEnds(names, width, text, delim, Split(text, delim), (res, begin))
    ensures begin <= |text| && res < Pow2(width)
    ensures begin == |text| <==> AllAccepted(names, width, Split(text, delim))
    ensures begin == |text| ==> res == OrOf(names, width, Split(text, delim))
    ensures begin < |text| ==> StoppedAt(names, width, text, delim, Split(text, delim), begin, res)
  {
  }

  /** After a trailing delimiter there is only the empty piece. */
  lemma NothingLeft(names: seq<string>, width: nat, text: string, delim: char, pieces: seq<string>, j: nat, res: nat)
    requires ReadSoFar(names, width, text, delim, pieces, |text|, j, res)
    ensures ReadEnds(names, width, text, delim, pieces, (res, |text|))
  {
    LastPieceEmpty(text, delim, pieces, j);
    OrOfNext(names, width, pieces, j);
  }

  /** One non-empty token of `parse_string`: a name, or else a number. */
  method ParseToken(token: string, names: seq<string>, width: nat) returns (ok: bool, val: nat)
    requires token != "" && |names| <= width
    ensures ok <==> Accepted(names, width, token)
    ensures ok ==> val == Contribution(names, width, token) < Pow2(width)
  {
    var i := IndexOf(names, token);
    if i != |names| {
      Pow2Increases(i, width);
      return true, Pow2(i);
    }
    ok, val := ParseNumeric(token, width);
  }

  /** Position `begin` of `text` is the start of piece `j`. */
  ghost predicate AtPiece(text: string, begin: nat, delim: char, pieces: seq<string>, j: nat) {
    && begin <= |text| && j < |pieces|
    && Split(text[begin..], delim) == pieces[j..]
    && text[..begin] == Terminated(pieces[..j], delim)
  }

  lemma NextPiece(text: string, begin: nat, delim: char, pieces: seq<string>, j: nat)
    requires AtPiece(text, begin, delim, pieces, j)
    ensures var last := FindFrom(text, begin, delim);
            && pieces[j] == text[begin..last]
            && if last == |text| then j + 1 == |pieces| else AtPiece(text, last + 1, delim, pieces, j + 1)
  {
    var last := FindFrom(text, begin, delim);
    FirstPiece(text, begin, delim);
    assert pieces[j] == pieces[j..][0];
    if last < |text| {
      assert pieces[j + 1..] == pieces[j..][1..];
      PassPiece(text, begin, last, delim, pieces, j);
    }
  }

  lemma PassPiece(text: string, begin: nat, last: nat, delim: char, pieces: seq<string>, j: nat)
    requires begin <= last < |text| && j < |pieces| && text[last] == delim && pieces[j] == text[begin..last]
    requires text[..begin] == Terminated(pieces[..j], delim)
    ensures text[..last + 1] == Terminated(pieces[..j + 1], delim)
  {
    TerminatedAppend(pieces[..j], pieces[j], delim);
    assert pieces[..j + 1] == pieces[..j] + [pieces[j]];
    assert text[..last + 1] == text[..begin] + text[begin..last] + [delim];
  }

  lemma LastPieceEmpty(text: string, delim: char, pieces: seq<string>, j: nat)
    requires AtPiece(text, |text|, delim, pieces, j)
    ensures j + 1 == |pieces| && pieces[j] == ""
  {
    assert pieces[j] == pieces[j..][0];
  }

  /** What taking in one more piece does. */
  lemma OrOfNext(names: seq<string>, width: nat, pieces: seq<string>, j: nat)
    requires j < |pieces|
    ensures OrOf(names, width, pieces[..j + 1]) == Or(OrOf(names, width, pieces[..j]), Contribution(names, width, pieces[j]))
    ensures pieces[j] == "" ==> OrOf(names, width, pieces[..j + 1]) == OrOf(names, width, pieces[..j])
    ensures AllAccepted(names, width, pieces[..j]) && Accepted(names, width, pieces[j]) ==>
              AllAccepted(names, width, pieces[..j + 1])
    ensures j + 1 == |pieces| ==> pieces[..j + 1] == pieces
  {
    assert pieces[..j + 1][..j] == pieces[..j];
    OrZero(OrOf(names, width, pieces[..j]));
  }

  lemma OrZero(a: nat)
    ensures Or(a, 0) == a
  {
  }

  /** Piece `j` is the first that is neither empty nor a name nor a number in range. */
  ghost predicate IsFirstUnknown(names: seq<string>, width: nat, pieces: seq<string>, j: int) {
    0 <= j < |pieces| && !Accepted(names, width, pieces[j]) && AllAccepted(names, width, pieces[..j])
  }

  /** `from_string`: the error carries the text from the unknown flag on. */
  method FromString(text: string, names: seq<string>, delim: char, width: nat) returns (r: Result<nat, string>)
    requires |names| <= width
    ensures r.Ok? <==> AllAccepted(names, width, Split(text, delim))
    ensures r.Ok? ==> r.value == OrOf(names, width, Split(text, delim)) < Pow2(width)
    ensures r.Err? ==>
      exists j :: IsFirstUnknown(names, width, Split(text, delim), j)
                  && text == Terminated(Split(text, delim)[..j], delim) + r.error
  {
    var res, begin := ParseString(text, names, delim, width);
    if begin != |text| {
      assert text == text[..begin] + text[begin..];
      return Err(text[begin..]);
    }
    return Ok(res);
  }

  // ---- the result depends on the set of pieces only ----

  ghost predicate SamePieces(p: seq<string>, q: seq<string>) {
    forall piece :: piece != "" ==> (piece in p <==> piece in q)
  }

  /** Bit `k` of the OR is set exactly when some piece sets it. */
  lemma {:induction false} OrOfBit(names: seq<string>, width: nat, pieces: seq<string>, k: nat)
    ensures Bit(OrOf(names, width, pieces), k) <==>
            exists i :: 0 <= i < |pieces| && SetsBit(names, width, pieces[i], k)
    decreases |pieces|
  {
    if pieces == [] {
      ZeroBit(k);
    } else {
      var m := |pieces| - 1;
      OrOfBit(names, width, pieces[..m], k);
      OrOfLastBit(names, width, pieces, k);
      SomePieceSetsBit(names, width, pieces, k);
    }
  }

  lemma SomePieceSetsBit(names: seq<string>, width: nat, pieces: seq<string>, k: nat)
    requires pieces != []
    ensures var m := |pieces| - 1;
            (exists i :: 0 <= i < |pieces| && SetsBit(names, width, pieces[i], k))
            <==> (exists i :: 0 <= i < m && SetsBit(names, width, pieces[..m][i], k)) || SetsBit(names, width, pieces[m], k)
  {
    var m := |pieces| - 1;
    if i :| 0 <= i < m && SetsBit(names, width, pieces[..m][i], k) {
      assert pieces[i] == pieces[..m][i];
    }
    if i :| 0 <= i < |pieces| && SetsBit(names, width, pieces[i], k) {
      assert i < m ==> pieces[..m][i] == pieces[i];
    }
  }

  lemma OrOfLastBit(names: seq<string>, width: nat, pieces: seq<string>, k: nat)
    requires pieces != []
    ensures var m := |pieces| - 1;
            Bit(OrOf(names, width, pieces), k)
            <==> Bit(OrOf(names, width, pieces[..m]), k) || SetsBit(names, width, pieces[m], k)
  {
    var m := |pieces| - 1;
    OrBit(OrOf(names, width, pieces[..m]), Contribution(names, width, pieces[m]), k);
    ZeroBit(k);
  }

  predicate SetsBit(names: seq<string>, width: nat, piece: string, k: nat) {
    piece != "" && PieceValue(names, width, piece).Some? && Bit(PieceValue(names, width, piece).value, k)
  }

  /**
   Two texts with the same non-empty pieces, in whatever order, however often and with whatever empty pieces
   between, are both rejected or both accepted with the same value.
   */
  lemma {:induction false} OnlyTheSetOfPiecesMatters(names: seq<string>, width: nat, p: seq<string>, q: seq<string>)
    requires SamePieces(p, q)
    ensures AllAccepted(names, width, p) <==> AllAccepted(names, width, q)
    ensures OrOf(names, width, p) == OrOf(names, width, q)
  {
    if AllAccepted(names, width, p) {
      SamePiecesAccepted(names, width, p, q);
    }
    if AllAccepted(names, width, q) {
      SamePiecesAccepted(names, width, q, p);
    }
    forall k: nat
      ensures Bit(OrOf(names, width, p), k) <==> Bit(OrOf(names, width, q), k)
    {
      OrOfBit(names, width, p, k);
      OrOfBit(names, width, q, k);
      if Bit(OrOf(names, width, p), k) {
        SamePiecesSetBit(names, width, p, q, k);
      }
      if Bit(OrOf(names, width, q), k) {
        SamePiecesSetBit(names, width, q, p, k);
      }
    }
    SameBitsSameValue(OrOf(names, width, p), OrOf(names, width, q));
  }

  lemma SamePiecesAccepted(names: seq<string>, width: nat, p: seq<string>, q: seq<string>)
    requires SamePieces(p, q) && AllAccepted(names, width, p)
    ensures AllAccepted(names, width, q)
  {
    forall i | 0 <= i < |q|
      ensures Accepted(names, width, q[i])
    {
      assert q[i] in q;
      if q[i] != "" {
        var j :| 0 <= j < |p| && p[j] == q[i];
        assert Accepted(names, width, p[j]);
      }
    }
  }

  lemma SamePiecesSetBit(names: seq<string>, width: nat, p: seq<string>, q: seq<string>, k: nat)
    requires SamePieces(p, q)
    requires exists i :: 0 <= i < |p| && SetsBit(names, width, p[i], k)
    ensures exists i :: 0 <= i < |q| && SetsBit(names, width, q[i], k)
  {
    var i :| 0 <= i < |p| && SetsBit(names, width, p[i], k);
    assert p[i] in p;
    var j :| 0 <= j < |q| && q[j] == p[i];
    assert SetsBit(names, width, q[j], k);
  }
}
