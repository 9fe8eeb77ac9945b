/** When a set of flags that is printed and read again is the same set. */
module FlagsRoundTrip {
  import opened Wrappers
  import opened Bits
  import opened Numerals
  import opened Flags

  // ---- printed texts that contain delimiters ----

  /** The pieces are all accepted and their OR is `v`. */
  predicate ReadAs(names: seq<string>, width: nat, pieces: seq<string>, v: nat) {
    AllAccepted(names, width, pieces) && OrOf(names, width, pieces) == v
  }

  /** The value that `from_string` makes of what `to_string` printed for `v` is `v`. */
  predicate RoundTrips(names: seq<string>, v: nat, delim: char, width: nat) {
    ReadAs(names, width, Split(Render(names, v, delim), delim), v)
  }

  /** The text of bit `k`, cut at the delimiters in it, is read as bit `k`. */
  predicate BitReadsBack(names: seq<string>, k: nat, delim: char, width: nat) {
    ReadAs(names, width, Split(PieceOf(names, k), delim), Pow2(k))
  }

  function SplitAll(texts: seq<string>, delim: char): seq<string> {
    if texts == [] then [] else Split(texts[0], delim) + SplitAll(texts[1..], delim)
  }

  /** The pieces of a text that has one more character in front. */
  function WithFirst(c: char, rest: seq<string>, delim: char): seq<string>
    requires rest != []
  {
    if c == delim then [""] + rest else [[c] + rest[0]] + rest[1..]
  }

  lemma WithFirstConcat(c: char, rest: seq<string>, more: seq<string>, delim: char)
    requires rest != []
    ensures WithFirst(c, rest + more, delim) == WithFirst(c, rest, delim) + more
  {
  }

  lemma SplitCons(c: char, text: string, delim: char)
    ensures Split([c] + text, delim) == WithFirst(c, Split(text, delim), delim)
  {
    assert ([c] + text)[1..] == text;
  }

  lemma {:induction false} SplitConcat(a: string, b: string, delim: char)
    ensures Split(a + [delim] + b, delim) == Split(a, delim) + Split(b, delim)
    decreases |a|
  {
    if a == "" {
      assert a + [delim] + b == [delim] + b;
      SplitCons(delim, b, delim);
    } else {
      var tail := a[1..] + [delim] + b;
      SplitConcat(a[1..], b, delim);
      assert a + [delim] + b == [a[0]] + tail && a == [a[0]] + a[1..];
      SplitCons(a[0], tail, delim);
      SplitCons(a[0], a[1..], delim);
      WithFirstConcat(a[0], Split(a[1..], delim), Split(b, delim), delim);
    }
  }

  /** Joined texts are cut into the pieces of each, one after the other. */
  lemma {:induction false} SplitJoinAll(texts: seq<string>, delim: char)
    requires texts != []
    ensures Split(Join(texts, delim), delim) == SplitAll(texts, delim)
    decreases |texts|
  {
    if |texts| == 1 {
      assert SplitAll(texts[1..], delim) == [];
    } else {
      SplitJoinAll(texts[1..], delim);
      SplitConcat(texts[0], Join(texts[1..], delim), delim);
    }
  }

  lemma OrOfSnocBit(names: seq<string>, width: nat, init: seq<string>, last: string, m: nat)
    ensures Bit(OrOf(names, width, init + [last]), m)
            <==> Bit(OrOf(names, width, init), m) || SetsBit(names, width, last, m)
  {
    var all := init + [last];
    assert all[..|all| - 1] == init;
    OrOfLastBit(names, width, all, m);
  }

  /** The OR over two runs of pieces has the bits of both. */
  lemma {:induction false} OrOfConcatBit(names: seq<string>, width: nat, p: seq<string>, q: seq<string>, m: nat)
    ensures Bit(OrOf(names, width, p + q), m) <==> Bit(OrOf(names, width, p), m) || Bit(OrOf(names, width, q), m)
    decreases |q|
  {
    if q == [] {
      assert p + q == p;
      ZeroBit(m);
    } else {
      var init, last := q[..|q| - 1], q[|q| - 1];
      OrOfConcatBit(names, width, p, init, m);
      OrOfSnocBit(names, width, init, last, m);
      OrOfSnocBit(names, width, p + init, last, m);
      assert q == init + [last] && p + q == (p + init) + [last];
    }
  }

  /** Some piece of `text` sets bit `m`. */
  predicate TextSetsBit(names: seq<string>, width: nat, text: string, delim: char, m: nat) {
    Bit(OrOf(names, width, Split(text, delim)), m)
  }

  lemma {:induction false} SplitAllBit(names: seq<string>, width: nat, texts: seq<string>, delim: char, m: nat)
    ensures Bit(OrOf(names, width, SplitAll(texts, delim)), m) <==> SomeTextSetsBit(names, width, texts, delim, m)
    decreases |texts|
  {
    if texts == [] {
      ZeroBit(m);
    } else {
      SplitAllBit(names, width, texts[1..], delim, m);
      OrOfConcatBit(names, width, Split(texts[0], delim), SplitAll(texts[1..], delim), m);
      FirstOrRest(names, width, texts, delim, m);
    }
  }

  ghost predicate SomeTextSetsBit(names: seq<string>, width: nat, texts: seq<string>, delim: char, m: nat) {
    exists i :: 0 <= i < |texts| && TextSetsBit(names, width, texts[i], delim, m)
  }

  lemma FirstOrRest(names: seq<string>, width: nat, texts: seq<string>, delim: char, m: nat)
    requires texts != []
    ensures SomeTextSetsBit(names, width, texts, delim, m)
            <==> TextSetsBit(names, width, texts[0], delim, m) || SomeTextSetsBit(names, width, texts[1..], delim, m)
  {
    var rest := texts[1..];
    if i :| 0 <= i < |rest| && TextSetsBit(names, width, rest[i], delim, m) {
      assert texts[i + 1] == rest[i];
    }
    if i :| 0 <= i < |texts| && TextSetsBit(names, width, texts[i], delim, m) {
      assert i > 0 ==> rest[i - 1] == texts[i];
    }
  }

  lemma {:induction false} SplitAllAccepted(names: seq<string>, width: nat, texts: seq<string>, delim: char)
    requires forall i :: 0 <= i < |texts| ==> AllAccepted(names, width, Split(texts[i], delim))
    ensures AllAccepted(names, width, SplitAll(texts, delim))
    decreases |texts|
  {
    if texts != [] {
      assert forall i :: 0 <= i < |texts[1..]| ==> texts[1..][i] == texts[i + 1];
      SplitAllAccepted(names, width, texts[1..], delim);
      AcceptedConcat(names, width, Split(texts[0], delim), SplitAll(texts[1..], delim));
    }
  }

  lemma AcceptedConcat(names: seq<string>, width: nat, p: seq<string>, q: seq<string>)
    requires AllAccepted(names, width, p) && AllAccepted(names, width, q)
    ensures AllAccepted(names, width, p + q)
  {
  }

  // ---- what is printed ----

  /** Every printed piece is the text of a set bit. */
  lemma {:induction false} PieceIsBit(names: seq<string>, v: nat, from: nat, i: nat) returns (k: nat)
    requires i < |PiecesFrom(names, v, from)|
    ensures Bit(v, k) && PiecesFrom(names, v, from)[i] == PieceOf(names, from + k)
    decreases v
  {
    var d := if v % 2 == 1 then 1 else 0;
    if i < d {
      k := 0;
    } else {
      var m := PieceIsBit(names, v / 2, from + 1, i - d);
      k := m + 1;
    }
  }

  /** Every set bit is printed. */
  lemma {:induction false} BitIsPrinted(names: seq<string>, v: nat, from: nat, k: nat)
    requires Bit(v, k)
    ensures PieceOf(names, from + k) in PiecesFrom(names, v, from)
    decreases k
  {
    if v == 0 {
      ZeroBit(k);
    } else if k > 0 {
      BitIsPrinted(names, v / 2, from + 1, k - 1);
      assert from + 1 + (k - 1) == from + k;
    }
  }

  /** A single bit is printed as its own piece and nothing else. */
  /** The pieces are in the order of their bits, lowest first, and no bit is printed twice. */
  lemma {:induction false} PiecesInOrder(names: seq<string>, v: nat, from: nat, i: nat, j: nat) returns (a: nat, b: nat)
    requires i < j < |PiecesFrom(names, v, from)|
    ensures a < b && Bit(v, a) && Bit(v, b)
    ensures PiecesFrom(names, v, from)[i] == PieceOf(names, from + a) && PiecesFrom(names, v, from)[j] == PieceOf(names, from + b)
    decreases v
  {
    var d := if v % 2 == 1 then 1 else 0;
    if i < d {
      a := 0;
      var m := PieceIsBit(names, v / 2, from + 1, j - d);
      b := m + 1;
      assert from + 1 + m == from + b;
    } else {
      var m, n := PiecesInOrder(names, v / 2, from + 1, i - d, j - d);
      a, b := m + 1, n + 1;
      assert from + 1 + m == from + a && from + 1 + n == from + b;
    }
  }

  lemma {:induction false} SingleBitPieces(names: seq<string>, k: nat, from: nat)
    ensures PiecesFrom(names, Pow2(k), from) == [PieceOf(names, from + k)]
    decreases k
  {
    if k == 0 {
      assert PiecesFrom(names, 0, from + 1) == [];
    } else {
      assert Pow2(k) / 2 == Pow2(k - 1) && Pow2(k) % 2 == 0;
      SingleBitPieces(names, k - 1, from + 1);
    }
  }

  // ---- round trip ----

  lemma BitTextSetsItsBit(names: seq<string>, k: nat, delim: char, width: nat, m: nat)
    requires BitReadsBack(names, k, delim, width)
    ensures TextSetsBit(names, width, PieceOf(names, k), delim, m) <==> k == m
  {
    Pow2Bit(k, m);
  }

  /** Only bits of the value are set by a printed text. */
  lemma RenderedBitIsSet(names: seq<string>, v: nat, delim: char, width: nat, i: nat, m: nat)
    requires forall k: nat :: Bit(v, k) ==> BitReadsBack(names, k, delim, width)
    requires i < |PiecesFrom(names, v, 0)| && TextSetsBit(names, width, PiecesFrom(names, v, 0)[i], delim, m)
    ensures Bit(v, m)
  {
    var k := PieceIsBit(names, v, 0, i);
    BitTextSetsItsBit(names, k, delim, width, m);
  }

  /** Every bit of the value is set by some printed text. */
  lemma SetBitIsRendered(names: seq<string>, v: nat, delim: char, width: nat, m: nat) returns (i: nat)
    requires Bit(v, m) && BitReadsBack(names, m, delim, width)
    ensures i < |PiecesFrom(names, v, 0)| && TextSetsBit(names, width, PiecesFrom(names, v, 0)[i], delim, m)
  {
    BitIsPrinted(names, v, 0, m);
    BitTextSetsItsBit(names, m, delim, width, m);
    i :| i < |PiecesFrom(names, v, 0)| && PiecesFrom(names, v, 0)[i] == PieceOf(names, m);
  }

  /** The pieces of the printed text set exactly the bits of the value. */
  lemma RenderedBit(names: seq<string>, v: nat, delim: char, width: nat, m: nat)
    requires forall k: nat :: Bit(v, k) ==> BitReadsBack(names, k, delim, width)
    ensures Bit(OrOf(names, width, SplitAll(PiecesFrom(names, v, 0), delim)), m) <==> Bit(v, m)
  {
    var texts := PiecesFrom(names, v, 0);
    SplitAllBit(names, width, texts, delim, m);
    if i: nat :| i < |texts| && TextSetsBit(names, width, texts[i], delim, m) {
      RenderedBitIsSet(names, v, delim, width, i, m);
    }
    if Bit(v, m) {
      var i := SetBitIsRendered(names, v, delim, width, m);
    }
  }

  /** A value reads back when the text of each of its bits does, delimiters in it or not. */
  lemma {:induction false} ReadsBackBitByBit(names: seq<string>, v: nat, delim: char, width: nat)
    requires forall k: nat :: Bit(v, k) ==> BitReadsBack(names, k, delim, width)
    ensures RoundTrips(names, v, delim, width)
  {
    var texts := PiecesFrom(names, v, 0);
    if v == 0 {
      assert [""][..0] == [];
    } else {
      NonzeroPrintsSomething(names, v, 0);
      SplitJoinAll(texts, delim);
      forall i | 0 <= i < |texts|
        ensures AllAccepted(names, width, Split(texts[i], delim))
      {
        var k := PieceIsBit(names, v, 0, i);
        assert BitReadsBack(names, k, delim, width);
      }
      SplitAllAccepted(names, width, texts, delim);
      forall m: nat
        ensures Bit(OrOf(names, width, SplitAll(texts, delim)), m) <==> Bit(v, m)
      {
        RenderedBit(names, v, delim, width, m);
      }
      SameBitsSameValue(OrOf(names, width, SplitAll(texts, delim)), v);
    }
  }

  /** A single bit is printed as its own text. */
  lemma RenderSingle(names: seq<string>, k: nat, delim: char)
    ensures Render(names, Pow2(k), delim) == PieceOf(names, k)
  {
    SingleBitPieces(names, k, 0);
  }

  lemma SingleBit(names: seq<string>, k: nat, delim: char, width: nat)
    ensures RoundTrips(names, Pow2(k), delim, width) <==> BitReadsBack(names, k, delim, width)
  {
    RenderSingle(names, k, delim);
  }

  /** Every value of the type reads back exactly when the text of every bit does. */
  lemma {:induction false} RoundTripIffEveryBit(names: seq<string>, delim: char, width: nat)
    requires |names| <= width
    ensures (forall v: nat :: v < Pow2(width) ==> RoundTrips(names, v, delim, width))
            <==> (forall k: nat :: k < width ==> BitReadsBack(names, k, delim, width))
  {
    if forall k: nat :: k < width ==> BitReadsBack(names, k, delim, width) {
      forall v: nat | v < Pow2(width)
        ensures RoundTrips(names, v, delim, width)
      {
        forall k: nat | Bit(v, k)
          ensures BitReadsBack(names, k, delim, width)
        {
          if k >= width {
            HighBitsClear(v, width, k);
          }
        }
        ReadsBackBitByBit(names, v, delim, width);
      }
    }
    if forall v: nat :: v < Pow2(width) ==> RoundTrips(names, v, delim, width) {
      forall k: nat | k < width
        ensures BitReadsBack(names, k, delim, width)
      {
        Pow2Increases(k, width);
        SingleBit(names, k, delim, width);
      }
    }
  }

  // ---- texts without delimiters ----

  /** What a list of names must satisfy: no empty name, no name twice, and no name that reads as an unnamed bit. */
  ghost predicate GoodNames(names: seq<string>, width: nat) {
    && (forall i :: 0 <= i < |names| ==> names[i] != "")
    && (forall i, j :: 0 <= i < j < |names| ==> names[i] != names[j])
    && (forall i, k: nat :: 0 <= i < |names| <= k < width ==> names[i] != Decimal(Pow2(k)))
  }

  /** No bit is printed with a delimiter in it. */
  ghost predicate DelimiterFree(names: seq<string>, delim: char, width: nat) {
    forall k: nat :: k < width ==> Free(PieceOf(names, k), delim)
  }

  /** The text of bit `k` stands for bit `k` as a whole. */
  predicate StandsForBit(names: seq<string>, k: nat, width: nat) {
    PieceOf(names, k) != "" && PieceValue(names, width, PieceOf(names, k)) == Some(Pow2(k))
  }

  /** A text without delimiters reads back exactly when it is not empty and stands for its bit. */
  lemma FreeTextReadsBack(names: seq<string>, k: nat, delim: char, width: nat)
    requires Free(PieceOf(names, k), delim)
    ensures BitReadsBack(names, k, delim, width) <==> StandsForBit(names, k, width)
  {
    SplitAt(PieceOf(names, k), "", delim);
    ReadOne(names, width, PieceOf(names, k), Pow2(k));
  }

  lemma ReadOne(names: seq<string>, width: nat, piece: string, v: nat)
    requires v > 0
    ensures ReadAs(names, width, [piece], v) <==> piece != "" && PieceValue(names, width, piece) == Some(v)
  {
    assert [piece][..0] == [];
    assert OrOf(names, width, []) == 0;
    assert [piece][0] == piece;
    assert AllAccepted(names, width, [piece]) ==> Accepted(names, width, [piece][0]);
  }

  /** With good names, the text of bit `k` stands for bit `k`. */
  lemma GoodNamesStand(names: seq<string>, width: nat, k: nat)
    requires |names| <= width && GoodNames(names, width) && k < width
    ensures StandsForBit(names, k, width)
  {
    var i := IndexOf(names, PieceOf(names, k));
    Pow2Increases(k, width);
    if k >= |names| {
      DecimalRoundTrip(Pow2(k), width);
    }
  }

  /** Names whose texts all stand for their bits are good. */
  lemma StandingNamesAreGood(names: seq<string>, width: nat)
    requires |names| <= width
    requires forall k: nat :: k < width ==> StandsForBit(names, k, width)
    ensures GoodNames(names, width)
  {
    forall i | 0 <= i < |names|
      ensures names[i] != ""
    {
      assert StandsForBit(names, i, width);
    }
    forall i, k: nat | 0 <= i < |names| && i < k < width
      ensures PieceOf(names, i) != PieceOf(names, k)
    {
      assert StandsForBit(names, i, width) && StandsForBit(names, k, width);
      Pow2Increases(i, k);
    }
    forall i, j | 0 <= i < j < |names|
      ensures names[i] != names[j]
    {
      assert PieceOf(names, i) != PieceOf(names, j);
    }
    forall i, k: nat | 0 <= i < |names| <= k < width
      ensures names[i] != Decimal(Pow2(k))
    {
      assert PieceOf(names, i) != PieceOf(names, k);
    }
  }

  /**
   When no text contains the delimiter, every value reads back exactly when the names are non-empty, distinct,
   and none is the decimal of a bit that has no name.
   */
  lemma {:induction false} RoundTripIffGoodNames(names: seq<string>, delim: char, width: nat)
    requires |names| <= width && DelimiterFree(names, delim, width)
    ensures (forall v: nat :: v < Pow2(width) ==> RoundTrips(names, v, delim, width)) <==> GoodNames(names, width)
  {
    RoundTripIffEveryBit(names, delim, width);
    forall k: nat | k < width
      ensures BitReadsBack(names, k, delim, width) <==> StandsForBit(names, k, width)
    {
      FreeTextReadsBack(names, k, delim, width);
    }
    if GoodNames(names, width) {
      forall k: nat | k < width
        ensures StandsForBit(names, k, width)
      {
        GoodNamesStand(names, width, k);
      }
    }
    if forall k: nat :: k < width ==> BitReadsBack(names, k, delim, width) {
      StandingNamesAreGood(names, width);
    }
  }

  /** The single name `a|b` is good but does not read back: its pieces `a` and `b` are unknown. */
  lemma NameWithDelimiterFails()
    ensures GoodNames(["a|b"], 1) && !RoundTrips(["a|b"], 1, '|', 1)
  {
    var names := ["a|b"];
    assert "a|b" == "a" + ['|'] + "b";
    SplitConcat("a", "b", '|');
    SplitAt("a", "", '|');
    SplitAt("b", "", '|');
    assert !IsDigit("a"[0], false);
    assert Split("a|b", '|')[0] == "a";
    assert !Accepted(names, 1, "a");
    SingleBit(names, 0, '|', 1);
  }

  /** The single name `1|1` reads back by chance: both its pieces are the number of its bit. */
  lemma NameWithDelimiterCanReadBack()
    ensures BitReadsBack(["1|1"], 0, '|', 1)
  {
    var names := ["1|1"];
    assert "1|1" == "1" + ['|'] + "1";
    SplitConcat("1", "1", '|');
    SplitAt("1", "", '|');
    assert Decimal(1) == "1";
    DecimalRoundTrip(1, 1);
    assert "1" != "1|1";
    assert IndexOf(names, "1") == 1;
    assert Contribution(names, 1, "1") == 1;
    assert ["1", "1"][..1] == ["1"] && ["1"][..0] == [];
    assert OrOf(names, 1, ["1"]) == 1;
    assert OrOf(names, 1, ["1", "1"]) == Or(1, 1) == 1;
  }
}
