/** Which error a malformed line is rejected with, in terms of how the line is written. */
module WrittenErrors {
  import opened Wrappers
  import opened IniText
  import opened IniEscape
  import opened IniTokenizer
  import opened IniStatement
  import opened WrittenForm
  import opened WrittenRows

  /** The tokens one by one. */
  lemma RowAt(r: Tokens, head: Token, row: seq<Piece>)
    requires HeadAndRow(r, head, row)
    ensures |r.value| == 1 + |row| && r.value[0] == head
    ensures forall i :: 0 <= i < |row| ==> PieceShown(r.value[i + 1], row[i])
  {
    forall i | 0 <= i < |row|
      ensures PieceShown(r.value[i + 1], row[i])
    {
      assert r.value[1..][i] == r.value[i + 1];
    }
  }

  // ---- entries ----

  /** The errors of lines that start with a key. */
  lemma EntryRejects(line: string, indent: string, key: Word, row: seq<Piece>, after: string, comment: string)
    requires IsRow(line, indent, Written(key), row, after, comment)
    requires key.Bare? ==> PlainKey(key.text) && (row != [] && row[0].gap == "" ==> row[0].Equals?)
    ensures !KeyOk(key) ==> StatementOf(line) == Reject(EmptyKey)
    ensures KeyOk(key) && row == [] ==> StatementOf(line) == Reject(MissingValue)
    ensures KeyOk(key) && row != [] && row[0].Behind? ==> StatementOf(line) == Reject(Unexpected)
    ensures KeyOk(key) && |row| >= 2 && row[0].Equals? && row[1].Equals? ==> StatementOf(line) == Reject(UnexpectedAfterEquals)
    ensures KeyOk(key) && |row| >= 3 && row[0].Equals? && row[1].Behind? ==> StatementOf(line) == Reject(UnexpectedAfterQuoted)
  {
    if |row| >= 3 && row[1].Behind? {
      QuotedBeforeMore(line, indent, Written(key), row, after, comment);
    }
    hide Visible, StatementOf, Interpret, IsRow, RowText, PlainKey, Written, KeyOk;
    var t := KeyRow(line, indent, key, row, after, comment);
    VisibleMeans(line);
    var ts := Visible(line, 0, true).value;
    RowAt(Visible(line, 0, true), t, row);
    EntryRejected(ts, key, row);
  }

  lemma QuotedBeforeMore(line: string, indent: string, head: string, row: seq<Piece>, after: string, comment: string)
    requires IsRow(line, indent, head, row, after, comment) && |row| >= 3 && row[1].Behind?
    ensures row[1].word.InQuotes?
  {
    assert PieceOk(row[1], false);
  }

  lemma EntryRejected(ts: seq<Token>, key: Word, row: seq<Piece>)
    requires Unescapable(ts) && |ts| == 1 + |row| && Shows(ts[0], key) && (key.Bare? ==> PlainKey(key.text))
    requires forall i :: 0 <= i < |row| ==> PieceShown(ts[i + 1], row[i])
    requires |row| >= 3 && row[1].Behind? ==> row[1].word.InQuotes?
    ensures !KeyOk(key) ==> Interpret(ts) == Reject(EmptyKey)
    ensures KeyOk(key) && row == [] ==> Interpret(ts) == Reject(MissingValue)
    ensures KeyOk(key) && row != [] && row[0].Behind? ==> Interpret(ts) == Reject(Unexpected)
    ensures KeyOk(key) && |row| >= 2 && row[0].Equals? && row[1].Equals? ==> Interpret(ts) == Reject(UnexpectedAfterEquals)
    ensures KeyOk(key) && |row| >= 3 && row[0].Equals? && row[1].Behind? ==> Interpret(ts) == Reject(UnexpectedAfterQuoted)
  {
    KeyKind(ts[0], key);
    if KeyOk(key) {
      KeyMeans(ts[0], key);
    } else {
      BlankKeyMeans(ts[0], key);
    }
    hide Shows, KeyOf, KeyOk, PlainKey, Trim, Unescape, NoDangling, Unescapable;
    assert row != [] ==> PieceShown(ts[1], row[0]);
    assert |row| >= 2 ==> PieceShown(ts[2], row[1]);
    assert Interpret(ts) == EntryStatement(ts);
    hide Interpret;
    if row != [] && row[0].Behind? {
      KeyKind(ts[1], row[0].word);
    }
    if |row| >= 3 && row[1].Behind? {
      QuotedKind(ts[2], row[1].word);
    }
  }

  lemma BlankKeyMeans(t: Token, key: Word)
    requires Shows(t, key) && !KeyOk(key) && (key.Bare? ==> PlainKey(key.text))
    ensures (t.kind == '"' ==> NoDangling(t.text)) && KeyOf(t) == Err(EmptyKey)
  {
    UnescapeEscape(key.text);
  }

  lemma QuotedKind(t: Token, w: Word)
    requires Shows(t, w) && w.InQuotes?
    ensures t.kind == '"'
  {
  }

  /** A line must not start with an equals sign. */
  lemma StartsWithEquals(line: string, indent: string, row: seq<Piece>, after: string, comment: string)
    requires IsRow(line, indent, "=", row, after, comment)
    ensures StatementOf(line) == Reject(UnexpectedAtStart)
  {
    hide Visible, StatementOf, IsRow, RowText, RowOk, RowShown;
    var k := |indent|;
    RowLayout(line, indent, "=", row, after, comment);
    EqualsHere(line, k);
    hide Reads, TailFrom;
    VisibleStep(line, 0, k, true);
    HeadThenRow(line, Token('=', k, "="), k + 1, row, k + 1 + |RowText(row)| + |after|);
    VisibleMeans(line);
    EqualsRejected(Visible(line, 0, true).value);
  }

  lemma EqualsRejected(ts: seq<Token>)
    requires Unescapable(ts) && ts != [] && ts[0].kind == '='
    ensures Interpret(ts) == Reject(UnexpectedAtStart)
  {
  }

  // ---- include directives ----

  /** The errors of include directives: no name, or more than a name. */
  lemma IncludeRejects(line: string, indent: string, row: seq<Piece>, after: string, comment: string)
    requires IsRow(line, indent, "#include", row, after, comment)
    requires if row != [] then row[0].gap != "" else after == "" ==> comment == ""
    ensures row == [] ==> StatementOf(line) == Reject(FilenameMissing)
    ensures |row| == 1 && row[0].Equals? ==> StatementOf(line) == Reject(FilenameExpected)
    ensures |row| == 1 && row[0].Behind? && Blank(row[0].word.text) ==> StatementOf(line) == Reject(FilenameMissing)
    ensures |row| >= 2 ==> StatementOf(line) == Reject(UnexpectedAfterFilename)
  {
    hide Visible, StatementOf, Interpret, IsRow, RowText, Written, Blank;
    var t := IncludeRow(line, indent, row, after, comment);
    VisibleMeans(line);
    RowAt(Visible(line, 0, true), t, row);
    IncludeRejected(Visible(line, 0, true).value, row);
  }

  lemma IncludeRejected(ts: seq<Token>, row: seq<Piece>)
    requires Unescapable(ts) && |ts| == 1 + |row| && ts[0].kind == 'i'
    requires forall i :: 0 <= i < |row| ==> PieceShown(ts[i + 1], row[i])
    ensures row == [] ==> Interpret(ts) == Reject(FilenameMissing)
    ensures |row| == 1 && row[0].Equals? ==> Interpret(ts) == Reject(FilenameExpected)
    ensures |row| == 1 && row[0].Behind? && Blank(row[0].word.text) ==> Interpret(ts) == Reject(FilenameMissing)
    ensures |row| >= 2 ==> Interpret(ts) == Reject(UnexpectedAfterFilename)
  {
    if |row| == 1 && row[0].Behind? {
      assert PieceShown(ts[1], row[0]);
      ValueMeans(ts[1], row[0].word);
      BlankNameMeans(ts[1], row[0].word);
    }
  }

  lemma BlankNameMeans(t: Token, w: Word)
    requires Shows(t, w)
    ensures Blank(w.text) ==> Trim(if t.kind == 't' then t.text else Unescape(t.text)) == ""
  {
    UnescapeEscape(w.text);
  }

  // ---- sections ----

  /** The errors of lines with brackets. */
  lemma SectionRejects(line: string, indent: string, inner: string, row: seq<Piece>, after: string, comment: string)
    requires IsRow(line, indent, "[" + inner + "]", row, after, comment) && ']' !in inner
    ensures Blank(inner) ==> StatementOf(line) == Reject(EmptySection)
    ensures !Blank(inner) && row != [] ==> StatementOf(line) == Reject(UnexpectedAfterSection)
  {
    hide Visible, StatementOf, Interpret, IsRow, RowText, Blank, Trim;
    var t := TitleRow(line, indent, inner, row, after, comment);
    VisibleMeans(line);
    RowAt(Visible(line, 0, true), t, row);
    SectionRejected(Visible(line, 0, true).value);
  }

  /** The errors of quoted section names: blank ones, and quotes that do not close at the end of the name. */
  lemma SectionNameRejects(line: string, indent: string, inner: string, x: string, more: string, after: string, comment: string)
    requires IsRow(line, indent, "[" + inner + "]", [], after, comment) && ']' !in inner
    ensures Trim(inner) == Quoted(x) && Blank(x) ==> StatementOf(line) == Reject(EmptySection)
    ensures Trim(inner) == "\"" + Escape(x) ==> StatementOf(line) == Reject(InconsistentQuotes)
    ensures Trim(inner) == Quoted(x) + more && more != "" ==> StatementOf(line) == Reject(InconsistentQuotes)
  {
    hide Visible, StatementOf, Interpret, IsRow, RowText, Blank, Trim, Quoted;
    var t := TitleRow(line, indent, inner, [], after, comment);
    VisibleMeans(line);
    RowAt(Visible(line, 0, true), t, []);
    var ts := Visible(line, 0, true).value;
    QuotedSectionRejected(ts, x);
    OpenSectionRejected(ts, x);
    CutSectionRejected(ts, x, more);
  }

  lemma SectionRejected(ts: seq<Token>)
    requires Unescapable(ts) && ts != [] && ts[0].kind == '['
    ensures Blank(ts[0].text) ==> Interpret(ts) == Reject(EmptySection)
    ensures !Blank(ts[0].text) && |ts| > 1 ==> Interpret(ts) == Reject(UnexpectedAfterSection)
  {
  }

  lemma QuotedSectionRejected(ts: seq<Token>, x: string)
    requires Unescapable(ts) && |ts| == 1 && ts[0].kind == '['
    ensures Trim(ts[0].text) == Quoted(x) && Blank(x) ==> Interpret(ts) == Reject(EmptySection)
  {
    QuotedNameChecks(x);
    UnescapeEscape(x);
  }

  lemma OpenSectionRejected(ts: seq<Token>, x: string)
    requires Unescapable(ts) && |ts| == 1 && ts[0].kind == '['
    ensures Trim(ts[0].text) == "\"" + Escape(x) ==> Interpret(ts) == Reject(InconsistentQuotes)
  {
    NoQuoteInEscaped("", x);
    assert "" + Escape(x) == Escape(x);
    var name := "\"" + Escape(x);
    assert name[1..] == Escape(x);
    hide Escape, FindQuoteFrom, Trim, Interpret;
    if Trim(ts[0].text) == name {
      NoQuoteRejected(ts, name);
    }
  }

  lemma NoQuoteRejected(ts: seq<Token>, name: string)
    requires Unescapable(ts) && |ts| == 1 && ts[0].kind == '[' && Trim(ts[0].text) == name
    requires name != "" && name[0] == '"' && FindQuoteFrom(name[1..], 0) == NoQuote
    ensures Interpret(ts) == Reject(InconsistentQuotes)
  {
  }

  lemma CutSectionRejected(ts: seq<Token>, x: string, more: string)
    requires Unescapable(ts) && |ts| == 1 && ts[0].kind == '['
    ensures Trim(ts[0].text) == Quoted(x) + more && more != "" ==> Interpret(ts) == Reject(InconsistentQuotes)
  {
    FindsEndOfEscaped("", x, more);
    assert "" + Escape(x) + "\"" + more == (Quoted(x) + more)[1..];
    hide Escape;
  }

  /** A bracket that is not closed. */
  lemma OpenBracket(line: string, indent: string, text: string)
    requires line == indent + "[" + text && Blank(indent) && ']' !in text
    ensures StatementOf(line) == Reject(UnmatchedBracket)
  {
    var k := |indent|;
    assert line[k] == '[' && forall j :: k + 1 <= j < |line| ==> line[j] == text[j - k - 1];
    assert FindChar(line, k + 1, ']') == |line|;
    assert SpacesIn(line, 0, k);
    hide Visible, FindChar;
    VisibleStep(line, 0, k, true);
    VisibleMeans(line);
  }

  // ---- quotes ----

  /** A quote that opens behind a row, with the text `x` to the end of the line in which the search fails. */
  ghost predicate BadQuoteAt(line: string, g: nat, x: string) {
    g < |line| && line[g] == '"' && line[g + 1..] == x && !FindQuoteFrom(x, 0).At?
  }

  lemma BadQuoteNext(line: string, g: nat, x: string, initial: bool)
    requires BadQuoteAt(line, g, x)
    ensures Next(line, g, initial) == Fail(QuoteProblem(FindQuoteFrom(x, 0)))
  {
    FindQuoteInSuffix(line, g + 1, 0);
  }

  lemma {:induction false} RowThenBadQuote(line: string, p: nat, row: seq<Piece>, g: nat, x: string)
    requires Reads(line, p, RowText(row)) && SpacesIn(line, p + |RowText(row)|, g) && BadQuoteAt(line, g, x)
    requires RowOk(row) && (row != [] && row[|row| - 1].Behind? ==> row[|row| - 1].word.InQuotes?)
    ensures p <= |line| && Visible(line, p, false) == Err(QuoteProblem(FindQuoteFrom(x, 0)))
    decreases |row|
  {
    hide Visible, Reads, SpacesIn, BadQuoteAt, RowText, RowOk, Escape;
    if row == [] {
      InBounds(line, p, g, x);
      BadQuoteNext(line, g, x, false);
      VisibleStep(line, p, g, false);
    } else {
      var y, h, n := row[0], p + |row[0].gap|, p + |PieceText(row[0])|;
      FirstOk(row);
      PieceLayout(line, p, row);
      RowThenBadQuote(line, n, row[1..], g, x);
      if y.Equals? {
        EqualsHere(line, h);
        EqualsToken(line, p, h);
      } else {
        QuotedToken(line, p, h, y.word.text, false);
      }
    }
  }

  lemma FirstOk(row: seq<Piece>)
    requires row != [] && RowOk(row)
    ensures PieceOk(row[0], |row| == 1)
  {
  }

  lemma InBounds(line: string, p: nat, g: nat, x: string)
    requires SpacesIn(line, p + |RowText([])|, g) && BadQuoteAt(line, g, x)
    ensures SpacesIn(line, p, g) && p <= g < |line| && line[g] == '"'
  {
  }

  /** `line` ends in a quote that opens behind `text` and in which the search fails. */
  predicate OpensBadly(line: string, indent: string, head: string, text: string, gap: string, x: string) {
    && line == indent + head + text + gap + ("\"" + x)
    && Blank(indent) && Blank(gap) && !FindQuoteFrom(x, 0).At?
  }

  /** Bad quoting is reported before anything else on the line, whatever stands before it. */
  lemma BadQuoteBehindKey(line: string, indent: string, key: Word, row: seq<Piece>, gap: string, x: string)
    requires OpensBadly(line, indent, Written(key), RowText(row), gap, x) && RowOk(row)
    requires row != [] && row[|row| - 1].Behind? ==> row[|row| - 1].word.InQuotes?
    requires key.Bare? ==> PlainKey(key.text) && row != [] && (row[0].gap == "" ==> row[0].Equals?)
    ensures StatementOf(line) == Reject(QuoteProblem(FindQuoteFrom(x, 0)))
  {
    hide StatementOf, RowOk, RowText, PlainKey, Written, OpensBadly, Reads, SpacesIn, BadQuoteAt;
    var k := |indent|;
    var p := k + |Written(key)|;
    QuoteLayout(line, indent, Written(key), RowText(row), gap, x);
    BadQuoteLine(line, k, key, row, p + |RowText(row)| + |gap|, x);
  }

  lemma BadQuoteLine(line: string, k: nat, key: Word, row: seq<Piece>, g: nat, x: string)
    requires SpacesIn(line, 0, k) && Reads(line, k, Written(key)) && Reads(line, k + |Written(key)|, RowText(row))
    requires RowOk(row) && SpacesIn(line, k + |Written(key)| + |RowText(row)|, g) && BadQuoteAt(line, g, x)
    requires row != [] && row[|row| - 1].Behind? ==> row[|row| - 1].word.InQuotes?
    requires key.Bare? ==> PlainKey(key.text) && row != [] && (row[0].gap == "" ==> row[0].Equals?)
    ensures StatementOf(line) == Reject(QuoteProblem(FindQuoteFrom(x, 0)))
  {
    hide Visible, StatementOf, RowOk, RowText, PlainKey, Reads, SpacesIn, BadQuoteAt;
    var p := k + |Written(key)|;
    if key.Bare? {
      KeyIsCutHere(line, p, row);
    }
    RowThenBadQuote(line, p, row, g, x);
    var t := KeyToken(line, k, key);
    VisibleMeans(line);
  }

  lemma QuoteLayout(line: string, indent: string, head: string, text: string, gap: string, x: string)
    requires OpensBadly(line, indent, head, text, gap, x)
    ensures var n := |indent| + |head| + |text|;
            && SpacesIn(line, 0, |indent|) && Reads(line, |indent|, head) && Reads(line, |indent| + |head|, text)
            && SpacesIn(line, n, n + |gap|) && BadQuoteAt(line, n + |gap|, x)
  {
  }

  lemma KeyIsCutHere(line: string, p: nat, row: seq<Piece>)
    requires RowOk(row) && Reads(line, p, RowText(row)) && row != [] && (row[0].gap == "" ==> row[0].Equals?)
    ensures p < |line| ==> IsDelimiter(line[p], true)
  {
    PieceLayout(line, p, row);
    if row[0].gap == "" {
      EqualsHere(line, p);
    }
  }

  /** The same for a quote that opens the line. */
  lemma BadQuoteFirst(line: string, indent: string, x: string)
    requires line == indent + ("\"" + x) && Blank(indent) && !FindQuoteFrom(x, 0).At?
    ensures StatementOf(line) == Reject(QuoteProblem(FindQuoteFrom(x, 0)))
  {
    var k := |indent|;
    assert SpacesIn(line, 0, k) && BadQuoteAt(line, k, x);
    hide Visible;
    BadQuoteNext(line, k, x, true);
    VisibleStep(line, 0, k, true);
    VisibleMeans(line);
  }
}
