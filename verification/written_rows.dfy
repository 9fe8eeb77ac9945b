/** What is written in a line's form is read as that: from the form to the tokens and on to the statement. */
module WrittenRows {
  import opened Wrappers
  import opened IniText
  import opened IniEscape
  import opened IniTokenizer
  import opened IniStatement
  import opened WrittenForm

  lemma TailTokens(line: string, p: nat, first: nat)
    requires TailFrom(line, p, first)
    ensures Visible(line, p, false) == Ok([])
  {
    VisibleStep(line, p, first, false);
  }

  lemma QuoteAt(s: string, p: nat, x: string)
    requires Reads(s, p, Escape(x)) && p + |Escape(x)| < |s| && s[p + |Escape(x)|] == '"'
    ensures FindQuoteFrom(s, p) == At(p + |Escape(x)|)
  {
    var end := p + |Escape(x)|;
    hide Escape, FindQuoteFrom;
    ReadsSlice(s, p, Escape(x));
    FindsEndOfEscaped(s[..p], x, s[end + 1..]);
    assert s == s[..p] + Escape(x) + "\"" + s[end + 1..];
  }

  lemma NextQuotedIs(line: string, k: nat, initial: bool)
    requires k < |line| && line[k] == '"' && FindQuoteFrom(line, k + 1).At?
    ensures var pos := FindQuoteFrom(line, k + 1).pos;
            Next(line, k, initial) == More(Token('"', k + 1, line[k + 1..pos]), pos + 1)
  {
  }

  lemma QuotedToken(line: string, p: nat, k: nat, x: string, initial: bool)
    requires SpacesIn(line, p, k) && Reads(line, k, Quoted(x))
    ensures Visible(line, p, initial) == Cons(Token('"', k + 1, Escape(x)), Visible(line, k + |Quoted(x)|, false))
  {
    hide Visible, Next, Escape;
    hide Visible, Next, Escape, Unescape;
    QuotedParts(line, k, x);
    QuoteAt(line, k + 1, x);
    ReadsSlice(line, k + 1, Escape(x));
    hide Reads, Quoted;
    NextQuotedIs(line, k, initial);
    VisibleStep(line, p, k, initial);
  }

  lemma QuotedParts(line: string, k: nat, x: string)
    requires Reads(line, k, Quoted(x))
    ensures var n := |Escape(x)|;
            && |Quoted(x)| == n + 2 && k + 1 + n < |line|
            && line[k] == '"' && Reads(line, k + 1, Escape(x)) && line[k + 1 + n] == '"'
  {
    hide Escape;
    var q := Quoted(x);
    assert line[k + 0] == q[0] && line[k + (|q| - 1)] == q[|q| - 1];
    forall j | 0 <= j < |Escape(x)|
      ensures line[k + 1 + j] == Escape(x)[j]
    {
      assert line[k + (1 + j)] == q[1 + j];
    }
  }

  /** An unquoted word that is not the first of the line, from `k` on, with the tail behind it at `q`. */
  lemma TextToken(line: string, p: nat, k: nat, x: string, first: nat)
    requires SpacesIn(line, p, k) && Reads(line, k, x)
    requires x != "" && FreeText(x) && TailFrom(line, k + |x|, first)
    ensures var r := Visible(line, p, false); r.Ok? && |r.value| == 1 && Shows(r.value[0], Bare(x))
  {
    TextNext(line, k, x, first);
    hide Visible, Next, FreeText, Reads;
    VisibleStep(line, p, k, false);
    if first < |line| {
      TailTokens(line, first, first);
    }
  }

  lemma TextNext(line: string, k: nat, x: string, first: nat)
    requires Reads(line, k, x) && x != "" && FreeText(x) && TailFrom(line, k + |x|, first)
    ensures k < first <= |line| && !IsSpace(line[k])
    ensures var t := Token('t', k, line[k..first]);
            Shows(t, Bare(x)) && Next(line, k, false) == if first == |line| then Last(t) else More(t, first)
  {
    assert line[k + 0] == x[0] && line[k + (|x| - 1)] == x[|x| - 1];
    forall j | k <= j < first
      ensures !IsComment(line[j])
    {
      if j < k + |x| {
        assert line[k + (j - k)] == x[j - k];
      }
    }
    assert FindDelimiter(line, k + 1, false) == first;
    hide Next, FindDelimiter;
    NextText(line, k, false);
    TextShows(line, k, x, first);
    assert first == |line| ==> line[k..] == line[k..first];
  }

  lemma TextShows(line: string, k: nat, x: string, first: nat)
    requires Reads(line, k, x) && x != "" && Tight(x) && SpacesIn(line, k + |x|, first)
    ensures Trim(line[k..first]) == x
  {
    var text := line[k..first];
    assert text[0..|x|] == x;
    assert text[0] == x[0] && text[|x| - 1] == x[|x| - 1];
    assert forall j :: |x| <= j < |text| ==> text[j] == line[k + j];
    TrimIs(text, 0, |x|);
  }

  lemma EqualsToken(line: string, p: nat, e: nat)
    requires SpacesIn(line, p, e) && e < |line| && line[e] == '='
    ensures Visible(line, p, false) == Cons(Token('=', e, "="), Visible(line, e + 1, false))
  {
    VisibleStep(line, p, e, false);
  }

  /** The first word of an entry, which a space, an equals sign, a comment or the end of the line must follow. */
  lemma KeyToken(line: string, k: nat, w: Word) returns (t: Token)
    requires SpacesIn(line, 0, k) && Reads(line, k, Written(w))
    requires if w.Bare? then PlainKey(w.text) && (k + |w.text| < |line| ==> IsDelimiter(line[k + |w.text|], true)) else true
    ensures Shows(t, w) && Visible(line, 0, true) == Cons(t, Visible(line, k + |Written(w)|, false))
  {
    hide Visible;
    if w.Bare? {
      t := BareKeyToken(line, k, w.text);
    } else {
      QuotedToken(line, 0, k, w.text, true);
      t := Token('"', k + 1, Escape(w.text));
    }
  }

  lemma BareKeyNext(line: string, k: nat, x: string)
    requires Reads(line, k, x) && PlainKey(x) && (k + |x| < |line| ==> IsDelimiter(line[k + |x|], true))
    ensures !IsSpace(line[k]) && line[k..k + |x|] == x
    ensures var q, t := k + |x|, Token('t', k, x);
            Next(line, k, true) == if q == |line| then Last(t) else More(t, if IsSpace(line[q]) then q + 1 else q)
  {
    hide Next;
    assert line[k] == x[0];
    ReadsSlice(line, k, x);
    forall j | k + 1 <= j < k + |x|
      ensures !IsDelimiter(line[j], true)
    {
      assert line[j] == x[j - k];
    }
    assert FindDelimiter(line, k + 1, true) == k + |x|;
    NextText(line, k, true);
  }

  lemma BareKeyToken(line: string, k: nat, x: string) returns (t: Token)
    requires SpacesIn(line, 0, k) && Reads(line, k, x)
    requires PlainKey(x) && (k + |x| < |line| ==> IsDelimiter(line[k + |x|], true))
    ensures Shows(t, Bare(x)) && Visible(line, 0, true) == Cons(t, Visible(line, k + |x|, false))
  {
    var q := k + |x|;
    t := Token('t', k, x);
    BareKeyNext(line, k, x);
    TrimTight(x);
    KeyStep(line, k, q, t);
  }

  lemma KeyStep(line: string, k: nat, q: nat, t: Token)
    requires SpacesIn(line, 0, k) && k < q <= |line| && !IsSpace(line[k]) && t.kind == 't'
    requires Next(line, k, true) == if q == |line| then Last(t) else More(t, if IsSpace(line[q]) then q + 1 else q)
    ensures Visible(line, 0, true) == Cons(t, Visible(line, q, false))
  {
    hide Visible, Next;
    VisibleStep(line, 0, k, true);
    if q == |line| {
      VisibleStep(line, q, q, false);
      assert [t] + [] == [t];
    } else if IsSpace(line[q]) {
      VisibleAfterSpace(line, q);
    }
  }

  lemma IncludeToken(line: string, k: nat)
    requires SpacesIn(line, 0, k) && Reads(line, k, "#include")
    requires k + 8 < |line| ==> IsSpace(line[k + 8])
    ensures Visible(line, 0, true) == Cons(Token('i', k + 1, INCLUDE), Visible(line, k + 8, false))
  {
    hide Visible;
    assert line[k] == "#include"[0] == '#';
    assert line[k + 1..k + 8] == INCLUDE by {
      assert forall j :: 0 <= j < 7 ==> line[k + 1 + j] == "#include"[1 + j] == INCLUDE[j];
    }
    VisibleStep(line, 0, k, true);
  }

  lemma FindCharAt(s: string, p: nat, part: string, c: char)
    requires Reads(s, p, part) && c !in part && p + |part| < |s| && s[p + |part|] == c
    ensures FindChar(s, p, c) == p + |part|
  {
    assert forall j :: p <= j < p + |part| ==> s[j] == part[j - p];
  }

  lemma TitleToken(line: string, k: nat, inner: string)
    requires SpacesIn(line, 0, k)
    requires k < |line| && line[k] == '[' && Reads(line, k + 1, inner) && ']' !in inner
    requires k + 1 + |inner| < |line| && line[k + 1 + |inner|] == ']'
    ensures Visible(line, 0, true) == Cons(Token('[', k + 1, inner), Visible(line, k + 2 + |inner|, false))
  {
    hide Visible;
    ReadsSlice(line, k + 1, inner);
    FindCharAt(line, k + 1, inner, ']');
    VisibleStep(line, 0, k, true);
  }

  // ---- rows ----

  lemma PieceLayout(line: string, p: nat, row: seq<Piece>)
    requires row != [] && RowOk(row) && Reads(line, p, RowText(row))
    ensures var x, g := row[0], p + |row[0].gap|;
            && SpacesIn(line, p, g) && Reads(line, g, PieceWord(x))
            && RowOk(row[1..]) && Reads(line, p + |PieceText(x)|, RowText(row[1..]))
            && p + |RowText(row)| == p + |PieceText(x)| + |RowText(row[1..])|
            && p + |PieceText(x)| <= |line|
  {
    hide PieceWord, RowText, PieceText, Reads;
    var x := row[0];
    assert PieceOk(x, |row| == 1);
    RowOkTail(row);
    RowTextCons(row);
    TextLayout(line, p, x.gap, PieceWord(x), RowText(row[1..]));
    InLine(line, p, RowText(row));
  }

  lemma InLine(line: string, p: nat, part: string)
    requires Reads(line, p, part)
    ensures p + |part| <= |line|
  {
  }

  lemma RowTextCons(row: seq<Piece>)
    requires row != []
    ensures var x, rest := row[0], RowText(row[1..]);
            && RowText(row) == x.gap + PieceWord(x) + rest
            && |PieceText(x)| == |x.gap| + |PieceWord(x)|
  {
    hide PieceWord;
  }

  lemma EqualsHere(line: string, g: nat)
    requires Reads(line, g, "=")
    ensures g < |line| && line[g] == '='
  {
    assert line[g + 0] == "="[0];
  }

  lemma RowOkTail(row: seq<Piece>)
    requires row != [] && RowOk(row)
    ensures RowOk(row[1..])
  {
    forall i | 0 <= i < |row[1..]|
      ensures PieceOk(row[1..][i], i == |row[1..]| - 1)
    {
      assert PieceOk(row[i + 1], i + 1 == |row| - 1);
    }
  }

  lemma TextLayout(line: string, p: nat, gap: string, word: string, rest: string)
    requires Blank(gap) && Reads(line, p, gap + word + rest)
    ensures SpacesIn(line, p, p + |gap|) && Reads(line, p + |gap|, word) && Reads(line, p + |gap| + |word|, rest)
  {
    var all := gap + word + rest;
    forall j | p <= j < p + |gap|
      ensures IsSpace(line[j])
    {
      assert line[p + (j - p)] == all[j - p] == gap[j - p];
    }
    forall j | 0 <= j < |word|
      ensures line[p + |gap| + j] == word[j]
    {
      assert line[p + (|gap| + j)] == all[|gap| + j] == word[j];
    }
    forall j | 0 <= j < |rest|
      ensures line[p + |gap| + |word| + j] == rest[j]
    {
      assert line[p + (|gap| + |word| + j)] == all[|gap| + |word| + j] == rest[j];
    }
  }

  lemma RowCons(whole: Tokens, t: Token, rest: Tokens, row: seq<Piece>)
    requires whole == Cons(t, rest) && row != [] && PieceShown(t, row[0])
    requires rest.Ok? && RowShown(rest.value, row[1..])
    ensures whole.Ok? && RowShown(whole.value, row)
  {
    forall i | 0 <= i < |row|
      ensures PieceShown(whole.value[i], row[i])
    {
      assert i > 0 ==> PieceShown(rest.value[i - 1], row[1..][i - 1]);
    }
  }

  /** A row of words and equals signs is read as just these tokens. */
  lemma {:induction false} RowTokens(line: string, p: nat, row: seq<Piece>, first: nat)
    requires RowOk(row) && Reads(line, p, RowText(row)) && TailFrom(line, p + |RowText(row)|, first)
    ensures Visible(line, p, false).Ok? && RowShown(Visible(line, p, false).value, row)
    decreases |row|
  {
    hide Visible, Reads, TailFrom, SpacesIn;
    if row == [] {
      TailTokens(line, p, first);
    } else {
      var x, g, n := row[0], p + |row[0].gap|, p + |PieceText(row[0])|;
      assert PieceOk(x, |row| == 1);
      PieceLayout(line, p, row);
      if x.Equals? {
        EqualsHere(line, g);
        EqualsToken(line, p, g);
        RowTokens(line, n, row[1..], first);
        RowCons(Visible(line, p, false), Token('=', g, "="), Visible(line, n, false), row);
      } else if x.word.InQuotes? {
        QuotedToken(line, p, g, x.word.text, false);
        RowTokens(line, n, row[1..], first);
        RowCons(Visible(line, p, false), Token('"', g + 1, Escape(x.word.text)), Visible(line, n, false), row);
      } else {
        TextToken(line, p, g, x.word.text, first);
      }
    }
  }

  // ---- whole lines ----

  /** `line` is spaces, a head, a row and a tail. */
  ghost predicate IsRow(line: string, indent: string, head: string, row: seq<Piece>, after: string, comment: string) {
    && line == indent + head + RowText(row) + after + comment
    && Blank(indent) && RowOk(row) && IsTail(after, comment)
  }

  lemma RowLayout(line: string, indent: string, head: string, row: seq<Piece>, after: string, comment: string)
    requires IsRow(line, indent, head, row, after, comment)
    ensures var k := |indent|;
            var p := k + |head|;
            var n := p + |RowText(row)|;
            && SpacesIn(line, 0, k) && Reads(line, k, head) && RowOk(row) && Reads(line, p, RowText(row))
            && TailFrom(line, n, n + |after|)
  {
    hide RowText, RowOk;
    var b, rest := RowText(row), after + comment;
    TailAt(line, indent + head + b, after, comment);
    LayoutOfThree(line, indent, head, b, rest);
    assert forall j :: 0 <= j < |indent| ==> line[0 + j] == indent[j];
  }

  lemma LayoutOfThree(line: string, a: string, b: string, c: string, rest: string)
    requires line == a + b + c + rest
    ensures Reads(line, 0, a) && Reads(line, |a|, b) && Reads(line, |a| + |b|, c)
  {
  }

  /** What the parts of a line are at, when its parts are put behind one another. */
  lemma TailAt(line: string, head: string, after: string, comment: string)
    requires line == head + after + comment && IsTail(after, comment)
    ensures TailFrom(line, |head|, |head| + |after|)
  {
    var n := |head| + |after|;
    forall j | |head| <= j < n
      ensures IsSpace(line[j])
    {
      assert line[j] == after[j - |head|];
    }
    if n < |line| {
      assert line[n] == comment[0];
    }
  }


  lemma HeadThenRow(line: string, t: Token, p: nat, row: seq<Piece>, first: nat)
    requires RowOk(row) && Reads(line, p, RowText(row)) && TailFrom(line, p + |RowText(row)|, first)
    requires p <= |line| && Visible(line, 0, true) == Cons(t, Visible(line, p, false))
    ensures HeadAndRow(Visible(line, 0, true), t, row)
  {
    hide Visible, RowOk, Reads, TailFrom, RowText, RowShown;
    RowTokens(line, p, row, first);
    var rest := Visible(line, p, false).value;
    assert ([t] + rest)[1..] == rest;
  }

  /** A key and what follows it. */
  lemma KeyRow(line: string, indent: string, key: Word, row: seq<Piece>, after: string, comment: string) returns (t: Token)
    requires IsRow(line, indent, Written(key), row, after, comment)
    requires key.Bare? ==> PlainKey(key.text) && (row != [] && row[0].gap == "" ==> row[0].Equals?)
    ensures Shows(t, key) && HeadAndRow(Visible(line, 0, true), t, row)
  {
    hide Visible, IsRow, RowOk, RowText, RowShown, PlainKey;
    var k := |indent|;
    var p := k + |Written(key)|;
    var first := p + |RowText(row)| + |after|;
    RowLayout(line, indent, Written(key), row, after, comment);
    hide Reads, TailFrom, SpacesIn;
    if key.Bare? {
      KeyIsCut(line, p, row, first);
    }
    t := KeyToken(line, k, key);
    HeadThenRow(line, t, p, row, first);
  }

  /** What follows an unquoted key ends it. */
  lemma KeyIsCut(line: string, p: nat, row: seq<Piece>, first: nat)
    requires RowOk(row) && Reads(line, p, RowText(row)) && TailFrom(line, p + |RowText(row)|, first)
    requires row != [] && row[0].gap == "" ==> row[0].Equals?
    ensures p < |line| ==> IsDelimiter(line[p], true)
  {
    if row != [] {
      PieceLayout(line, p, row);
      if row[0].gap == "" {
        EqualsHere(line, p);
      }
    }
  }

  lemma IncludeRow(line: string, indent: string, row: seq<Piece>, after: string, comment: string) returns (t: Token)
    requires IsRow(line, indent, "#include", row, after, comment)
    requires if row != [] then row[0].gap != "" else after == "" ==> comment == ""
    ensures t.kind == 'i' && HeadAndRow(Visible(line, 0, true), t, row)
  {
    hide Visible, RowOk, RowText, RowShown;
    var k := |indent|;
    var first := k + 8 + |RowText(row)| + |after|;
    RowLayout(line, indent, "#include", row, after, comment);
    SpaceBehindInclude(line, k + 8, row, after, comment, first);
    hide IsRow, Reads, TailFrom, SpacesIn;
    IncludeToken(line, k);
    t := Token('i', k + 1, INCLUDE);
    HeadThenRow(line, t, k + 8, row, first);
  }

  lemma SpaceBehindInclude(line: string, p: nat, row: seq<Piece>, after: string, comment: string, first: nat)
    requires RowOk(row) && Reads(line, p, RowText(row)) && TailFrom(line, p + |RowText(row)|, first)
    requires first == p + |RowText(row)| + |after| && |line| == first + |comment|
    requires if row != [] then row[0].gap != "" else after == "" ==> comment == ""
    ensures p < |line| ==> IsSpace(line[p])
  {
    if row != [] {
      PieceLayout(line, p, row);
    }
  }

  lemma TitleRow(line: string, indent: string, inner: string, row: seq<Piece>, after: string, comment: string) returns (t: Token)
    requires IsRow(line, indent, "[" + inner + "]", row, after, comment) && ']' !in inner
    ensures t.kind == '[' && t.text == inner && HeadAndRow(Visible(line, 0, true), t, row)
  {
    hide Visible, IsRow, RowOk, RowText, RowShown;
    var k := |indent|;
    var p := k + 2 + |inner|;
    RowLayout(line, indent, "[" + inner + "]", row, after, comment);
    BracketLayout(line, k, inner);
    hide Reads, TailFrom, SpacesIn;
    TitleToken(line, k, inner);
    t := Token('[', k + 1, inner);
    HeadThenRow(line, t, p, row, p + |RowText(row)| + |after|);
  }

  lemma BracketLayout(line: string, k: nat, inner: string)
    requires Reads(line, k, "[" + inner + "]")
    ensures line[k] == '[' && Reads(line, k + 1, inner) && k + 1 + |inner| < |line| && line[k + 1 + |inner|] == ']'
  {
    var text := "[" + inner + "]";
    assert line[k + 0] == text[0] && line[k + (1 + |inner|)] == text[1 + |inner|];
    forall j | 0 <= j < |inner|
      ensures line[k + 1 + j] == inner[j]
    {
      assert line[k + (1 + j)] == text[1 + j];
    }
  }

  // ---- from the form to the statement ----

  lemma KeyMeans(t: Token, key: Word)
    requires KeyOk(key) && Shows(t, key)
    ensures (t.kind == '"' ==> NoDangling(t.text)) && KeyOf(t) == Ok(key.text)
  {
    UnescapeEscape(key.text);
  }

  lemma ValueMeans(t: Token, value: Word)
    requires Shows(t, value)
    ensures (t.kind == 't' || t.kind == '"') && (t.kind == '"' ==> NoDangling(t.text))
    ensures (if t.kind == 't' then Trim(t.text) else Unescape(t.text)) == value.text
  {
    UnescapeEscape(value.text);
  }

  lemma KeyKind(t: Token, key: Word)
    requires Shows(t, key)
    ensures t.kind == 't' || t.kind == '"'
  {
  }

  lemma SettingMeans(ts: seq<Token>, key: Word, value: Word)
    requires KeyOk(key) && ValueOk(value) && Unescapable(ts)
    requires |ts| >= 2 && Shows(ts[0], key) && ts[1].kind == '='
    requires if value == Bare("") then |ts| == 2 else |ts| == 3 && Shows(ts[2], value)
    ensures Interpret(ts) == Entry(key.text, value.text)
  {
    KeyMeans(ts[0], key);
    KeyKind(ts[0], key);
    hide Shows, KeyOf, KeyOk, ValueOk, Trim, Unescape, NoDangling, Unescapable;
    assert Interpret(ts) == EntryStatement(ts);
    if |ts| == 3 {
      hide Interpret;
      ValueMeans(ts[2], value);
    }
  }

  lemma DirectiveMeans(ts: seq<Token>, name: Word)
    requires ValueOk(name) && !Blank(name.text) && Unescapable(ts)
    requires |ts| == 2 && ts[0].kind == 'i' && Shows(ts[1], name)
    ensures Interpret(ts) == Include(Trim(name.text))
  {
    ValueMeans(ts[1], name);
    if name.Bare? {
      TrimTight(name.text);
    }
  }

  lemma NameTrimmed(before: string, name: Word, behind: string)
    requires Blank(before) && NameOk(name) && Blank(behind)
    ensures Trim(before + Written(name) + behind) == Written(name) != ""
  {
    var s, w := before + Written(name) + behind, Written(name);
    assert w != "" && !IsSpace(w[0]) && !IsSpace(w[|w| - 1]);
    assert s[|before|..|before| + |w|] == w;
    assert s[|before|] == w[0] && s[|before| + |w| - 1] == w[|w| - 1];
    TrimIs(s, |before|, |before| + |w|);
  }

  lemma BareTitleMeans(ts: seq<Token>, name: string)
    requires |ts| == 1 && ts[0].kind == '[' && Trim(ts[0].text) == name && name != "" && name[0] != '"'
    ensures Unescapable(ts) && Interpret(ts) == Section(WithDot(name))
  {
  }

  lemma QuotedLayout(name: string)
    ensures var q := Quoted(name);
            && |q| == |Escape(name)| + 2 && q[0] == '"' && q[|q| - 1] == '"'
            && q[1..] == Escape(name) + "\""
            && q[1..|q| - 1] == Escape(name)
  {
  }

  lemma EndOfEscaped(name: string)
    ensures FindQuoteFrom(Escape(name) + "\"", 0) == At(|Escape(name)|)
  {
    FindsEndOfEscaped("", name, "");
    assert "" + Escape(name) + "\"" + "" == Escape(name) + "\"";
  }

  lemma QuotedNameChecks(name: string)
    ensures var q := Quoted(name);
            && Trim(q) == q && q[0] == '"'
            && FindQuoteFrom(q[1..], 0) == At(|q| - 2)
            && q[1..|q| - 1] == Escape(name)
  {
    QuotedLayout(name);
    TrimTight(Quoted(name));
    EndOfEscaped(name);
  }

  lemma QuotedTitleMeans(ts: seq<Token>, name: string)
    requires |ts| == 1 && ts[0].kind == '[' && Trim(ts[0].text) == Quoted(name) && !Blank(name)
    ensures Unescapable(ts) && Interpret(ts) == Section(WithDot(name))
  {
    QuotedNameChecks(name);
    UnescapeEscape(name);
    SectionNameUnescapable(Quoted(name));
    assert Unquote(Escape(name)) == name;
  }

  lemma TitleMeans(ts: seq<Token>, before: string, name: Word, behind: string)
    requires Blank(before) && NameOk(name) && Blank(behind)
    requires |ts| == 1 && ts[0].kind == '[' && ts[0].text == before + Written(name) + behind
    ensures Unescapable(ts) && Interpret(ts) == Section(WithDot(name.text))
  {
    NameTrimmed(before, name, behind);
    if name.Bare? {
      BareTitleMeans(ts, name.text);
    } else {
      QuotedTitleMeans(ts, name.text);
    }
  }


  lemma TitleRead(line: string, indent: string, form: Form, after: string, comment: string)
    requires form.Title? && IsLine(line, indent, form, after, comment)
    ensures StatementOf(line) == Saying(form)
  {
    var Title(before, name, behind) := form;
    var inner := before + Written(name) + behind;
    TitleText(line, indent, form, after, comment);
    hide Visible, StatementOf, IsLine, IsRow, Interpret;
    NoBracket(before, Written(name), behind);
    var t := TitleRow(line, indent, inner, [], after, comment);
    VisibleMeans(line);
    TitleMeans(Visible(line, 0, true).value, before, name, behind);
  }

  lemma TitleText(line: string, indent: string, form: Form, after: string, comment: string)
    requires form.Title? && IsLine(line, indent, form, after, comment)
    ensures IsRow(line, indent, "[" + (form.before + Written(form.name) + form.behind) + "]", [], after, comment)
  {
    hide WellFormed, IsTail, Written;
    var inner := form.before + Written(form.name) + form.behind;
    assert Body(form) == "[" + inner + "]";
    assert line == indent + ("[" + inner + "]") + "" + after + comment;
  }

  lemma NoBracket(before: string, name: string, behind: string)
    requires Blank(before) && ']' !in name && Blank(behind)
    ensures ']' !in before + name + behind
  {
  }

  /** A setting without a value is a row of the equals sign alone. */
  function SettingRow(form: Form): seq<Piece>
    requires form.Setting?
  {
    [Equals(form.gap)] + if form.value == Bare("") then [] else [Behind(form.before, form.value)]
  }

  lemma SettingText(line: string, indent: string, form: Form, after: string, comment: string)
    requires form.Setting? && IsLine(line, indent, form, after, comment)
    ensures var extra := if form.value == Bare("") then form.before else "";
            IsRow(line, indent, Written(form.key), SettingRow(form), extra + after, comment)
  {
    var Setting(key, gap, before, value) := form;
    var row := SettingRow(form);
    var w := Written(value);
    assert RowOk(row);
    hide WellFormed, RowOk, Written;
    if value == Bare("") {
      OnePiece(row[0]);
      SevenParts(indent, Written(key), gap, before, "", after, comment);
    } else {
      TwoPieces(row[0], row[1]);
      SevenParts(indent, Written(key), gap, before, w, after, comment);
    }
  }

  lemma OnePiece(x: Piece)
    ensures RowText([x]) == PieceText(x)
  {
    assert [x][1..] == [];
  }

  lemma TwoPieces(x: Piece, y: Piece)
    ensures RowText([x, y]) == PieceText(x) + PieceText(y)
  {
    assert [x, y][1..] == [y];
    OnePiece(y);
  }

  lemma SevenParts(a: string, b: string, c: string, d: string, e: string, f: string, h: string)
    ensures a + (b + c + "=" + d + e) + f + h == a + b + ((c + "=") + (d + e)) + f + h
    ensures e == "" ==> a + (b + c + "=" + d + e) + f + h == a + b + (c + "=") + (d + f) + h
  {
  }

  lemma SettingRead(line: string, indent: string, form: Form, after: string, comment: string)
    requires form.Setting? && IsLine(line, indent, form, after, comment)
    ensures StatementOf(line) == Saying(form)
  {
    var row, extra := SettingRow(form), if form.value == Bare("") then form.before else "";
    SettingText(line, indent, form, after, comment);
    hide Visible, StatementOf, IsRow, Interpret, Body, PlainKey;
    var t := KeyRow(line, indent, form.key, row, extra + after, comment);
    VisibleMeans(line);
    var ts := Visible(line, 0, true).value;
    assert PieceShown(ts[1..][0], row[0]);
    assert |row| > 1 ==> PieceShown(ts[1..][1], row[1]);
    SettingMeans(ts, form.key, form.value);
  }

  lemma DirectiveText(line: string, indent: string, form: Form, after: string, comment: string)
    requires form.Directive? && IsLine(line, indent, form, after, comment)
    ensures IsRow(line, indent, "#include", [Behind(form.gap, form.name)], after, comment)
  {
    var row := [Behind(form.gap, form.name)];
    var w := Written(form.name);
    assert RowOk(row);
    hide RowOk, Written, WellFormed, IsTail;
    OnePiece(row[0]);
    assert indent + ("#include" + form.gap + w) + after + comment == indent + "#include" + (form.gap + w) + after + comment;
  }

  lemma DirectiveRead(line: string, indent: string, form: Form, after: string, comment: string)
    requires form.Directive? && IsLine(line, indent, form, after, comment)
    ensures StatementOf(line) == Saying(form)
  {
    var row := [Behind(form.gap, form.name)];
    DirectiveText(line, indent, form, after, comment);
    hide Visible, StatementOf, IsRow, Interpret, Body;
    var t := IncludeRow(line, indent, row, after, comment);
    VisibleMeans(line);
    var ts := Visible(line, 0, true).value;
    assert PieceShown(ts[1..][0], row[0]);
    DirectiveMeans(ts, form.name);
  }

  lemma IncludeInSuffix(line: string, k: nat)
    requires k <= |line|
    ensures IsInclude(line, k) <==> IsInclude(line[k..], 0)
  {
    if k + 8 <= |line| {
      assert line[k + 1..k + 8] == line[k..][1..8];
    }
  }

  lemma SilentRead(line: string, indent: string, after: string, comment: string)
    requires IsLine(line, indent, Silent, after, comment)
    ensures StatementOf(line) == Nothing
  {
    var k := |indent| + |after|;
    assert line == indent + after + comment && line[k..] == comment;
    TailAt(line, indent, after, comment);
    assert forall j :: 0 <= j < |indent| ==> line[j] == indent[j];
    IncludeInSuffix(line, k);
    VisibleStep(line, 0, k, true);
    VisibleMeans(line);
  }

  /** A line of one of the forms is read as what the form says. */
  lemma FormIsRead(line: string, indent: string, form: Form, after: string, comment: string)
    requires IsLine(line, indent, form, after, comment)
    ensures StatementOf(line) == Saying(form) && !Saying(form).Reject?
  {
    hide IsLine, StatementOf;
    match form
    case Silent => SilentRead(line, indent, after, comment);
    case Title(_, _, _) => TitleRead(line, indent, form, after, comment);
    case Setting(_, _, _, _) => SettingRead(line, indent, form, after, comment);
    case Directive(_, _) => DirectiveRead(line, indent, form, after, comment);
  }

  /** The same for a line that is nothing but the form. */
  lemma BodyIsRead(form: Form)
    requires WellFormed(form, "")
    ensures StatementOf(Body(form)) == Saying(form)
  {
    assert Blank("");
    hide StatementOf, Body, Saying, WellFormed;
    assert Body(form) == "" + Body(form) + "" + "";
    FormIsRead(Body(form), "", form, "", "");
  }

  lemma TitleBody(name: Word)
    ensures Body(Title("", name, "")) == "[" + Written(name) + "]"
  {
    hide Written;
    var w := Written(name);
    assert "[" + "" + w + "" + "]" == "[" + w + "]";
  }
}
