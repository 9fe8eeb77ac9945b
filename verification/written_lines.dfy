/** A line is accepted exactly when it is written in one of the forms: from the tokens back to the form. */
module WrittenLines {
  import opened Wrappers
  import opened IniText
  import opened IniEscape
  import opened IniTokenizer
  import opened IniStatement
  import opened WrittenForm
  import opened WrittenRows

  /** The first character of a token tells its kind. */
  lemma NextKind(s: string, first: nat, initial: bool)
    requires first < |s| && !IsSpace(s[first]) && !Next(s, first, initial).Fail?
    ensures var t := Next(s, first, initial).token;
            && (t.kind == '"' <==> s[first] == '"')
            && (t.kind == '=' <==> s[first] == '=')
            && (t.kind == 'i' <==> initial && IsInclude(s, first))
            && (t.kind == '[' <==> initial && s[first] == '[')
            && (t.kind == 't' <==> StartsText(s[first], initial))
  {
  }

  lemma ConsBack(whole: Tokens, t: Token, rest: Tokens)
    requires whole == Cons(t, rest) && whole.Ok?
    ensures whole.value != [] && whole.value[0] == t && rest == Ok(whole.value[1..])
  {
  }

  /** Where the first token is, and what comes after it. */
  lemma FirstToken(line: string, p: nat, initial: bool) returns (k: nat)
    requires p <= |line| && Visible(line, p, initial).Ok? && Visible(line, p, initial).value != []
    ensures SpacesIn(line, p, k) && k < |line| && !IsSpace(line[k]) && !Next(line, k, initial).Fail?
    ensures var ts, step := Visible(line, p, initial).value, Next(line, k, initial);
            && ts[0] == step.token
            && if step.More? then Visible(line, step.next, false) == Ok(ts[1..]) else |ts| == 1
  {
    k := SkipSpace(line, p);
    hide Visible, Next;
    VisibleStep(line, p, k, initial);
    if Next(line, k, initial).More? {
      var More(t, next) := Next(line, k, initial);
      ConsBack(Visible(line, p, initial), t, Visible(line, next, false));
    }
  }

  lemma TailBack(line: string, p: nat, initial: bool) returns (first: nat)
    requires p <= |line| && Visible(line, p, initial) == Ok([])
    ensures TailFrom(line, p, first)
    ensures first < |line| && initial ==> !IsInclude(line, first)
  {
    first := SkipSpace(line, p);
    hide Visible;
    VisibleStep(line, p, first, initial);
    if first < |line| {
      NextNoComment(line, first, initial);
      NextKind(line, first, initial);
    }
  }

  /** A quoted token is the writing of its meaning. */
  lemma QuotedBack(line: string, k: nat, initial: bool) returns (x: string)
    requires k < |line| && line[k] == '"' && !Next(line, k, initial).Fail?
    ensures Reads(line, k, Quoted(x))
    ensures Next(line, k, initial) == More(Token('"', k + 1, Escape(x)), k + |Quoted(x)|)
  {
    var pos := FindQuoteFrom(line, k + 1).pos;
    AcceptedIsEscaped(line, k + 1);
    var body := line[k + 1..pos];
    x := Unescape(body);
    hide Next, Escape, Unescape;
    QuoteReads(line, k, pos);
    NextQuotedIs(line, k, initial);
  }

  lemma QuoteReads(line: string, k: nat, pos: nat)
    requires k < pos < |line| && line[k] == '"' && line[pos] == '"'
    ensures Reads(line, k, "\"" + line[k + 1..pos] + "\"")
  {
  }

  /** An unquoted token behind the first is a word and the spaces behind it. */
  lemma TextBack(line: string, k: nat) returns (x: string, first: nat)
    requires k < |line| && StartsText(line[k], false)
    ensures Reads(line, k, x) && x != "" && FreeText(x) && TailFrom(line, k + |x|, first)
    ensures !Next(line, k, false).Fail? && Shows(Next(line, k, false).token, Bare(x))
  {
    first := FindDelimiter(line, k + 1, false);
    var text := line[k..first];
    var m := SkipSpaceBack(text, |text|);
    assert text[0] == line[k];
    x := text[..m];
    NextText(line, k, false);
    if first == |line| {
      assert line[k..] == text;
    }
    TrimIs(text, 0, m);
    TextBackReads(line, k, first, m);
  }

  lemma TextBackReads(line: string, k: nat, first: nat, m: nat)
    requires k < first <= |line| && StartsText(line[k], false) && 0 < m <= first - k
    requires forall j :: k < j < first ==> !IsDelimiter(line[j], false)
    requires first < |line| ==> IsDelimiter(line[first], false)
    requires var text := line[k..first]; (forall j :: m <= j < |text| ==> IsSpace(text[j])) && !IsSpace(text[m - 1])
    ensures var x := line[k..first][..m]; Reads(line, k, x) && FreeText(x) && TailFrom(line, k + m, first)
  {
    var text := line[k..first];
    var x := text[..m];
    forall i | 0 <= i < m
      ensures x[i] == line[k + i] && !IsComment(x[i])
    {
    }
    forall j | k + m <= j < first
      ensures IsSpace(line[j])
    {
      assert line[j] == text[j - k];
    }
  }

  lemma ValueBack(line: string, p: nat, t: Token) returns (v: nat, w: Word, first: nat)
    requires p <= |line| && Visible(line, p, false) == Ok([t]) && (t.kind == 't' || t.kind == '"')
    ensures SpacesIn(line, p, v) && Reads(line, v, Written(w)) && ValueOk(w) && w != Bare("")
    ensures Shows(t, w) && TailFrom(line, v + |Written(w)|, first)
  {
    hide Visible, Next;
    v := FirstToken(line, p, false);
    NextKind(line, v, false);
    if t.kind == '"' {
      var x := QuotedBack(line, v, false);
      w := InQuotes(x);
      first := TailBack(line, v + |Quoted(x)|, false);
    } else {
      var x;
      x, first := TextBack(line, v);
      w := Bare(x);
    }
  }

  lemma EqualsBack(line: string, p: nat) returns (e: nat)
    requires p <= |line| && Visible(line, p, false).Ok? && Visible(line, p, false).value != []
    requires Visible(line, p, false).value[0].kind == '='
    ensures SpacesIn(line, p, e) && e < |line| && line[e] == '='
    ensures Visible(line, e + 1, false) == Ok(Visible(line, p, false).value[1..])
  {
    hide Visible;
    e := FirstToken(line, p, false);
    NextKind(line, e, false);
  }

  lemma BareKeyBack(line: string, k: nat) returns (x: string)
    requires k < |line| && StartsText(line[k], true) && Next(line, k, true).More?
    ensures Reads(line, k, x) && PlainKey(x)
    ensures var q := k + |x|;
            && q < |line| && Next(line, k, true) == More(Token('t', k, x), if IsSpace(line[q]) then q + 1 else q)
  {
    var last := FindDelimiter(line, k + 1, true);
    x := line[k..last];
    NextText(line, k, true);
    forall i | 0 <= i < |x|
      ensures x[i] == line[k + i] && !IsDelimiter(x[i], true)
    {
    }
  }

  lemma KeyBack(line: string) returns (k: nat, key: Word)
    requires var r := Visible(line, 0, true); r.Ok? && |r.value| >= 2 && (r.value[0].kind == 't' || r.value[0].kind == '"')
    ensures SpacesIn(line, 0, k) && Reads(line, k, Written(key)) && Shows(Visible(line, 0, true).value[0], key)
    ensures key.Bare? ==> PlainKey(key.text)
    ensures k + |Written(key)| <= |line|
    ensures Visible(line, k + |Written(key)|, false) == Ok(Visible(line, 0, true).value[1..])
  {
    hide Visible, Next, PlainKey, Reads, SpacesIn, Shows, Escape, IsDelimiter;
    k := FirstToken(line, 0, true);
    NextKind(line, k, true);
    if line[k] == '"' {
      var x := QuotedBack(line, k, true);
      key := InQuotes(x);
      QuotedShows(Token('"', k + 1, Escape(x)), x);
      InLine(line, k, Quoted(x));
    } else {
      var x := BareKeyBack(line, k);
      key := Bare(x);
      BareKeyShows(Token('t', k, x), x);
      if IsSpace(line[k + |x|]) {
        VisibleAfterSpace(line, k + |x|);
      }
    }
  }

  lemma QuotedShows(t: Token, x: string)
    requires t.kind == '"' && t.text == Escape(x)
    ensures Shows(t, InQuotes(x))
  {
  }

  lemma BareKeyShows(t: Token, x: string)
    requires PlainKey(x) && t.kind == 't' && t.text == x
    ensures Shows(t, Bare(x))
  {
    TrimTight(x);
  }

  lemma KeyIsOk(t: Token, key: Word)
    requires Shows(t, key) && (key.Bare? ==> PlainKey(key.text))
    requires (t.kind == '"' ==> NoDangling(t.text)) && KeyOf(t).Ok?
    ensures KeyOk(key)
  {
    UnescapeEscape(key.text);
  }

  /** The tokens of an entry. */
  lemma EntryBack(ts: seq<Token>)
    requires Unescapable(ts) && Interpret(ts).Entry?
    ensures 2 <= |ts| <= 3 && (ts[0].kind == 't' || ts[0].kind == '"') && KeyOf(ts[0]).Ok? && ts[1].kind == '='
    ensures |ts| == 3 ==> ts[2].kind == 't' || ts[2].kind == '"'
  {
  }

  /** An empty value is anywhere. */
  lemma NothingThere(line: string, v: nat)
    requires v <= |line|
    ensures SpacesIn(line, v, v) && Reads(line, v, Written(Bare(""))) && ValueOk(Bare(""))
  {
  }

  /** Where the parts of a setting are in the line. */
  predicate SettingAt(line: string, k: nat, key: Word, e: nat, v: nat, value: Word, first: nat) {
    && SpacesIn(line, 0, k) && Reads(line, k, Written(key))
    && SpacesIn(line, k + |Written(key)|, e) && e < |line| && line[e] == '='
    && SpacesIn(line, e + 1, v) && Reads(line, v, Written(value))
    && TailFrom(line, v + |Written(value)|, first)
  }

  lemma SettingBack(line: string) returns (k: nat, key: Word, e: nat, v: nat, value: Word, first: nat)
    requires StatementOf(line).Entry?
    ensures SettingAt(line, k, key, e, v, value, first) && KeyOk(key) && ValueOk(value)
  {
    hide Visible, StatementOf, Interpret, Reads, SpacesIn, TailFrom, Shows, KeyOf, KeyOk, ValueOk, PlainKey;
    VisibleMeans(line);
    var ts := Visible(line, 0, true).value;
    EntryBack(ts);
    k, key := KeyBack(line);
    KeyIsOk(ts[0], key);
    e := EqualsBack(line, k + |Written(key)|);
    assert ts[1..][1..] == ts[2..];
    if |ts| == 2 {
      assert ts[2..] == [];
      first := TailBack(line, e + 1, false);
      v, value := e + 1, Bare("");
      NothingThere(line, v);
    } else {
      assert ts[2..] == [ts[2]];
      v, value, first := ValueBack(line, e + 1, ts[2]);
    }
  }

  /** Where the parts of a directive are. */
  predicate DirectiveAt(line: string, k: nat, v: nat, name: Word, first: nat) {
    && SpacesIn(line, 0, k) && Reads(line, k, "#include")
    && SpacesIn(line, k + 8, v) && k + 8 < v && Reads(line, v, Written(name))
    && TailFrom(line, v + |Written(name)|, first)
  }

  /** The tokens of an include directive. */
  lemma IncludeBack(ts: seq<Token>)
    requires Unescapable(ts) && Interpret(ts).Include?
    ensures |ts| == 2 && ts[0].kind == 'i' && (ts[1].kind == 't' || ts[1].kind == '"')
    ensures !Blank(if ts[1].kind == 't' then ts[1].text else Unescape(ts[1].text))
  {
  }

  lemma NameBack(t: Token, w: Word)
    requires Shows(t, w) && !Blank(if t.kind == 't' then t.text else Unescape(t.text))
    ensures !Blank(w.text)
  {
    UnescapeEscape(w.text);
  }

  lemma DirectiveBack(line: string) returns (k: nat, v: nat, name: Word, first: nat)
    requires StatementOf(line).Include?
    ensures DirectiveAt(line, k, v, name, first) && ValueOk(name) && !Blank(name.text)
  {
    hide Visible, StatementOf, Interpret, Next, SpacesIn, Reads, TailFrom, Shows, ValueOk, Blank;
    VisibleMeans(line);
    var ts := Visible(line, 0, true).value;
    IncludeBack(ts);
    k := FirstToken(line, 0, true);
    NextKind(line, k, true);
    assert ts[1..] == [ts[1]];
    NextInclude(line, k);
    v, name, first := ValueBack(line, k + 8, ts[1]);
    NameBack(ts[1], name);
    IncludeReads(line, k);
    SomethingBetween(line, k, v, name);
  }

  lemma NextInclude(line: string, k: nat)
    requires k < |line| && IsInclude(line, k)
    ensures !IsSpace(line[k]) && Next(line, k, true) == More(Token('i', k + 1, INCLUDE), k + 8)
  {
  }

  /** Behind the word `include` there is a space. */
  lemma SomethingBetween(line: string, k: nat, v: nat, name: Word)
    requires IsInclude(line, k) && SpacesIn(line, k + 8, v) && Reads(line, v, Written(name)) && ValueOk(name) && name != Bare("")
    ensures k + 8 < v
  {
    assert line[v + 0] == Written(name)[0] && !IsSpace(Written(name)[0]);
  }

  lemma IncludeReads(line: string, k: nat)
    requires IsInclude(line, k)
    ensures Reads(line, k, "#include")
  {
    forall j | 0 <= j < 8
      ensures line[k + j] == "#include"[j]
    {
      if j > 0 {
        assert line[k + j] == line[k + 1..k + 8][j - 1] == INCLUDE[j - 1] == "#include"[j];
      }
    }
  }

  /** What the check of a section name passed by. */
  predicate NamePasses(name: string) {
    && name != ""
    && (name[0] == '"' ==> |name| >= 2 && FindQuoteFrom(name[1..], 0) == At(|name| - 2) && !Blank(Unescape(name[1..|name| - 1])))
  }

  lemma SectionPasses(ts: seq<Token>)
    requires ts != [] && SectionStatement(ts).Section?
    ensures |ts| == 1 && NamePasses(Trim(ts[0].text))
  {
    hide Trim;
    var name := Trim(ts[0].text);
    if name != "" && name[0] == '"' {
      assert FindQuoteFrom(name[1..], 0) == At(|name| - 2);
    }
  }

  /** The text between the brackets of a section that is accepted. */
  lemma TitleTextBack(text: string) returns (before: string, name: Word, behind: string)
    requires NamePasses(Trim(text)) && ']' !in text
    ensures text == before + Written(name) + behind && Blank(before) && NameOk(name) && Blank(behind)
  {
    var trimmed;
    before, trimmed, behind := TrimParts(text);
    hide Trim;
    assert ']' !in trimmed;
    if trimmed[0] == '"' {
      var x := QuotedNameBack(trimmed);
      name := InQuotes(x);
    } else {
      name := Bare(trimmed);
    }
  }

  lemma EndsApart(text: string, a: nat, b: nat)
    requires a < |text| && !IsSpace(text[a]) && forall j :: b <= j < |text| ==> IsSpace(text[j])
    ensures a < b
  {
  }

  lemma TrimParts(text: string) returns (before: string, trimmed: string, behind: string)
    requires Trim(text) != ""
    ensures text == before + trimmed + behind && trimmed == Trim(text) && Blank(before) && Blank(behind)
    ensures !Blank(trimmed) && Tight(trimmed)
  {
    var a, b := SkipSpace(text, 0), SkipSpaceBack(text, |text|);
    TrimIsSlice(text);
    hide Trim, SkipSpace, SkipSpaceBack;
    before, trimmed, behind := text[..a], text[a..b], text[b..];
    TightSlice(text, a, b);
  }

  lemma TrimIsSlice(text: string)
    requires Trim(text) != ""
    ensures var a, b := SkipSpace(text, 0), SkipSpaceBack(text, |text|);
            Trim(text) == text[a..b] && a < b && Blank(text[..a]) && Blank(text[b..])
  {
    EndsApart(text, SkipSpace(text, 0), SkipSpaceBack(text, |text|));
  }

  lemma TightSlice(text: string, a: nat, b: nat)
    requires a < b <= |text| && !IsSpace(text[a]) && !IsSpace(text[b - 1])
    ensures text == text[..a] + text[a..b] + text[b..] && !Blank(text[a..b]) && Tight(text[a..b])
  {
    assert text[a..b][0] == text[a] && text[a..b][b - a - 1] == text[b - 1];
  }

  lemma QuotedNameBack(name: string) returns (x: string)
    requires NamePasses(name) && name[0] == '"'
    ensures name == Quoted(x) && !Blank(x)
  {
    var rest := name[1..];
    AcceptedIsEscaped(rest, 0);
    var body := rest[0..|name| - 2];
    assert body == name[1..|name| - 1];
    x := Unescape(body);
    assert rest[|name| - 2] == '"';
    hide Escape, Unescape;
    assert name == "\"" + body + "\"";
  }

  lemma TitleTokensBack(ts: seq<Token>)
    requires Unescapable(ts) && Interpret(ts).Section?
    ensures |ts| == 1 && ts[0].kind == '[' && NamePasses(Trim(ts[0].text))
  {
    assert Interpret(ts) == SectionStatement(ts);
    hide Interpret, Unescapable;
    SectionPasses(ts);
  }

  lemma BracketBack(line: string, k: nat)
    requires k < |line| && line[k] == '[' && !Next(line, k, true).Fail?
    ensures var inner := Next(line, k, true).token.text;
            && Next(line, k, true) == More(Token('[', k + 1, inner), k + 2 + |inner|)
            && Reads(line, k + 1, inner) && ']' !in inner
            && k + 1 + |inner| < |line| && line[k + 1 + |inner|] == ']'
  {
  }

  /** Where the parts of a section line are. */
  predicate TitleAt(line: string, k: nat, inner: string, first: nat) {
    && SpacesIn(line, 0, k) && k < |line| && line[k] == '[' && Reads(line, k + 1, inner)
    && k + 1 + |inner| < |line| && line[k + 1 + |inner|] == ']'
    && TailFrom(line, k + 2 + |inner|, first)
  }

  lemma TitleBack(line: string) returns (k: nat, before: string, name: Word, behind: string, first: nat)
    requires StatementOf(line).Section?
    ensures TitleAt(line, k, before + Written(name) + behind, first)
    ensures Blank(before) && NameOk(name) && Blank(behind)
  {
    hide Visible, StatementOf, Interpret, NameOk, Next, NamePasses, Reads, SpacesIn, TailFrom, Trim, Written, Blank, IsSpace;
    VisibleMeans(line);
    var ts := Visible(line, 0, true).value;
    TitleTokensBack(ts);
    k := FirstToken(line, 0, true);
    NextKind(line, k, true);
    BracketBack(line, k);
    var inner := ts[0].text;
    assert ts[1..] == [];
    first := TailBack(line, k + 2 + |inner|, false);
    before, name, behind := TitleTextBack(inner);
    assert TitleAt(line, k, inner, first);
  }

  // ---- from the positions to the form ----

  lemma TitleForm(line: string) returns (indent: string, form: Form, after: string, comment: string)
    requires StatementOf(line).Section?
    ensures IsLine(line, indent, form, after, comment)
  {
    hide StatementOf, NameOk, Written, Reads;
    var k, before, name, behind, first := TitleBack(line);
    var inner := before + Written(name) + behind;
    ReadsSlice(line, k + 1, inner);
    form := Title(before, name, behind);
    indent, after, comment := line[..k], line[k + 2 + |inner|..first], line[first..];
    TitleBodyIs(before, name, behind);
    InLine(line, k + 1, inner);
    hide Body;
    SixParts(line, k, inner, first);
  }

  lemma TitleBodyIs(before: string, name: Word, behind: string)
    ensures Body(Title(before, name, behind)) == "[" + (before + Written(name) + behind) + "]"
  {
    hide Written;
  }

  lemma SixParts(line: string, k: nat, inner: string, first: nat)
    requires k + 2 + |inner| <= first <= |line|
    requires line[k] == '[' && line[k + 1..k + 1 + |inner|] == inner && line[k + 1 + |inner|] == ']'
    ensures line == line[..k] + ("[" + inner + "]") + line[k + 2 + |inner|..first] + line[first..]
  {
  }

  lemma SettingForm(line: string) returns (indent: string, form: Form, after: string, comment: string)
    requires StatementOf(line).Entry?
    ensures IsLine(line, indent, form, after, comment)
  {
    hide StatementOf, KeyOk, ValueOk, Written;
    var k, key, e, v, value, first := SettingBack(line);
    var a, d := Written(key), Written(value);
    ReadsSlice(line, k, a);
    ReadsSlice(line, v, d);
    form := Setting(key, line[k + |a|..e], line[e + 1..v], value);
    indent, after, comment := line[..k], line[v + |d|..first], line[first..];
    SevenSlices(line, k, a, e, v, d, first);
  }

  lemma SevenSlices(line: string, k: nat, a: string, e: nat, v: nat, d: string, first: nat)
    requires k + |a| <= e < v <= v + |d| <= first <= |line|
    requires line[k..k + |a|] == a && line[e] == '=' && line[v..v + |d|] == d
    ensures line == line[..k] + (a + line[k + |a|..e] + "=" + line[e + 1..v] + d) + line[v + |d|..first] + line[first..]
  {
    assert line[..v + |d|] == line[..k] + (a + line[k + |a|..e] + "=" + line[e + 1..v] + d);
  }

  lemma DirectiveForm(line: string) returns (indent: string, form: Form, after: string, comment: string)
    requires StatementOf(line).Include?
    ensures IsLine(line, indent, form, after, comment)
  {
    hide StatementOf, ValueOk, Written;
    var k, v, name, first := DirectiveBack(line);
    var d := Written(name);
    ReadsSlice(line, k, "#include");
    ReadsSlice(line, v, d);
    form := Directive(line[k + 8..v], name);
    indent, after, comment := line[..k], line[v + |d|..first], line[first..];
    assert line == line[..k] + ("#include" + line[k + 8..v] + d) + line[v + |d|..first] + line[first..];
  }

  lemma SilentForm(line: string) returns (indent: string, comment: string)
    requires StatementOf(line) == Nothing
    ensures IsLine(line, indent, Silent, "", comment)
  {
    hide StatementOf;
    VisibleMeans(line);
    SilentTokens(line);
    hide Visible;
    var first := TailBack(line, 0, true);
    indent, comment := line[..first], line[first..];
    assert line == indent + "" + "" + comment;
    IncludeInSuffix(line, first);
  }

  lemma SilentTokens(line: string)
    requires StatementOf(line) == Nothing
    ensures Visible(line, 0, true) == Ok([])
  {
    VisibleMeans(line);
  }

  /** A line that is not rejected has one of the forms. */
  lemma ReadHasForm(line: string) returns (indent: string, form: Form, after: string, comment: string)
    requires !StatementOf(line).Reject?
    ensures IsLine(line, indent, form, after, comment) && Saying(form) == StatementOf(line)
  {
    hide IsLine, StatementOf, Saying;
    match StatementOf(line) {
      case Section(_) =>
        indent, form, after, comment := TitleForm(line);
      case Entry(_, _) =>
        indent, form, after, comment := SettingForm(line);
      case Include(_) =>
        indent, form, after, comment := DirectiveForm(line);
      case Nothing =>
        form, after := Silent, "";
        indent, comment := SilentForm(line);
    }
    FormIsRead(line, indent, form, after, comment);
  }

  /** A line says something exactly when it is written in a form that says it; any other line is rejected. */
  lemma {:induction false} LineSaysIff(line: string, s: Statement)
    requires !s.Reject?
    ensures StatementOf(line) == s
            <==> exists indent, form, after, comment :: IsLine(line, indent, form, after, comment) && Saying(form) == s
  {
    hide IsLine, StatementOf, Saying;
    if StatementOf(line) == s {
      var indent, form, after, comment := ReadHasForm(line);
    }
    if exists indent, form, after, comment :: IsLine(line, indent, form, after, comment) && Saying(form) == s {
      var indent, form, after, comment :| IsLine(line, indent, form, after, comment) && Saying(form) == s;
      FormIsRead(line, indent, form, after, comment);
    }
  }
}
