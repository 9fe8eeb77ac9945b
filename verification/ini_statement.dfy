/** What one line says. */
module IniStatement {
  import opened Wrappers
  import opened IniText
  import opened IniEscape
  import opened IniTokenizer

  datatype Statement =
    | Nothing
    | Section(prefix: string)
    | Entry(key: string, value: string)
    | Include(name: string)
    | Reject(problem: Problem)

  /** The tokens before the first comment. */
  function StripComments(ts: seq<Token>): (r: seq<Token>)
    ensures |r| <= |ts| && r == ts[..|r|]
    ensures forall i :: 0 <= i < |r| ==> !IsComment(r[i].kind)
    ensures |r| < |ts| ==> IsComment(ts[|r|].kind)
  {
    if ts == [] || IsComment(ts[0].kind) then [] else [ts[0]] + StripComments(ts[1..])
  }

  /** Without comments there is nothing to drop. */
  lemma {:induction false} NothingStripped(ts: seq<Token>)
    requires forall i :: 0 <= i < |ts| ==> !IsComment(ts[i].kind)
    ensures StripComments(ts) == ts
    decreases |ts|
  {
    if ts != [] {
      NothingStripped(ts[1..]);
    }
  }

  /** Quoted tokens never end in a lone backslash: what `process_quoted_value` asserts. */
  predicate Unescapable(ts: seq<Token>) {
    forall i :: 0 <= i < |ts| && ts[i].kind == '"' ==> NoDangling(ts[i].text)
  }

  /** `process_key`. */
  function KeyOf(t: Token): Result<string, Problem>
    requires t.kind == '"' ==> NoDangling(t.text)
  {
    if t.kind == 't' then Ok(Trim(t.text))
    else if t.kind == '"' then
      var key := Unquote(t.text);
      if key == "" || Trim(key) == "" then Err(EmptyKey) else Ok(key)
    else Err(UnexpectedAtStart)
  }

  function EntryStatement(ts: seq<Token>): Statement
    requires ts != [] && Unescapable(ts)
  {
    var key := KeyOf(ts[0]);
    if key.Err? then Reject(key.error)
    else if |ts| == 1 then Reject(MissingValue)
    else if ts[1].kind != '=' then Reject(Unexpected)
    else if |ts| == 2 then Entry(key.value, "")
    else if ts[2].kind == 't' then
      if |ts| != 3 then Reject(UnexpectedAfterText) else Entry(key.value, Trim(ts[2].text))
    else if ts[2].kind == '"' then
      if |ts| != 3 then Reject(UnexpectedAfterQuoted) else Entry(key.value, Unquote(ts[2].text))
    else Reject(UnexpectedAfterEquals)
  }

  /** A prefix ends in a dot, whether or not the section name does. */
  function WithDot(name: string): string {
    if name != "" && name[|name| - 1] == '.' then name else name + "."
  }

  /** What is between the quotes of a section name that passes the check can be unescaped. */
  lemma SectionNameUnescapable(name: string)
    requires |name| >= 2 && name[0] == '"'
    requires FindQuoteFrom(name[1..], 0) == At(|name| - 2)
    ensures NoDangling(name[1..|name| - 1])
  {
    AcceptedIsEscaped(name[1..], 0);
    assert name[1..][0..|name| - 2] == name[1..|name| - 1];
  }

  function SectionStatement(ts: seq<Token>): Statement
    requires ts != []
  {
    var name := Trim(ts[0].text);
    if name == "" then Reject(EmptySection)
    else if |ts| > 1 then Reject(UnexpectedAfterSection)
    else if name[0] == '"' then
      var pos := FindQuoteFrom(name[1..], 0);
      if pos.DanglingEscape? || pos.InvalidEscape? then Reject(QuoteProblem(pos))
      else if pos.NoQuote? || pos.pos != |name| - 2 then Reject(InconsistentQuotes)
      else
        SectionNameUnescapable(name);
        var prefix := Unquote(name[1..|name| - 1]);
        if Trim(prefix) == "" then Reject(EmptySection) else Section(WithDot(prefix))
    else Section(WithDot(name))
  }

  /** `process_include`, up to the name of the file. */
  function IncludeStatement(ts: seq<Token>): Statement
    requires ts != [] && Unescapable(ts)
  {
    if |ts| == 1 then Reject(FilenameMissing)
    else if |ts| > 2 then Reject(UnexpectedAfterFilename)
    else if ts[1].kind != 't' && ts[1].kind != '"' then Reject(FilenameExpected)
    else
      var name := Trim(if ts[1].kind == 't' then ts[1].text else Unquote(ts[1].text));
      if name == "" then Reject(FilenameMissing) else Include(name)
  }

  function Interpret(ts: seq<Token>): Statement
    requires Unescapable(ts)
  {
    if ts == [] then Nothing
    else if ts[0].kind == 'i' then IncludeStatement(ts)
    else if ts[0].kind == '[' then SectionStatement(ts)
    else EntryStatement(ts)
  }

  lemma GrammarUnescapable(ts: seq<Token>)
    requires Grammar(ts, true)
    ensures Unescapable(ts) && Unescapable(StripComments(ts))
  {
    forall i | 0 <= i < |ts| && ts[i].kind == '"'
      ensures NoDangling(ts[i].text)
    {
      assert WellPlaced(ts, i, true);
    }
  }

  function StatementOf(line: string): Statement {
    var ts := Scan(line, 0, true);
    if ts.Err? then Reject(ts.error)
    else
      ScanGrammar(line, 0, true);
      GrammarUnescapable(ts.value);
      Interpret(StripComments(ts.value))
  }

  // ---- unreachable branches ----

  /** An unquoted third token is the last one before a comment. */
  lemma TextEndsTheTokens(ts: seq<Token>)
    requires Grammar(ts, true)
    ensures var r := StripComments(ts); |r| > 2 && r[2].kind == 't' ==> |r| == 3
  {
    assert |ts| > 2 ==> WellPlaced(ts, 2, true);
  }

  lemma NoTokenAfterText(ts: seq<Token>)
    requires Unescapable(ts) && (|ts| > 2 && ts[2].kind == 't' ==> |ts| == 3)
    ensures Interpret(ts) != Reject(UnexpectedAfterText)
  {
  }

  /** No line is rejected for tokens after an unquoted value: such a value always runs to the end or a comment. */
  lemma {:induction false} NothingFollowsText(line: string)
    ensures StatementOf(line) != Reject(UnexpectedAfterText)
  {
    var r := Scan(line, 0, true);
    if r.Err? {
      ScanProblems(line, 0, true);
    } else {
      ScanGrammar(line, 0, true);
      GrammarUnescapable(r.value);
      TextEndsTheTokens(r.value);
      NoTokenAfterText(StripComments(r.value));
    }
  }

  /** The tokenizer itself complains about quotes, escapes and the opening bracket only. */
  lemma {:induction false} ScanProblems(s: string, p: nat, initial: bool)
    requires p <= |s| && Scan(s, p, initial).Err?
    ensures var e := Scan(s, p, initial).error;
            e.UnmatchedQuote? || e.LoneBackslash? || e.InvalidEscaped? || e.UnmatchedBracket?
    decreases |s| - p
  {
    var first := SkipSpace(s, p);
    match Next(s, first, initial)
    case Fail(problem) =>
    case More(t, next) => ScanProblems(s, next, false);
  }

  // ---- trailing comments ----

  /** Same kind, and the same text; for unquoted text the same up to spaces around it. */
  predicate SameToken(t: Token, u: Token) {
    t.kind == u.kind && (t.text == u.text || (t.kind == 't' && Trim(t.text) == Trim(u.text)))
  }

  predicate SameTokens(ts: seq<Token>, us: seq<Token>) {
    |ts| == |us| && forall i :: 0 <= i < |ts| ==> SameToken(ts[i], us[i])
  }

  lemma SameTokensSameStatement(ts: seq<Token>, us: seq<Token>)
    requires Unescapable(ts) && Unescapable(us) && SameTokens(ts, us)
    ensures Interpret(ts) == Interpret(us)
  {
    if ts != [] {
      assert SameToken(ts[0], us[0]);
      if |ts| > 1 {
        assert SameToken(ts[1], us[1]);
        if |ts| > 2 {
          assert SameToken(ts[2], us[2]);
        }
      }
    }
  }

  /** `line` with a comment behind it. */
  function Commented(line: string, mark: char, text: string): (r: string)
    ensures |r| == |line| + 2 + |text|
  {
    line + [' ', mark] + text
  }

  lemma CommentedCharacters(line: string, mark: char, text: string)
    ensures var r := Commented(line, mark, text);
            && (forall j :: 0 <= j < |line| ==> r[j] == line[j])
            && r[|line|] == ' ' && r[|line| + 1] == mark
            && r[|line| + 2..] == text
            && (forall i, j :: 0 <= i <= j <= |line| ==> r[i..j] == line[i..j])
  {
    var r := Commented(line, mark, text);
    forall i, j | 0 <= i <= j <= |line|
      ensures r[i..j] == line[i..j]
    {
    }
  }

  lemma {:induction false} SkipSpaceCommented(line: string, mark: char, text: string, p: nat)
    requires p <= |line| && IsComment(mark)
    ensures var first := SkipSpace(line, p);
            SkipSpace(Commented(line, mark, text), p) == if first < |line| then first else |line| + 1
  {
    CommentedCharacters(line, mark, text);
  }

  lemma {:induction false} FindCharCommented(line: string, mark: char, text: string, p: nat, c: char)
    requires p <= |line| && FindChar(line, p, c) < |line|
    ensures FindChar(Commented(line, mark, text), p, c) == FindChar(line, p, c)
  {
    CommentedCharacters(line, mark, text);
  }

  /** An unquoted token that ran to the end of the line now ends at the space, or at the mark behind it. */
  lemma {:induction false} FindDelimiterCommented(line: string, mark: char, text: string, p: nat, initial: bool)
    requires p <= |line| && IsComment(mark)
    ensures var last := FindDelimiter(line, p, initial);
            FindDelimiter(Commented(line, mark, text), p, initial)
              == if last < |line| then last else if initial then |line| else |line| + 1
  {
    CommentedCharacters(line, mark, text);
  }

  lemma IsIncludeCommented(line: string, mark: char, text: string, p: nat)
    requires p < |line| && IsComment(mark)
    ensures IsInclude(Commented(line, mark, text), p) <==> IsInclude(line, p)
  {
    var r := Commented(line, mark, text);
    CommentedCharacters(line, mark, text);
    if p + 8 <= |line| {
      assert r[p + 1..p + 8] == line[p + 1..p + 8];
    } else if p + 8 <= |r| {
      assert r[p + 1..p + 8][|line| - p - 1] == ' ';
    }
  }

  /** What becomes of a step when a comment follows the line. */
  predicate StepCommented(line: string, step: Step, step': Step) {
    match step
    case Fail(_) => true
    case More(t, next) => step' == step
    case Last(t) =>
      if IsComment(t.kind) then step'.Last? && step'.token.kind == t.kind
      else step'.More? && SameToken(t, step'.token) && step'.next == |line| + 1
  }

  lemma QuotedCommented(line: string, mark: char, text: string, first: nat, initial: bool)
    requires first < |line| && line[first] == '"' && IsComment(mark)
    ensures StepCommented(line, Next(line, first, initial), Next(Commented(line, mark, text), first, initial))
  {
    var r := Commented(line, mark, text);
    CommentedCharacters(line, mark, text);
    if FindQuoteFrom(line, first + 1).At? {
      FindQuoteAppend(line, first + 1, [' ', mark] + text);
      assert line + ([' ', mark] + text) == r;
    }
  }

  lemma TailCommented(line: string, mark: char, text: string, first: nat)
    requires first < |line|
    ensures var r := Commented(line, mark, text);
            && r[first..|line|] == line[first..]
            && r[first..|line| + 1] == line[first..] + " "
            && Trim(r[first..|line| + 1]) == Trim(line[first..])
  {
    var r := Commented(line, mark, text);
    assert r[first..|line|] == line[first..];
    assert r[first..|line| + 1] == line[first..] + " ";
    TrimAppendSpace(line[first..]);
  }

  /** The character at `first` starts an unquoted token. */
  predicate StartsText(c: char, initial: bool) {
    !IsSpace(c) && c != '"' && c != '=' && !IsComment(c) && !(c == '[' && initial)
  }

  lemma NextText(s: string, first: nat, initial: bool)
    requires first < |s| && StartsText(s[first], initial)
    ensures var last := FindDelimiter(s, first + 1, initial);
            Next(s, first, initial)
              == if last == |s| then Last(Token('t', first, s[first..]))
                 else More(Token('t', first, s[first..last]), if IsSpace(s[last]) then last + 1 else last)
  {
  }

  lemma UnquotedCommented(line: string, mark: char, text: string, first: nat, initial: bool)
    requires first < |line| && StartsText(line[first], initial) && IsComment(mark)
    ensures StepCommented(line, Next(line, first, initial), Next(Commented(line, mark, text), first, initial))
  {
    var r := Commented(line, mark, text);
    CommentedCharacters(line, mark, text);
    NextText(line, first, initial);
    NextText(r, first, initial);
    FindDelimiterCommented(line, mark, text, first + 1, initial);
    if FindDelimiter(line, first + 1, initial) == |line| {
      TailCommented(line, mark, text, first);
    }
  }

  lemma MarkedCommented(line: string, mark: char, text: string, first: nat, initial: bool)
    requires first < |line| && IsComment(mark)
    requires IsComment(line[first]) || line[first] == '=' || (line[first] == '[' && initial)
    ensures StepCommented(line, Next(line, first, initial), Next(Commented(line, mark, text), first, initial))
  {
    CommentedCharacters(line, mark, text);
    IsIncludeCommented(line, mark, text, first);
    if line[first] == '[' && FindChar(line, first + 1, ']') < |line| {
      FindCharCommented(line, mark, text, first + 1, ']');
    }
  }

  /** The token at a position is the same token when a comment follows the line. */
  lemma NextCommented(line: string, mark: char, text: string, first: nat, initial: bool)
    requires first < |line| && !IsSpace(line[first]) && IsComment(mark)
    ensures Commented(line, mark, text)[first] == line[first]
    ensures StepCommented(line, Next(line, first, initial), Next(Commented(line, mark, text), first, initial))
  {
    CommentedCharacters(line, mark, text);
    if line[first] == '"' {
      QuotedCommented(line, mark, text, first, initial);
    } else if IsComment(line[first]) || line[first] == '=' || (line[first] == '[' && initial) {
      MarkedCommented(line, mark, text, first, initial);
    } else {
      UnquotedCommented(line, mark, text, first, initial);
    }
  }

  /** From the space behind the line on there is just the comment. */
  lemma ScanTheComment(line: string, mark: char, text: string, p: nat, initial: bool)
    requires IsComment(mark) && |line| <= p <= |line| + 1
    requires !(initial && IsInclude(Commented(line, mark, text), |line| + 1))
    ensures Scan(Commented(line, mark, text), p, initial) == Ok([Token(mark, |line| + 2, text)])
  {
    CommentedCharacters(line, mark, text);
    var r := Commented(line, mark, text);
    assert SkipSpace(r, p) == |line| + 1;
  }

  /** Both lines are accepted, with the same tokens before the first comment. */
  predicate SameUpToComment(a: Tokens, b: Tokens) {
    a.Ok? && b.Ok? && SameTokens(StripComments(a.value), StripComments(b.value))
  }

  lemma SameNothing(ts: seq<Token>, us: seq<Token>)
    requires ts == [] || IsComment(ts[0].kind)
    requires us == [] || IsComment(us[0].kind)
    ensures SameUpToComment(Ok(ts), Ok(us))
  {
  }

  lemma SameCons(t: Token, a: Tokens, b: Tokens)
    requires SameUpToComment(a, b)
    ensures SameUpToComment(Cons(t, a), Cons(t, b))
  {
    assert ([t] + a.value)[1..] == a.value && ([t] + b.value)[1..] == b.value;
  }

  lemma SameLast(t: Token, u: Token, c: Token)
    requires !IsComment(t.kind) && SameToken(t, u) && IsComment(c.kind)
    ensures SameUpToComment(Ok([t]), Cons(u, Ok([c])))
  {
    assert ([u] + [c])[1..] == [c];
    assert StripComments([c]) == [];
  }

  /** The end of the line: nothing follows but the comment. */
  lemma EndCommented(line: string, mark: char, text: string, p: nat, initial: bool)
    requires p <= |line| && IsComment(mark) && SkipSpace(line, p) == |line|
    requires !(initial && IsInclude(Commented(line, mark, text), |line| + 1))
    ensures SameUpToComment(Scan(line, p, initial), Scan(Commented(line, mark, text), p, initial))
  {
    SkipSpaceCommented(line, mark, text, p);
    ScanTheComment(line, mark, text, |line| + 1, initial);
    SameNothing([], [Token(mark, |line| + 2, text)]);
  }

  /** The last token of the line. */
  lemma LastCommented(line: string, mark: char, text: string, p: nat, initial: bool)
    requires p <= |line| && IsComment(mark)
    requires SkipSpace(line, p) < |line| && Next(line, SkipSpace(line, p), initial).Last?
    ensures SameUpToComment(Scan(line, p, initial), Scan(Commented(line, mark, text), p, initial))
  {
    var r := Commented(line, mark, text);
    var first := SkipSpace(line, p);
    SkipSpaceCommented(line, mark, text, p);
    NextCommented(line, mark, text, first, initial);
    var t, u := Next(line, first, initial).token, Next(r, first, initial).token;
    if IsComment(t.kind) {
      SameNothing([t], [u]);
    } else {
      ScanTheComment(line, mark, text, |line| + 1, false);
      SameLast(t, u, Token(mark, |line| + 2, text));
    }
  }

  /** Up to the comment, the tokens of the commented line are those of the line. */
  lemma {:induction false} ScanCommented(line: string, mark: char, text: string, p: nat, initial: bool)
    requires p <= |line| && IsComment(mark) && Scan(line, p, initial).Ok?
    requires SkipSpace(line, p) < |line| || !(initial && IsInclude(Commented(line, mark, text), |line| + 1))
    ensures SameUpToComment(Scan(line, p, initial), Scan(Commented(line, mark, text), p, initial))
    decreases |line| - p
  {
    var first := SkipSpace(line, p);
    if first == |line| {
      EndCommented(line, mark, text, p, initial);
    } else if Next(line, first, initial).Last? {
      LastCommented(line, mark, text, p, initial);
    } else {
      var More(t, next) := Next(line, first, initial);
      SkipSpaceCommented(line, mark, text, p);
      NextCommented(line, mark, text, first, initial);
      ScanCommented(line, mark, text, next, false);
      SameCons(t, Scan(line, next, false), Scan(Commented(line, mark, text), next, false));
    }
  }

  /** The comment of a blank line reads as an include directive. */
  predicate CommentReadsAsInclude(line: string, mark: char, text: string) {
    Blank(line) && IsInclude([mark] + text, 0)
  }

  /**
   A trailing comment changes what a line means exactly when the line is blank and the comment reads
   `#include`.
   */
  lemma {:induction false} TrailingComment(line: string, mark: char, text: string)
    requires IsComment(mark) && Scan(line, 0, true).Ok?
    ensures StatementOf(Commented(line, mark, text)) == StatementOf(line)
            <==> !CommentReadsAsInclude(line, mark, text)
  {
    var r := Commented(line, mark, text);
    var p := |line| + 1;
    CommentedCharacters(line, mark, text);
    IncludeInComment(line, mark, text);
    SkipSpaceCommented(line, mark, text, 0);
    if CommentReadsAsInclude(line, mark, text) {
      assert SkipSpace(line, 0) == |line|;
      assert Next(r, p, true) == More(Token('i', p + 1, INCLUDE), p + 8);
      assert StatementOf(line) == Nothing;
      assert StatementOf(r) != Nothing;
    } else {
      ScanCommented(line, mark, text, 0, true);
      ScanGrammar(line, 0, true);
      ScanGrammar(r, 0, true);
      GrammarUnescapable(Scan(line, 0, true).value);
      GrammarUnescapable(Scan(r, 0, true).value);
      SameTokensSameStatement(StripComments(Scan(line, 0, true).value), StripComments(Scan(r, 0, true).value));
    }
  }

  lemma IncludeInComment(line: string, mark: char, text: string)
    ensures IsInclude(Commented(line, mark, text), |line| + 1) <==> IsInclude([mark] + text, 0)
  {
    var r, c := Commented(line, mark, text), [mark] + text;
    assert r[|line| + 1..] == c;
    if |c| >= 8 {
      assert r[|line| + 2..|line| + 9] == c[1..8];
    }
  }
}
