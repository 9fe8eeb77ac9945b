/**
 The written form of a line: spaces, a section, an entry, a directive or nothing, spaces, and a comment. What a
 line looks like, and what it then says, without any scanning.
 */
module WrittenForm {
  import opened Wrappers
  import opened IniText
  import opened IniEscape
  import opened IniTokenizer
  import opened IniStatement

  /** A key, value or name, without or within quotes. */
  datatype Word = Bare(text: string) | InQuotes(text: string)

  function Quoted(s: string): string {
    "\"" + Escape(s) + "\""
  }

  function Written(w: Word): string {
    match w
    case Bare(text) => text
    case InQuotes(text) => Quoted(text)
  }

  datatype Form =
    | Silent
    | Title(before: string, name: Word, behind: string)
    | Setting(key: Word, gap: string, before: string, value: Word)
    | Directive(gap: string, name: Word)

  function Body(form: Form): string {
    match form
    case Silent => ""
    case Title(before, name, behind) => "[" + before + Written(name) + behind + "]"
    case Setting(key, gap, before, value) => Written(key) + gap + "=" + before + Written(value)
    case Directive(gap, name) => "#include" + gap + Written(name)
  }

  function Saying(form: Form): Statement {
    match form
    case Silent => Nothing
    case Title(_, name, _) => Section(WithDot(name.text))
    case Setting(key, _, _, value) => Entry(key.text, value.text)
    case Directive(_, name) => Include(Trim(name.text))
  }

  predicate Tight(s: string) {
    s == "" || (!IsSpace(s[0]) && !IsSpace(s[|s| - 1]))
  }

  predicate NoComment(s: string) {
    forall i :: 0 <= i < |s| ==> !IsComment(s[i])
  }

  /** What can be the first unquoted word of a line: it ends at the first space, comment or equals sign. */
  predicate PlainKey(key: string) {
    && key != "" && key[0] != '"' && key[0] != '['
    && forall i :: 0 <= i < |key| ==> !IsSpace(key[i]) && !IsComment(key[i]) && key[i] != '='
  }

  /** What can be an unquoted word further on, perhaps an empty one: it ends at a comment only. */
  predicate FreeText(s: string) {
    Tight(s) && NoComment(s) && (s != "" ==> s[0] != '"' && s[0] != '=')
  }

  predicate KeyOk(w: Word) {
    if w.Bare? then PlainKey(w.text) else !Blank(w.text)
  }

  predicate ValueOk(w: Word) {
    w.Bare? ==> FreeText(w.text)
  }

  predicate NameOk(w: Word) {
    && ']' !in Written(w) && !Blank(w.text)
    && (w.Bare? ==> Tight(w.text) && w.text[0] != '"')
  }

  predicate WellFormed(form: Form, comment: string) {
    match form
    case Silent => !IsInclude(comment, 0)
    case Title(before, name, behind) => Blank(before) && NameOk(name) && Blank(behind)
    case Setting(key, gap, before, value) => KeyOk(key) && Blank(gap) && Blank(before) && ValueOk(value)
    case Directive(gap, name) => gap != "" && Blank(gap) && ValueOk(name) && !Blank(name.text)
  }

  /** What may follow on the line: spaces and then perhaps a comment. */
  predicate IsTail(after: string, comment: string) {
    Blank(after) && (comment == "" || IsComment(comment[0]))
  }

  predicate IsLine(line: string, indent: string, form: Form, after: string, comment: string) {
    && line == indent + Body(form) + after + comment
    && Blank(indent) && IsTail(after, comment) && WellFormed(form, comment)
  }

  // ---- the tokens before the comment ----

  function Visible(line: string, p: nat, initial: bool): Tokens
    requires p <= |line|
  {
    var r := Scan(line, p, initial);
    if r.Ok? then Ok(StripComments(r.value)) else r
  }

  lemma VisibleMeans(line: string)
    ensures var r := Visible(line, 0, true);
            && (r.Ok? ==> Unescapable(r.value))
            && StatementOf(line) == if r.Ok? then Interpret(r.value) else Reject(r.error)
  {
    var r := Scan(line, 0, true);
    if r.Ok? {
      ScanGrammar(line, 0, true);
      GrammarUnescapable(r.value);
    }
  }

  lemma NextNoComment(s: string, first: nat, initial: bool)
    requires first < |s| && !IsSpace(s[first])
    ensures var step := Next(s, first, initial);
            && (step.More? ==> !IsComment(step.token.kind))
            && (step.Last? && IsComment(step.token.kind) ==> IsComment(s[first]))
  {
  }

  lemma VisibleCons(t: Token, rest: Tokens)
    requires !IsComment(t.kind) && rest.Ok?
    ensures Cons(t, rest).Ok? && StripComments(Cons(t, rest).value) == [t] + StripComments(rest.value)
  {
    assert ([t] + rest.value)[1..] == rest.value;
  }

  /** There are only spaces from `p` up to `k`. */
  predicate SpacesIn(line: string, p: nat, k: nat) {
    p <= k <= |line| && forall j :: p <= j < k ==> IsSpace(line[j])
  }

  /** One step: the spaces up to `first`, and the token there. */
  lemma VisibleStep(line: string, p: nat, first: nat, initial: bool)
    requires SpacesIn(line, p, first)
    requires first < |line| ==> !IsSpace(line[first])
    ensures SkipSpace(line, p) == first
    ensures first == |line| ==> Visible(line, p, initial) == Ok([])
    ensures first < |line| ==>
              Visible(line, p, initial) == match Next(line, first, initial)
                                           case Fail(problem) => Err(problem)
                                           case Last(t) => Ok(if IsComment(t.kind) then [] else [t])
                                           case More(t, next) => Cons(t, Visible(line, next, false))
  {
    SkipSpaceAt(line, p, first);
    if first < |line| {
      NextNoComment(line, first, initial);
      match Next(line, first, initial)
      case Fail(_) =>
      case Last(t) =>
        assert StripComments([t]) == if IsComment(t.kind) then [] else [t];
      case More(t, next) =>
        if Scan(line, next, false).Ok? {
          VisibleCons(t, Scan(line, next, false));
        }
    }
  }

  lemma SkipSpaceAt(s: string, p: nat, i: nat)
    requires p <= i <= |s|
    requires forall j :: p <= j < i ==> IsSpace(s[j])
    requires i < |s| ==> !IsSpace(s[i])
    ensures SkipSpace(s, p) == i
  {
  }

  /** A space more or less in front of the next token makes no difference. */
  lemma VisibleAfterSpace(line: string, p: nat)
    requires p < |line| && IsSpace(line[p])
    ensures Visible(line, p, false) == Visible(line, p + 1, false)
  {
    assert SkipSpace(line, p) == SkipSpace(line, p + 1);
  }

  // ---- where things are ----

  /** The token is that word. */
  predicate Shows(t: Token, w: Word) {
    if w.Bare? then t.kind == 't' && Trim(t.text) == w.text else t.kind == '"' && t.text == Escape(w.text)
  }

  /** `line` reads `part` at `p`, character by character. */
  predicate Reads(line: string, p: nat, part: string) {
    p + |part| <= |line| && forall j :: 0 <= j < |part| ==> line[p + j] == part[j]
  }

  lemma ReadsSlice(line: string, p: nat, part: string)
    requires Reads(line, p, part)
    ensures line[p..p + |part|] == part
  {
  }

  /** What is at `p` is nothing but spaces and a comment. */
  predicate TailFrom(line: string, p: nat, first: nat) {
    && SpacesIn(line, p, first)
    && (first < |line| ==> IsComment(line[first]))
  }

  // ---- rows of tokens ----

  /** What can stand behind the first token of a line, with the spaces in front of it. */
  datatype Piece = Equals(gap: string) | Behind(gap: string, word: Word)

  function PieceWord(x: Piece): string {
    if x.Equals? then "=" else Written(x.word)
  }

  function PieceText(x: Piece): string {
    x.gap + PieceWord(x)
  }

  function RowText(row: seq<Piece>): string {
    if row == [] then "" else PieceText(row[0]) + RowText(row[1..])
  }

  /** An unquoted word runs to the tail of the line, so it comes last. */
  predicate PieceOk(x: Piece, last: bool) {
    Blank(x.gap) && (x.Behind? ==> ValueOk(x.word) && x.word != Bare("") && (x.word.Bare? ==> last))
  }

  ghost predicate RowOk(row: seq<Piece>) {
    forall i :: 0 <= i < |row| ==> PieceOk(row[i], i == |row| - 1)
  }

  predicate PieceShown(t: Token, x: Piece) {
    if x.Equals? then t.kind == '=' else Shows(t, x.word)
  }

  ghost predicate RowShown(ts: seq<Token>, row: seq<Piece>) {
    |ts| == |row| && forall i :: 0 <= i < |row| ==> PieceShown(ts[i], row[i])
  }

  /** A token `head` and behind it the row. */
  ghost predicate HeadAndRow(r: Tokens, head: Token, row: seq<Piece>) {
    r.Ok? && r.value != [] && r.value[0] == head && RowShown(r.value[1..], row)
  }
}
