/** Characters and searches of the INI reader. */
module IniText {
  predicate IsSpace(c: char) {
    c == ' ' || c == '\t' || c == '\r'
  }

  predicate IsComment(c: char) {
    c == '#' || c == ';'
  }

  predicate Blank(s: string) {
    forall i :: 0 <= i < |s| ==> IsSpace(s[i])
  }

  /** `find_first_not_of(space(), p)`, with the length of `s` for "not found". */
  function SkipSpace(s: string, p: nat): (i: nat)
    requires p <= |s|
    ensures p <= i <= |s|
    ensures forall j :: p <= j < i ==> IsSpace(s[j])
    ensures i < |s| ==> !IsSpace(s[i])
    decreases |s| - p
  {
    if p == |s| || !IsSpace(s[p]) then p else SkipSpace(s, p + 1)
  }

  /** One past the last character before `p` that is not a space. */
  function SkipSpaceBack(s: string, p: nat): (i: nat)
    requires p <= |s|
    ensures i <= p
    ensures forall j :: i <= j < p ==> IsSpace(s[j])
    ensures i > 0 ==> !IsSpace(s[i - 1])
  {
    if p == 0 || !IsSpace(s[p - 1]) then p else SkipSpaceBack(s, p - 1)
  }

  function Trim(s: string): (t: string)
    ensures t == "" <==> Blank(s)
    ensures t != "" ==> !IsSpace(t[0]) && !IsSpace(t[|t| - 1])
  {
    var first := SkipSpace(s, 0);
    if first == |s| then "" else
      var last := SkipSpaceBack(s, |s|);
      assert s[first] == s[first..last][0];
      s[first..last]
  }

  /** The first position from `p` on that holds `c`, or the length of `s`. */
  function FindChar(s: string, p: nat, c: char): (i: nat)
    requires p <= |s|
    ensures p <= i <= |s|
    ensures forall j :: p <= j < i ==> s[j] != c
    ensures i < |s| ==> s[i] == c
    decreases |s| - p
  {
    if p == |s| || s[p] == c then p else FindChar(s, p + 1, c)
  }

  /** What ends an unquoted token: only a comment, unless it is the first token of the line. */
  predicate IsDelimiter(c: char, initial: bool) {
    IsComment(c) || (initial && (IsSpace(c) || c == '='))
  }

  function FindDelimiter(s: string, p: nat, initial: bool): (i: nat)
    requires p <= |s|
    ensures p <= i <= |s|
    ensures forall j :: p <= j < i ==> !IsDelimiter(s[j], initial)
    ensures i < |s| ==> IsDelimiter(s[i], initial)
    decreases |s| - p
  {
    if p == |s| || IsDelimiter(s[p], initial) then p else FindDelimiter(s, p + 1, initial)
  }

  /** Trimming is determined by what is between the spaces. */
  lemma TrimIs(s: string, first: nat, last: nat)
    requires first < last <= |s|
    requires forall j :: 0 <= j < first || last <= j < |s| ==> IsSpace(s[j])
    requires !IsSpace(s[first]) && !IsSpace(s[last - 1])
    ensures Trim(s) == s[first..last]
  {
  }

  lemma TrimAppendSpace(s: string)
    ensures Trim(s + " ") == Trim(s)
  {
    var t := s + " ";
    assert forall j :: 0 <= j < |s| ==> t[j] == s[j];
    if !Blank(s) {
      var first, last := SkipSpace(s, 0), SkipSpaceBack(s, |s|);
      TrimIs(t, first, last);
      assert t[first..last] == s[first..last];
    }
  }

  /** A text that neither starts nor ends with a space is its own trimming. */
  lemma TrimTight(s: string)
    requires s != "" && !IsSpace(s[0]) && !IsSpace(s[|s| - 1])
    ensures Trim(s) == s
  {
    TrimIs(s, 0, |s|);
  }
}
