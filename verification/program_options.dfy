/** Options from a configuration file: which keys a description allows, literally or by wildcard prefix. */
module ProgramOptions {
  import opened Wrappers
  import opened PrefixIndex
  import opened IniScript
  import opened IniParser
  import opened IniFiles

  datatype OptionsError =
    | Abbreviated(index: nat)
    | Ambiguous(index: nat, named: string)
    | CannotOpenFile
    | Malformed(failure: Failure)
    | Unknown(key: string)

  /** `allowed_options` and `allowed_prefixes`. */
  datatype Allowed = Allowed(options: set<string>, prefixes: seq<string>)

  datatype ParsedOption = ParsedOption(key: string, value: string, unregistered: bool, originalTokens: seq<string>)

  predicate IsWildcard(name: string) {
    name != "" && name[|name| - 1] == '*'
  }

  function PrefixOf(name: string): string
    requires name != ""
  {
    name[..|name| - 1]
  }

  // ---- registration ----

  /** The wildcard options `j < k` and `k` have prefixes that match the same arguments. */
  predicate Clash(names: seq<string>, j: nat, k: nat)
    requires j < k < |names|
  {
    IsWildcard(names[j]) && IsWildcard(names[k]) && Comparable(PrefixOf(names[k]), PrefixOf(names[j]))
  }

  /** Option `k` cannot be registered after those before it. */
  predicate BadAt(names: seq<string>, k: nat)
    requires k < |names|
  {
    names[k] == "" || exists j :: 0 <= j < k && Clash(names, j, k)
  }

  predicate FirstBad(names: seq<string>, k: nat) {
    k < |names| && BadAt(names, k) && forall i :: 0 <= i < k ==> !BadAt(names, i)
  }

  predicate IsPrefixIn(names: seq<string>, x: string) {
    exists k :: 0 <= k < |names| && IsWildcard(names[k]) && PrefixOf(names[k]) == x
  }

  /** The sets registration builds: all names, and all wildcard prefixes in order and prefix-free. */
  ghost predicate Registered(allowed: Allowed, names: seq<string>) {
    && (forall name :: name in allowed.options <==> name in names)
    && Sorted(allowed.prefixes) && PrefixFree(allowed.prefixes)
    && forall x :: x in allowed.prefixes <==> IsPrefixIn(names, x)
  }

  /** The option the error message puts beside the new one. */
  function NamedBeside(prefixes: seq<string>, prefix: string): string
    requires prefixes != []
  {
    var i := LowerBound(prefixes, prefix);
    if i == 0 then prefixes[0] else prefixes[i - 1]
  }

  /**
   The registration loop: fails at the first option that is empty or clashes with an earlier one, although it
   looks at two neighbours only, and otherwise has built the two sets.
   */
  method Register(names: seq<string>) returns (r: Result<Allowed, OptionsError>)
    ensures r.Ok? ==> Registered(r.value, names) && forall k :: 0 <= k < |names| ==> !BadAt(names, k)
    ensures r.Err? ==> exists k :: FirstBad(names, k)
    ensures r.Err? ==> r.error.Abbreviated? || r.error.Ambiguous?
    ensures r.Err? && r.error.Abbreviated? ==> FirstBad(names, r.error.index) && names[r.error.index] == ""
    ensures r.Err? && r.error.Ambiguous? ==>
      var k := r.error.index;
      && FirstBad(names, k) && names[k] != ""
      && exists before: Allowed :: Registered(before, names[..k]) && before.prefixes != []
                                   && r.error.named == NamedBeside(before.prefixes, PrefixOf(names[k]))
    ensures r.Err? && r.error.Ambiguous? ==>
      var k := r.error.index;
      var p := PrefixOf(names[k]);
      Comparable(p, r.error.named) <==> !(SomeExtends(names[..k], p) && SomeSmaller(names[..k], p))
    ensures (forall k :: 0 <= k < |names| ==> names[k] != "") ==>
      (r.Err? <==> exists j, k :: 0 <= j < k < |names| && Clash(names, j, k))
  {
    var allowed := Allowed({}, []);
    var k := 0;
    while k < |names|
      invariant k <= |names|
      invariant Registered(allowed, names[..k])
      invariant forall i :: 0 <= i < k ==> !BadAt(names, i)
    {
      var name := names[k];
      if name == "" {
        assert FirstBad(names, k);
        return Err(Abbreviated(k));
      }
      ghost var before := allowed;
      allowed := allowed.(options := allowed.options + {name});
      if name[|name| - 1] == '*' {
        var prefix := name[..|name| - 1];
        var bad, named := CheckNeighbours(allowed.prefixes, prefix);
        BadIffComparable(before, names, k);
        if bad {
          assert FirstBad(names, k);
          BlameIsRight(before, names, k);
          ClashesAreBad(names);
          return Err(Ambiguous(k, named));
        }
        allowed := allowed.(prefixes := Insert(allowed.prefixes, prefix));
      } else {
        NotWildcardNotBad(names, k);
      }
      RegisterOne(before, allowed, names, k);
      k := k + 1;
    }
    assert names[..k] == names;
    ClashesAreBad(names);
    return Ok(allowed);
  }

  /** Whether any element clashes with the prefix, from a look at its lower bound and the element before it. */
  method CheckNeighbours(prefixes: seq<string>, prefix: string) returns (bad: bool, named: string)
    requires Sorted(prefixes) && PrefixFree(prefixes)
    ensures bad <==> exists j :: 0 <= j < |prefixes| && Comparable(prefix, prefixes[j])
    ensures bad ==> prefixes != [] && named == NamedBeside(prefixes, prefix)
  {
    NeighboursDecide(prefixes, prefix);
    bad, named := false, "";
    var i := LowerBound(prefixes, prefix);
    if i != |prefixes| {
      if prefix <= prefixes[i] {
        bad := true;
      }
    }
    if i != 0 {
      i := i - 1;
      if prefixes[i] <= prefix {
        bad := true;
      }
    }
    if bad {
      named := prefixes[i];
    }
  }

  lemma NotWildcardNotBad(names: seq<string>, k: nat)
    requires k < |names| && names[k] != "" && !IsWildcard(names[k])
    ensures !BadAt(names, k)
  {
  }

  /** An option clashes with an earlier one exactly when its prefix is comparable with a registered one. */
  lemma BadIffComparable(before: Allowed, names: seq<string>, k: nat)
    requires k < |names| && IsWildcard(names[k]) && Registered(before, names[..k])
    ensures BadAt(names, k) <==>
              exists j :: 0 <= j < |before.prefixes| && Comparable(PrefixOf(names[k]), before.prefixes[j])
  {
    var prefix := PrefixOf(names[k]);
    var s := before.prefixes;
    if j :| 0 <= j < |s| && Comparable(prefix, s[j]) {
      assert s[j] in s && IsPrefixIn(names[..k], s[j]);
      var i :| 0 <= i < k && IsWildcard(names[..k][i]) && PrefixOf(names[..k][i]) == s[j];
      assert Clash(names, i, k);
    }
    if i :| 0 <= i < k && Clash(names, i, k) {
      assert names[..k][i] == names[i];
      assert IsPrefixIn(names[..k], PrefixOf(names[i]));
      var j :| 0 <= j < |s| && s[j] == PrefixOf(names[i]);
      assert Comparable(prefix, s[j]);
    }
  }

  /** One more option that clashes with none keeps the two sets right. */
  lemma RegisterOne(before: Allowed, after: Allowed, names: seq<string>, k: nat)
    requires k < |names| && names[k] != "" && Registered(before, names[..k])
    requires after.options == before.options + {names[k]}
    requires if IsWildcard(names[k])
             then !BadAt(names, k)
                  && after.prefixes == Insert(before.prefixes, PrefixOf(names[k]))
             else after.prefixes == before.prefixes
    ensures Registered(after, names[..k + 1])
  {
    var all := names[..k + 1];
    assert all == names[..k] + [names[k]];
    forall x
      ensures IsPrefixIn(all, x) <==> IsPrefixIn(names[..k], x) || (IsWildcard(names[k]) && x == PrefixOf(names[k]))
    {
      PrefixInAppend(names[..k], names[k], x);
    }
    if IsWildcard(names[k]) {
      BadIffComparable(before, names, k);
      NeighboursDecide(before.prefixes, PrefixOf(names[k]));
      InsertKeeps(before.prefixes, PrefixOf(names[k]));
    }
  }

  lemma PrefixInAppend(names: seq<string>, name: string, x: string)
    ensures IsPrefixIn(names + [name], x) <==> IsPrefixIn(names, x) || (IsWildcard(name) && x == PrefixOf(name))
  {
    var all := names + [name];
    if i :| 0 <= i < |names| && IsWildcard(names[i]) && PrefixOf(names[i]) == x {
      assert all[i] == names[i];
    }
    if IsWildcard(name) && x == PrefixOf(name) {
      assert all[|names|] == name;
    }
    if i :| 0 <= i < |all| && IsWildcard(all[i]) && PrefixOf(all[i]) == x {
      assert i < |names| ==> names[i] == all[i];
    }
  }

  /** With all names non-empty some option is bad exactly when two clash. */
  lemma ClashesAreBad(names: seq<string>)
    ensures (forall k :: 0 <= k < |names| ==> names[k] != "") ==>
              ((exists k :: 0 <= k < |names| && BadAt(names, k)) <==> exists j, k :: 0 <= j < k < |names| && Clash(names, j, k))
  {
    if j, k :| 0 <= j < k < |names| && Clash(names, j, k) {
      assert BadAt(names, k);
    }
  }

  // ---- the option the message names ----

  /** Some earlier wildcard has a prefix that extends `p`. */
  predicate SomeExtends(names: seq<string>, p: string) {
    exists j :: 0 <= j < |names| && IsWildcard(names[j]) && p <= PrefixOf(names[j])
  }

  /** Some earlier wildcard has a prefix that comes before `p`. */
  predicate SomeSmaller(names: seq<string>, p: string) {
    exists j :: 0 <= j < |names| && IsWildcard(names[j]) && Less(PrefixOf(names[j]), p)
  }

  lemma ElementsArePrefixes(before: Allowed, names: seq<string>, p: string)
    requires Registered(before, names)
    ensures SomeExtends(names, p) <==> exists i :: 0 <= i < |before.prefixes| && p <= before.prefixes[i]
    ensures SomeSmaller(names, p) <==> exists i :: 0 <= i < |before.prefixes| && Less(before.prefixes[i], p)
  {
    var s := before.prefixes;
    forall j | 0 <= j < |names| && IsWildcard(names[j])
      ensures PrefixOf(names[j]) in s
    {
      assert IsPrefixIn(names, PrefixOf(names[j]));
    }
    forall i | 0 <= i < |s|
      ensures exists j :: 0 <= j < |names| && IsWildcard(names[j]) && PrefixOf(names[j]) == s[i]
    {
      assert s[i] in s && IsPrefixIn(names, s[i]);
    }
  }

  /**
   For an option that clashes, the message names one it really clashes with, unless some earlier wildcard extends
   its prefix and some earlier wildcard comes before it: then it names the one before.
   */
  lemma {:induction false} BlameIsRight(before: Allowed, names: seq<string>, k: nat)
    requires k < |names| && IsWildcard(names[k]) && BadAt(names, k) && Registered(before, names[..k])
    ensures before.prefixes != []
    ensures var p := PrefixOf(names[k]);
            Comparable(p, NamedBeside(before.prefixes, p)) <==> !(SomeExtends(names[..k], p) && SomeSmaller(names[..k], p))
  {
    var p, s := PrefixOf(names[k]), before.prefixes;
    BadIffComparable(before, names, k);
    NeighboursDecide(s, p);
    SuccessorDecides(s, p);
    ElementsArePrefixes(before, names[..k], p);
    NeighbourBlame(s, p);
  }

  lemma NeighbourBlame(s: seq<string>, p: string)
    requires Sorted(s) && PrefixFree(s) && (SuccessorExtends(s, p) || PredecessorIsPrefix(s, p))
    ensures Comparable(p, NamedBeside(s, p))
            <==> !(SuccessorExtends(s, p) && exists i :: 0 <= i < |s| && Less(s[i], p))
  {
    var i := LowerBound(s, p);
    if j :| 0 <= j < |s| && Less(s[j], p) {
      if i <= j {
        SortedNotBefore(s, p, j);
      }
    }
    if i > 0 {
      assert Less(s[i - 1], p);
      NotLess(p, s[i - 1]);
      NotExtendedByPredecessor(p, s[i - 1]);
    }
  }

  lemma NotExtendedByPredecessor(p: string, x: string)
    requires Less(x, p)
    ensures !(p <= x)
  {
    if p <= x {
      PrefixOrEqual(p, x);
      LessIrreflexive(p);
      if p < x {
        PrefixIsLess(p, x);
        NotLess(p, x);
      }
    }
  }

  /** Registering "a*", "bc*", "b*" fails because of "bc*" and blames "a*". */
  lemma BlameCanBeWrong(before: Allowed)
    requires Registered(before, ["a*", "bc*", "b*"][..2])
    ensures var names := ["a*", "bc*", "b*"];
            && FirstBad(names, 2) && Clash(names, 1, 2) && !Clash(names, 0, 2)
            && before.prefixes != [] && NamedBeside(before.prefixes, "b") == "a"
  {
    var names := ["a*", "bc*", "b*"];
    assert PrefixOf("a*") == "a" && PrefixOf("bc*") == "bc" && PrefixOf("b*") == "b";
    assert "a"[0] != "bc"[0] && "a"[0] != "b"[0] && "bc"[0] == "b"[0];
    assert Clash(names, 1, 2);
    assert !Clash(names, 0, 1);
    assert names[..2][0] == "a*" && names[..2][1] == "bc*";
    TwoPrefixes(before.prefixes, names[..2]);
    var s := before.prefixes;
    assert Less("a", "b");
    PrefixIsLess("b", "bc");
    NotLess("bc", "b");
    var i := LowerBound(s, "b");
    var ia :| 0 <= ia < |s| && s[ia] == "a";
    if i == 0 {
      SortedNotBefore(s, "b", ia);
    } else {
      assert s[i - 1] in s;
    }
  }

  lemma TwoPrefixes(prefixes: seq<string>, names: seq<string>)
    requires names == ["a*", "bc*"]
    requires forall x :: x in prefixes <==> IsPrefixIn(names, x)
    ensures "a" in prefixes && forall x :: x in prefixes ==> x == "a" || x == "bc"
  {
    assert PrefixOf(names[0]) == "a" && PrefixOf(names[1]) == "bc";
    assert IsPrefixIn(names, "a");
  }

  /** What is not below the lower bound is not less than the key. */
  lemma SortedNotBefore(s: seq<string>, key: string, j: nat)
    requires Sorted(s) && LowerBound(s, key) <= j < |s|
    ensures !Less(s[j], key)
  {
    var i := LowerBound(s, key);
    if i < j && Less(s[j], key) {
      LessTransitive(s[i], s[j], key);
    }
  }

  // ---- lookup ----

  /** The plain meaning: the key is an option, or a proper prefix of it with a star behind it is one. */
  predicate Matches(names: seq<string>, key: string) {
    key in names || exists i :: 0 <= i < |key| && key[..i] + "*" in names
  }

  lemma MatchesWildcard(names: seq<string>, key: string)
    ensures (exists i :: 0 <= i < |key| && key[..i] + "*" in names)
            <==> exists k :: 0 <= k < |names| && IsWildcard(names[k]) && PrefixOf(names[k]) < key
  {
    if i :| 0 <= i < |key| && key[..i] + "*" in names {
      var k :| 0 <= k < |names| && names[k] == key[..i] + "*";
      assert PrefixOf(names[k]) == key[..i];
    }
    if k :| 0 <= k < |names| && IsWildcard(names[k]) && PrefixOf(names[k]) < key {
      assert names[k] == key[..|PrefixOf(names[k])|] + "*";
    }
  }

  /** Two wildcards clash when the one text in front of the star is a prefix of the other. */
  lemma {:induction false} ClashMeans(names: seq<string>, j: nat, k: nat)
    requires j < k < |names|
    ensures Clash(names, j, k) <==> exists p, q :: names[j] == p + "*" && names[k] == q + "*" && (p <= q || q <= p)
  {
    if Clash(names, j, k) {
      var p, q := PrefixOf(names[j]), PrefixOf(names[k]);
      assert names[j] == p + "*" && names[k] == q + "*";
    }
    if p, q :| names[j] == p + "*" && names[k] == q + "*" && (p <= q || q <= p) {
      assert PrefixOf(names[j]) == p && PrefixOf(names[k]) == q;
    }
  }

  /** The lookup of `parse_ini`. */
  predicate IsRegistered(allowed: Allowed, key: string) {
    key in allowed.options || PredecessorIsPrefix(allowed.prefixes, key)
  }

  /** Looking at the predecessor alone agrees with trying every option. */
  lemma {:induction false} LookupAgrees(allowed: Allowed, names: seq<string>, key: string)
    requires Registered(allowed, names)
    ensures IsRegistered(allowed, key) <==> Matches(names, key)
  {
    var s := allowed.prefixes;
    PredecessorDecides(s, key);
    MatchesWildcard(names, key);
    if j :| 0 <= j < |s| && s[j] < key {
      assert s[j] in s && IsPrefixIn(names, s[j]);
    }
    if k :| 0 <= k < |names| && IsWildcard(names[k]) && PrefixOf(names[k]) < key {
      assert IsPrefixIn(names, PrefixOf(names[k]));
      assert PrefixOf(names[k]) in s;
    }
  }

  function Convert(allowed: Allowed, pairs: seq<Pair>, allowUnregistered: bool): Result<seq<ParsedOption>, OptionsError> {
    if pairs == [] then Ok([])
    else
      var pair := pairs[0];
      var registered := IsRegistered(allowed, pair.key);
      if !registered && !allowUnregistered then Err(Unknown(pair.key))
      else
        var rest := Convert(allowed, pairs[1..], allowUnregistered);
        if rest.Err? then rest
        else Ok([ParsedOption(pair.key, pair.value, !registered, [pair.key, pair.value])] + rest.value)
  }

  /** Option `i` stands for pair `i`, flagged when no option of the description matches it. */
  predicate Stands(names: seq<string>, pair: Pair, option: ParsedOption) {
    && option.key == pair.key && option.value == pair.value
    && option.originalTokens == [pair.key, pair.value]
    && (option.unregistered <==> !Matches(names, pair.key))
  }

  /** Pair `i` is the first whose key no option matches. */
  ghost predicate FirstUnmatched(names: seq<string>, pairs: seq<Pair>, i: nat) {
    && i < |pairs| && !Matches(names, pairs[i].key)
    && forall j :: 0 <= j < i ==> Matches(names, pairs[j].key)
  }

  ghost predicate AllMatch(names: seq<string>, pairs: seq<Pair>) {
    forall i :: 0 <= i < |pairs| ==> Matches(names, pairs[i].key)
  }

  /**
   Every pair is kept, in order, with the right flag; the exception is thrown exactly when unregistered keys are
   not allowed and there is one, and names the first.
   */
  lemma {:induction false} ConvertKeepsPairs(allowed: Allowed, names: seq<string>, pairs: seq<Pair>, allowUnregistered: bool)
    requires Registered(allowed, names)
    ensures var r := Convert(allowed, pairs, allowUnregistered);
            && (r.Ok? <==> allowUnregistered || AllMatch(names, pairs))
            && (r.Ok? ==> |r.value| == |pairs| && forall i :: 0 <= i < |pairs| ==> Stands(names, pairs[i], r.value[i]))
            && (r.Err? ==> exists i: nat :: FirstUnmatched(names, pairs, i) && r.error == Unknown(pairs[i].key))
    decreases |pairs|
  {
    if pairs != [] {
      var rest := pairs[1..];
      LookupAgrees(allowed, names, pairs[0].key);
      ConvertKeepsPairs(allowed, names, rest, allowUnregistered);
      assert forall i :: 1 <= i < |pairs| ==> pairs[i] == rest[i - 1];
      if !Matches(names, pairs[0].key) {
        assert FirstUnmatched(names, pairs, 0);
      } else if i: nat :| FirstUnmatched(names, rest, i) && Convert(allowed, rest, allowUnregistered) == Err(Unknown(rest[i].key)) {
        assert FirstUnmatched(names, pairs, i + 1);
      }
    }
  }

  // ---- the whole ----

  ghost predicate Registrable(names: seq<string>) {
    forall k :: 0 <= k < |names| ==> !BadAt(names, k)
  }

  /** Which exception is thrown: options first, then the file, then its contents, then its keys. */
  ghost predicate Explains(e: OptionsError, fs: FileSystem, file: Option<Path>, names: seq<string>)
    requires file.Some? ==> file.value in fs.files
  {
    match e
    case Abbreviated(k) => FirstBad(names, k) && names[k] == ""
    case Ambiguous(k, _) => FirstBad(names, k) && names[k] != ""
    case CannotOpenFile => Registrable(names) && file.None?
    case Malformed(f) =>
      Registrable(names) && file.Some? && Read(LibraryOf(fs), file.value, Script(fs.files[file.value])) == Err(f)
    case Unknown(key) =>
      Registrable(names) && file.Some?
      && var pairs := Read(LibraryOf(fs), file.value, Script(fs.files[file.value]));
         pairs.Ok? && exists i: nat :: FirstUnmatched(names, pairs.value, i) && key == pairs.value[i].key
  }

  /** `parse_ini`: `file` is the canonical path of the configuration file if it can be opened. */
  method ParseIni(fs: FileSystem, file: Option<Path>, names: seq<string>, allowUnregistered: bool)
    returns (r: Result<seq<ParsedOption>, OptionsError>)
    requires file.Some? ==> file.value in fs.files
    ensures r.Ok? <==>
      && Registrable(names)
      && file.Some?
      && var pairs := Read(LibraryOf(fs), file.value, Script(fs.files[file.value]));
         pairs.Ok? && (allowUnregistered || AllMatch(names, pairs.value))
    ensures r.Ok? ==>
      var pairs := Read(LibraryOf(fs), file.value, Script(fs.files[file.value])).value;
      |r.value| == |pairs| && forall i :: 0 <= i < |pairs| ==> Stands(names, pairs[i], r.value[i])
    ensures r.Err? ==> Explains(r.error, fs, file, names)
  {
    var allowed := Register(names);
    if allowed.Err? {
      return Err(allowed.error);
    }
    if file.None? {
      return Err(CannotOpenFile);
    }
    var pairs := ParseFile(fs, file.value);
    if pairs.Err? {
      return Err(Malformed(pairs.error));
    }
    ConvertKeepsPairs(allowed.value, names, pairs.value, allowUnregistered);
    return Convert(allowed.value, pairs.value, allowUnregistered);
  }
}
