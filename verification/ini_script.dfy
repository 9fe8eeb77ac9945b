/**
 What a file of statements means, includes and all.

 A script is the statements of a file, line by line. Expanding a script yields its pairs, with each include
 expanded in place, or the first failure.
 */
module IniScript {
  import opened Wrappers
  import opened IniTokenizer
  import opened IniStatement

  type Path = string

  datatype Pair = Pair(key: string, value: string)

  /**
   The scripts by canonical path, and what a name in an include directive of a given file leads to: the canonical
   path, if there is one. A path without a file behind it cannot be opened.
   */
  datatype Library = Library(scripts: map<Path, seq<Statement>>, resolve: (Path, string) -> Option<Path>) {
    function Open(from: Path, name: string): (r: Option<Path>)
      ensures r.Some? ==> r.value in scripts
    {
      match resolve(from, name)
      case Some(p) => if p in scripts then Some(p) else None
      case None => None
    }
  }

  /** Line numbers from the outermost file inwards, and what is wrong with the innermost line. */
  datatype Failure = Failure(lines: seq<nat>, problem: Problem)

  function Top(stack: seq<Path>): Path
    requires stack != []
  {
    stack[|stack| - 1]
  }

  function SetOf(stack: seq<Path>): set<Path> {
    set p | p in stack
  }

  /** How many files may still be entered: the measure of the recursion. */
  function Room(lib: Library, stack: seq<Path>): nat {
    |lib.scripts.Keys - SetOf(stack)|
  }

  /** Entering a file that is not on the stack leaves fewer to enter. */
  lemma RoomShrinks(lib: Library, stack: seq<Path>, p: Path)
    requires p in lib.scripts && p !in stack
    ensures Room(lib, stack + [p]) < Room(lib, stack)
  {
    var a, b := lib.scripts.Keys - SetOf(stack), lib.scripts.Keys - SetOf(stack + [p]);
    assert b <= a && p in a && p !in b;
    SubsetSmaller(b, a);
  }

  lemma SubsetSmaller(b: set<Path>, a: set<Path>)
    requires b < a
    ensures |b| < |a|
  {
    assert a == b + (a - b);
    assert |a| == |b| + |a - b|;
  }

  /** The pairs read, up to the first failure if there is one. */
  datatype Expansion = Expansion(pairs: seq<Pair>, failure: Option<Failure>)

  predicate Succeeds(e: Expansion) {
    e.failure.None?
  }

  function After(pairs: seq<Pair>, rest: Expansion): Expansion {
    Expansion(pairs + rest.pairs, rest.failure)
  }

  /** What the statements of the file on top of the stack contribute, from line `n` on and inside section `prefix`. */
  function Expand(lib: Library, stack: seq<Path>, prefix: string, script: seq<Statement>, n: nat): Expansion
    requires stack != []
    decreases Room(lib, stack), |script|, 2
  {
    if script == [] then Expansion([], None)
    else
      var first := ExpandStatement(lib, stack, prefix, script[0], n);
      if first.failure.Some? then first
      else After(first.pairs, Expand(lib, stack, PrefixAfter(prefix, script[0]), script[1..], n + 1))
  }

  /** The section after a line: only a section line changes it. */
  function PrefixAfter(prefix: string, s: Statement): string {
    if s.Section? then s.prefix else prefix
  }

  function ExpandStatement(lib: Library, stack: seq<Path>, prefix: string, s: Statement, n: nat): Expansion
    requires stack != []
    decreases Room(lib, stack), 0, 1
  {
    match s
    case Nothing => Expansion([], None)
    case Section(_) => Expansion([], None)
    case Entry(key, value) => Expansion([Pair(prefix + key, value)], None)
    case Reject(problem) => Expansion([], Some(Failure([n], problem)))
    case Include(name) => ExpandInclude(lib, stack, name, n)
  }

  function ExpandInclude(lib: Library, stack: seq<Path>, name: string, n: nat): Expansion
    requires stack != []
    decreases Room(lib, stack), 0, 0
  {
    match lib.Open(Top(stack), name)
    case None => Expansion([], Some(Failure([n], CannotOpen(name))))
    case Some(p) =>
      if p in stack then Expansion([], Some(Failure([n], IncludeCycle(name))))
      else
        RoomShrinks(lib, stack, p);
        var inner := Expand(lib, stack + [p], "", lib.scripts[p], 1);
        if inner.failure.Some? then
          Expansion(inner.pairs, Some(Failure([n] + inner.failure.value.lines, inner.failure.value.problem)))
        else inner
  }

  /** The result of reading a script as a file of its own. */
  function Read(lib: Library, path: Path, script: seq<Statement>): Result<seq<Pair>, Failure> {
    var e := Expand(lib, [path], "", script, 1);
    if e.failure.Some? then Err(e.failure.value) else Ok(e.pairs)
  }
}
