/** Parsed SDKDB documents, the diagnostics the comparator emits, and the
    outcome of one comparison (a boolean plus what was printed, or a Python
    exception plus what was printed before it). */
module Values {

  /** A JSON scalar. Floating-point numbers are not modelled. */
  datatype Atom = Null | Bool(b: bool) | Num(n: int) | Str(s: string)

  /** A value as `json.load` produces it. A dict keeps its entries in
      insertion order, which is the order Python iterates it in. */
  datatype Tree =
    | Scalar(atom: Atom)
    | List(items: seq<Tree>)
    | Dict(entries: seq<(string, Tree)>)

  /** The Python exceptions the comparator can raise on malformed input. */
  datatype Fault =
    | NotADict        // AttributeError: `.items()`, `.keys()` or `.get` on a non-dict
    | NotIterable     // TypeError: `zip` or `for` over a number, a boolean or null
    | MalformedEntry  // KeyError / TypeError reaching or using `binaryInfo.installName`
    | NoIteritems     // AttributeError: `.iteritems()` does not exist on a Python 3 dict

  datatype Option<T> = None | Some(value: T)

  datatype Result<T> = Ok(value: T) | Err(fault: Fault)

  /** One bracketed segment of a diagnostic's context string. */
  datatype Step =
    | Key(key: string)     // `[<key>]` below a dict entry
    | Index(index: nat)    // `[<index>]` below a list element
    | Named(name: Tree)    // `[<name>]` below a list element that is a dict with a `name`

  type Path = seq<Step>

  /** One printed diagnostic, before rendering to text. */
  datatype Diag =
    | NotEqual(path: Path, base: Tree, value: Tree)  // SDKDB<path> is not equal: <base> vs <value>
    | KeyMissing(key: string, path: Path)             // key <key> missing from dict <path>
    | InLibrary(library: Tree)                        // in library <installName>
    | EntryMissing(name: string)                      // Missing <name> from SDKDB
    | PublicToPrivate                                 // Comparing public to private is not supported
    | TargetMissing(target: string)                   // Target <target> missing from SDKDB

  /** The diagnostics a structural mismatch prints at the failing leaf. */
  predicate Leaf(d: Diag) {
    d.NotEqual? || d.KeyMissing?
  }

  /** What one call did: it returned `ok`, or it raised `fault`; `log` is
      everything it printed, in order. */
  datatype Run =
    | Done(ok: bool, log: seq<Diag>)
    | Raised(fault: Fault, log: seq<Diag>)

  predicate Passed(r: Run) {
    r.Done? && r.ok
  }

  /** `r` preceded by the diagnostics `out` already printed. */
  function Prefix(out: seq<Diag>, r: Run): (r': Run)
    ensures r'.log == out + r.log
    ensures Passed(r') == Passed(r) && r'.Done? == r.Done?
    ensures r'.Raised? ==> r'.fault == r.fault
  {
    match r
    case Done(ok, log) => Done(ok, out + log)
    case Raised(f, log) => Raised(f, out + log)
  }

  lemma PrefixPrefix(a: seq<Diag>, b: seq<Diag>, r: Run)
    ensures Prefix(a, Prefix(b, r)) == Prefix(a + b, r)
  {
    assert a + (b + r.log) == (a + b) + r.log;
  }

  /** Position of the entry with key `k`, the LAST one if there are several
      (a dict built from these pairs keeps the last), or -1 if there is none. */
  function KeyIndex(es: seq<(string, Tree)>, k: string): (j: int)
    ensures -1 <= j < |es|
    ensures j >= 0 ==> es[j].0 == k && forall i :: j < i < |es| ==> es[i].0 != k
    ensures j < 0 ==> forall i :: 0 <= i < |es| ==> es[i].0 != k
  {
    if es == [] then -1
    else if es[|es| - 1].0 == k then |es| - 1
    else KeyIndex(es[..|es| - 1], k)
  }

  /** `d[k]` if `k in d`, as a Python dict gives it. */
  function Find(es: seq<(string, Tree)>, k: string): Option<Tree> {
    var j := KeyIndex(es, k);
    if j < 0 then None else Some(es[j].1)
  }

  /** What Python's `for` and `zip` see when they iterate a value: the
      elements of a list, the keys of a dict, the one-character strings of a
      string; numbers, booleans and null are not iterable. */
  function Iterate(t: Tree): (r: Result<seq<Tree>>)
    ensures r.Err? <==> t.Scalar? && !t.atom.Str?
    ensures r.Err? ==> r.fault == NotIterable
    ensures t.List? ==> r == Ok(t.items)
    ensures t.Dict? ==>
              |r.value| == |t.entries| &&
              forall i :: 0 <= i < |t.entries| ==> r.value[i] == Scalar(Str(t.entries[i].0))
    ensures t.Scalar? && t.atom.Str? ==>
              |r.value| == |t.atom.s| &&
              forall i :: 0 <= i < |t.atom.s| ==> r.value[i] == Scalar(Str([t.atom.s[i]]))
  {
    match t
    case List(xs) => Ok(xs)
    case Dict(es) => Ok(seq(|es|, i requires 0 <= i < |es| => Scalar(Str(es[i].0))))
    case Scalar(Str(s)) => Ok(seq(|s|, i requires 0 <= i < |s| => Scalar(Str([s[i]]))))
    case Scalar(_) => Err(NotIterable)
  }

  /** Python truthiness of a JSON value. */
  predicate Truthy(t: Tree) {
    match t
    case Scalar(Null) => false
    case Scalar(Bool(b)) => b
    case Scalar(Num(n)) => n != 0
    case Scalar(Str(s)) => s != ""
    case List(xs) => xs != []
    case Dict(es) => es != []
  }

  predicate DistinctKeys(es: seq<(string, Tree)>) {
    forall i, j :: 0 <= i < j < |es| ==> es[i].0 != es[j].0
  }

  /** Every dict in `t` has distinct keys, as every value `json.load` returns does. */
  predicate WellFormed(t: Tree) {
    match t
    case Scalar(_) => true
    case List(xs) => forall i :: 0 <= i < |xs| ==> WellFormed(xs[i])
    case Dict(es) => DistinctKeys(es) && forall i :: 0 <= i < |es| ==> WellFormed(es[i].1)
  }
}
