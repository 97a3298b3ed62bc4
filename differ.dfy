/** The generic structural differ, `SDKDBComparator` in
    utils/compare_sdkdb.py: it walks a baseline and a candidate value
    together, chooses its rule by the kind of the CANDIDATE value, stops at
    the first mismatch and prints one diagnostic for it. */
module Differ {
  import opened Values

  /** The context label of list position `i` whose candidate element is `v`:
      the element's `name` when it is a dict that has one, else the index. */
  function Label(v: Tree, i: nat): (l: Step)
    ensures l.Named? <==> v.Dict? && KeyIndex(v.entries, "name") >= 0
    ensures l.Named? ==> l.name == v.entries[KeyIndex(v.entries, "name")].1
    ensures l.Index? ==> l.index == i
  {
    match v
    case Dict(es) => (match Find(es, "name") case Some(n) => Named(n) case None => Index(i))
    case _ => Index(i)
  }

  /** `SDKDBComparator.diff`: dispatch on the candidate's kind, falling back
      to the scalar rule `diff_builtin`. The result is a pass with nothing
      printed, a failure with exactly one leaf diagnostic under `path`, or an
      exception with nothing printed. */
  function Diff(base: Tree, value: Tree, path: Path): (r: Run)
    decreases value, 1
    ensures Passed(r) || r.Raised? ==> r.log == []
    ensures r.Done? && !r.ok ==> |r.log| == 1 && Leaf(r.log[0]) && path <= r.log[0].path
  {
    match value
    case Dict(ves) =>
      if base.Dict? then DiffDict(base.entries, ves, path) else Raised(NotADict, [])
    case List(vs) =>
      (match Iterate(base)
       case Ok(xs) => DiffList(xs, vs, path, 0)
       case Err(f) => Raised(f, []))
    case Scalar(_) =>
      if base != value then Done(false, [NotEqual(path, base, value)]) else Done(true, [])
  }

  /** `diff_dict`: the baseline's entries, in order, each looked up in the
      candidate; the first missing key or failing entry ends the walk. */
  function DiffDict(bes: seq<(string, Tree)>, ves: seq<(string, Tree)>, path: Path): (r: Run)
    decreases Dict(ves), 0, |bes|
    ensures Passed(r) || r.Raised? ==> r.log == []
    ensures r.Done? && !r.ok ==> |r.log| == 1 && Leaf(r.log[0]) && path <= r.log[0].path
  {
    if bes == [] then Done(true, [])
    else
      var k := bes[0].0;
      var j := KeyIndex(ves, k);
      if j < 0 then Done(false, [KeyMissing(k, path)])
      else
        var r := Diff(bes[0].1, ves[j].1, path + [Key(k)]);
        if Passed(r) then DiffDict(bes[1..], ves, path) else r
  }

  /** `diff_list` from position `i` on: the two lists pairwise, as `zip`
      pairs them, up to the shorter length. */
  function DiffList(xs: seq<Tree>, vs: seq<Tree>, path: Path, i: nat): (r: Run)
    decreases List(vs), 0, |vs| - i
    ensures Passed(r) || r.Raised? ==> r.log == []
    ensures r.Done? && !r.ok ==> |r.log| == 1 && Leaf(r.log[0]) && path <= r.log[0].path
  {
    if i >= |xs| || i >= |vs| then Done(true, [])
    else
      var r := Diff(xs[i], vs[i], path + [Label(vs[i], i)]);
      if Passed(r) then DiffList(xs, vs, path, i + 1) else r
  }

  /** When the candidate `value` matches the baseline `base`, stated without
      any order of visiting: every baseline key of a dict is in the candidate
      and its entries agree; lists agree position by position up to the
      shorter length; scalars are equal. */
  predicate Agrees(base: Tree, value: Tree)
    decreases value, 2
  {
    match value
    case Scalar(_) => base == value
    case Dict(ves) => base.Dict? && EntriesAgree(base.entries, ves)
    case List(vs) =>
      (match Iterate(base)
       case Ok(xs) => ItemsAgree(xs, vs)
       case Err(_) => false)
  }

  predicate EntryAgrees(be: (string, Tree), ves: seq<(string, Tree)>)
    decreases Dict(ves), 0
  {
    var j := KeyIndex(ves, be.0);
    j >= 0 && Agrees(be.1, ves[j].1)
  }

  predicate EntriesAgree(bes: seq<(string, Tree)>, ves: seq<(string, Tree)>)
    decreases Dict(ves), 1
  {
    forall i :: 0 <= i < |bes| ==> EntryAgrees(bes[i], ves)
  }

  predicate ItemsAgree(xs: seq<Tree>, vs: seq<Tree>)
    decreases List(vs), 0
  {
    forall i :: 0 <= i < |xs| && i < |vs| ==> Agrees(xs[i], vs[i])
  }

  // ---------------------------------------------------------------------
  // The early-return walk decides exactly the order-free relation Agrees.

  lemma {:induction false} DiffIsAgrees(base: Tree, value: Tree, path: Path)
    decreases value, 2
    ensures Passed(Diff(base, value, path)) <==> Agrees(base, value)
  {
    match value
    case Scalar(_) =>
    case Dict(ves) =>
      if base.Dict? { DiffDictIsAgrees(base.entries, ves, path); }
    case List(vs) =>
      match Iterate(base)
      case Ok(xs) => DiffListIsAgrees(xs, vs, path, 0);
      case Err(_) =>
  }

  lemma {:induction false} DiffDictIsAgrees(bes: seq<(string, Tree)>, ves: seq<(string, Tree)>, path: Path)
    decreases Dict(ves), 1, |bes|
    ensures Passed(DiffDict(bes, ves, path)) <==> EntriesAgree(bes, ves)
  {
    if bes != [] {
      var j := KeyIndex(ves, bes[0].0);
      if j >= 0 {
        DiffIsAgrees(bes[0].1, ves[j].1, path + [Key(bes[0].0)]);
        DiffDictIsAgrees(bes[1..], ves, path);
        assert forall i :: 1 <= i < |bes| ==> bes[i] == bes[1..][i - 1];
      }
    }
  }

  lemma {:induction false} DiffListIsAgrees(xs: seq<Tree>, vs: seq<Tree>, path: Path, i: nat)
    decreases List(vs), 1, |vs| - i
    ensures Passed(DiffList(xs, vs, path, i)) <==>
            forall j :: i <= j < |xs| && j < |vs| ==> Agrees(xs[j], vs[j])
  {
    if i < |xs| && i < |vs| {
      DiffIsAgrees(xs[i], vs[i], path + [Label(vs[i], i)]);
      DiffListIsAgrees(xs, vs, path, i + 1);
    }
  }

  // ---------------------------------------------------------------------
  // Reflexivity.

  lemma {:induction false} AgreesReflexive(x: Tree)
    requires WellFormed(x)
    ensures Agrees(x, x)
  {
    match x
    case Scalar(_) =>
    case List(xs) =>
      forall i | 0 <= i < |xs| ensures Agrees(xs[i], xs[i]) {
        AgreesReflexive(xs[i]);
      }
    case Dict(es) =>
      forall i | 0 <= i < |es| ensures EntryAgrees(es[i], es) {
        assert KeyIndex(es, es[i].0) == i;
        AgreesReflexive(es[i].1);
      }
  }

  /** A document compared with itself passes and prints nothing. */
  lemma DiffReflexive(x: Tree, path: Path)
    requires WellFormed(x)
    ensures Diff(x, x, path) == Done(true, [])
  {
    AgreesReflexive(x);
    DiffIsAgrees(x, x, path);
  }

  // ---------------------------------------------------------------------
  // The dict rule is driven by the baseline.

  lemma {:induction false} DiffDictBaselineKeys(bes: seq<(string, Tree)>, ves1: seq<(string, Tree)>,
                                                ves2: seq<(string, Tree)>, path: Path)
    requires forall i :: 0 <= i < |bes| ==> Find(ves1, bes[i].0) == Find(ves2, bes[i].0)
    ensures DiffDict(bes, ves1, path) == DiffDict(bes, ves2, path)
    decreases |bes|
  {
    if bes != [] {
      assert Find(ves1, bes[0].0) == Find(ves2, bes[0].0);
      assert forall i :: 0 <= i < |bes[1..]| ==> bes[1..][i] == bes[i + 1];
      DiffDictBaselineKeys(bes[1..], ves1, ves2, path);
    }
  }

  /** Only the candidate's entries at the baseline's keys matter: two
      candidate dicts that agree there give the same outcome and the same
      diagnostics. In particular an empty baseline dict passes against any
      candidate dict. */
  lemma DictDependsOnBaselineKeysOnly(bes: seq<(string, Tree)>, ves1: seq<(string, Tree)>,
                                      ves2: seq<(string, Tree)>, path: Path)
    requires forall i :: 0 <= i < |bes| ==> Find(ves1, bes[i].0) == Find(ves2, bes[i].0)
    ensures Diff(Dict(bes), Dict(ves1), path) == Diff(Dict(bes), Dict(ves2), path)
    ensures Diff(Dict([]), Dict(ves1), path) == Done(true, [])
  {
    DiffDictBaselineKeys(bes, ves1, ves2, path);
  }

  lemma KeyIndexAppend(ves: seq<(string, Tree)>, extra: seq<(string, Tree)>, k: string)
    requires forall j :: 0 <= j < |extra| ==> extra[j].0 != k
    ensures KeyIndex(ves + extra, k) == KeyIndex(ves, k)
  {
    var j, j' := KeyIndex(ves + extra, k), KeyIndex(ves, k);
    if j >= 0 {
      assert (ves + extra)[j] == ves[j];
    }
    if j' >= 0 {
      assert (ves + extra)[j'] == ves[j'];
    }
  }

  /** Keys that only the candidate has are never looked at. */
  lemma DictIgnoresExtraCandidateKeys(bes: seq<(string, Tree)>, ves: seq<(string, Tree)>,
                                      extra: seq<(string, Tree)>, path: Path)
    requires forall i, j :: 0 <= i < |bes| && 0 <= j < |extra| ==> bes[i].0 != extra[j].0
    ensures Diff(Dict(bes), Dict(ves + extra), path) == Diff(Dict(bes), Dict(ves), path)
  {
    forall i | 0 <= i < |bes| ensures Find(ves + extra, bes[i].0) == Find(ves, bes[i].0) {
      KeyIndexAppend(ves, extra, bes[i].0);
    }
    DiffDictBaselineKeys(bes, ves + extra, ves, path);
  }

  lemma {:induction false} DiffDictFirstFailure(bes: seq<(string, Tree)>, ves: seq<(string, Tree)>,
                                                path: Path, j: nat)
    requires j < |bes|
    requires forall i :: 0 <= i < j ==> EntryAgrees(bes[i], ves)
    requires !EntryAgrees(bes[j], ves)
    ensures var k := bes[j].0;
            var m := KeyIndex(ves, k);
            DiffDict(bes, ves, path) ==
              if m < 0 then Done(false, [KeyMissing(k, path)])
              else Diff(bes[j].1, ves[m].1, path + [Key(k)])
    decreases j
  {
    var m := KeyIndex(ves, bes[0].0);
    if m >= 0 {
      DiffIsAgrees(bes[0].1, ves[m].1, path + [Key(bes[0].0)]);
    }
    if j > 0 {
      assert forall i :: 0 <= i < |bes[1..]| ==> bes[1..][i] == bes[i + 1];
      DiffDictFirstFailure(bes[1..], ves, path, j - 1);
    }
  }

  /** The first baseline entry (in the baseline's order) whose key is missing
      from the candidate, or whose values disagree, decides the outcome: a
      missing key fails with `key <k> missing from dict <path>`; otherwise the
      outcome is that of the entry's recursive comparison under `[k]`. */
  lemma DictStopsAtFirstFailure(bes: seq<(string, Tree)>, ves: seq<(string, Tree)>, path: Path, j: nat)
    requires j < |bes|
    requires forall i :: 0 <= i < j ==> EntryAgrees(bes[i], ves)
    requires !EntryAgrees(bes[j], ves)
    ensures var k := bes[j].0;
            var m := KeyIndex(ves, k);
            Diff(Dict(bes), Dict(ves), path) ==
              if m < 0 then Done(false, [KeyMissing(k, path)])
              else Diff(bes[j].1, ves[m].1, path + [Key(k)])
    ensures !Passed(Diff(Dict(bes), Dict(ves), path))
  {
    DiffDictFirstFailure(bes, ves, path, j);
    DiffIsAgrees(Dict(bes), Dict(ves), path);
  }

  // ---------------------------------------------------------------------
  // The list rule is positional and stops at the shorter length.

  lemma {:induction false} DiffListFirstFailure(xs: seq<Tree>, vs: seq<Tree>, path: Path, i: nat, j: nat)
    requires i <= j < |xs| && j < |vs|
    requires forall n :: i <= n < j ==> Agrees(xs[n], vs[n])
    requires !Agrees(xs[j], vs[j])
    ensures DiffList(xs, vs, path, i) == Diff(xs[j], vs[j], path + [Label(vs[j], j)])
    decreases j - i
  {
    DiffIsAgrees(xs[i], vs[i], path + [Label(vs[i], i)]);
    if i < j {
      DiffListFirstFailure(xs, vs, path, i + 1, j);
    }
  }

  /** The first position whose elements disagree decides the outcome, and
      the context there is `[name]` when the candidate element is a dict with
      a `name` entry, `[index]` otherwise. */
  lemma ListStopsAtFirstFailure(xs: seq<Tree>, vs: seq<Tree>, path: Path, j: nat)
    requires j < |xs| && j < |vs|
    requires forall n :: 0 <= n < j ==> Agrees(xs[n], vs[n])
    requires !Agrees(xs[j], vs[j])
    ensures Diff(List(xs), List(vs), path) ==
            Diff(xs[j], vs[j], path + [if vs[j].Dict? && Find(vs[j].entries, "name").Some?
                                       then Named(Find(vs[j].entries, "name").value)
                                       else Index(j)])
  {
    DiffListFirstFailure(xs, vs, path, 0, j);
  }

  lemma {:induction false} DiffListTruncate(xs: seq<Tree>, vs: seq<Tree>, path: Path, i: nat, n: nat)
    requires n <= |xs| && n <= |vs| && (n == |xs| || n == |vs|)
    ensures DiffList(xs, vs, path, i) == DiffList(xs[..n], vs[..n], path, i)
    decreases n - i
  {
    if i < n {
      DiffListTruncate(xs, vs, path, i + 1, n);
    }
  }

  /** Trailing elements of the longer list, on either side, are ignored:
      comparing two lists is comparing both cut to the shorter length. */
  lemma ListIgnoresTrailingElements(xs: seq<Tree>, vs: seq<Tree>, path: Path)
    ensures var n := if |xs| <= |vs| then |xs| else |vs|;
            Diff(List(xs), List(vs), path) == Diff(List(xs[..n]), List(vs[..n]), path)
  {
    var n := if |xs| <= |vs| then |xs| else |vs|;
    DiffListTruncate(xs, vs, path, 0, n);
  }

  // ---------------------------------------------------------------------
  // The context string only labels diagnostics.

  /** Two runs that return the same verdict or raise the same exception. */
  predicate SameVerdict(r1: Run, r2: Run) {
    r1.Done? == r2.Done? && (r1.Done? ==> r1.ok == r2.ok) && (r1.Raised? ==> r1.fault == r2.fault)
  }

  /** Whether the comparison passes, fails or raises does not depend on the
      context it starts from; the context only shows up in the diagnostic. */
  lemma {:induction false} DiffVerdictIgnoresPath(base: Tree, value: Tree, p1: Path, p2: Path)
    decreases value, 2
    ensures SameVerdict(Diff(base, value, p1), Diff(base, value, p2))
  {
    match value
    case Scalar(_) =>
    case Dict(ves) =>
      if base.Dict? { DiffDictVerdictIgnoresPath(base.entries, ves, p1, p2); }
    case List(vs) =>
      match Iterate(base)
      case Ok(xs) => DiffListVerdictIgnoresPath(xs, vs, p1, p2, 0);
      case Err(_) =>
  }

  lemma {:induction false} DiffDictVerdictIgnoresPath(bes: seq<(string, Tree)>, ves: seq<(string, Tree)>,
                                                       p1: Path, p2: Path)
    decreases Dict(ves), 1, |bes|
    ensures SameVerdict(DiffDict(bes, ves, p1), DiffDict(bes, ves, p2))
  {
    if bes != [] {
      var j := KeyIndex(ves, bes[0].0);
      if j >= 0 {
        DiffVerdictIgnoresPath(bes[0].1, ves[j].1, p1 + [Key(bes[0].0)], p2 + [Key(bes[0].0)]);
        DiffDictVerdictIgnoresPath(bes[1..], ves, p1, p2);
      }
    }
  }

  lemma {:induction false} DiffListVerdictIgnoresPath(xs: seq<Tree>, vs: seq<Tree>, p1: Path, p2: Path, i: nat)
    decreases List(vs), 1, |vs| - i
    ensures SameVerdict(DiffList(xs, vs, p1, i), DiffList(xs, vs, p2, i))
  {
    if i < |xs| && i < |vs| {
      DiffVerdictIgnoresPath(xs[i], vs[i], p1 + [Label(vs[i], i)], p2 + [Label(vs[i], i)]);
      DiffListVerdictIgnoresPath(xs, vs, p1, p2, i + 1);
    }
  }
}
