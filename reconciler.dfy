/** The collection reconciler of utils/compare_sdkdb.py: it matches the
    entry lists of two SDKDB documents by each entry's install name rather
    than by position, and applies the public/private rule, before handing
    single entries to the structural differ. */
module Reconciler {
  import opened Values
  import opened Differ

  /** `entry['binaryInfo']['installName']`; None where Python raises a
      KeyError or a TypeError (a missing key, or a non-dict on the way). */
  function InstallName(entry: Tree): Option<Tree> {
    match entry
    case Dict(es) =>
      (match Find(es, "binaryInfo")
       case Some(Dict(bs)) => Find(bs, "installName")
       case _ => None)
    case _ => None
  }

  /** The natural key as the two lookup loops use it: `len(name)` and then
      `name` as a dict key. A string is itself; an empty list or dict has
      length 0 and is skipped like ""; anything else raises (a number has no
      length, a non-empty list or dict is unhashable). */
  function NaturalKey(entry: Tree): Result<string> {
    match InstallName(entry)
    case Some(Scalar(Str(s))) => Ok(s)
    case Some(List(xs)) => if xs == [] then Ok("") else Err(MalformedEntry)
    case Some(Dict(es)) => if es == [] then Ok("") else Err(MalformedEntry)
    case _ => Err(MalformedEntry)
  }

  /** `entry['binaryInfo']['installName']` is found exactly when the entry
      is a dict whose last `binaryInfo` is a dict holding `installName`. */
  lemma InstallNameFound(entry: Tree)
    ensures InstallName(entry).Some? <==>
              entry.Dict? && KeyIndex(entry.entries, "binaryInfo") >= 0 &&
              entry.entries[KeyIndex(entry.entries, "binaryInfo")].1.Dict? &&
              KeyIndex(entry.entries[KeyIndex(entry.entries, "binaryInfo")].1.entries, "installName") >= 0
    ensures InstallName(entry).Some? ==>
              var bs := entry.entries[KeyIndex(entry.entries, "binaryInfo")].1.entries;
              InstallName(entry).value == bs[KeyIndex(bs, "installName")].1
  {
  }

  /** What the natural key is: a string name is itself, exactly `""`, `[]`
      and `{}` give the empty key, a non-empty key always comes from a
      string, and everything else raises. */
  lemma NaturalKeyMeaning(entry: Tree)
    ensures NaturalKey(entry).Err? ==> NaturalKey(entry).fault == MalformedEntry
    ensures NaturalKey(entry).Ok? ==> InstallName(entry).Some?
    ensures forall s :: InstallName(entry) == Some(Scalar(Str(s))) ==> NaturalKey(entry) == Ok(s)
    ensures NaturalKey(entry).Ok? && NaturalKey(entry).value != "" ==>
              InstallName(entry) == Some(Scalar(Str(NaturalKey(entry).value)))
    ensures NaturalKey(entry) == Ok("") <==>
              InstallName(entry) in {Some(Scalar(Str(""))), Some(List([])), Some(Dict([]))}
  {
  }

  /** `compare_sdkdb_entry`: the differ's verdict on the whole entry, with
      `in library <installName>` (the candidate's name) printed after the
      differ's one diagnostic when it fails. */
  function CompareEntry(baseline: Tree, value: Tree): (r: Run)
    ensures Passed(r) <==> InstallName(value).Some? && Agrees(baseline, value)
    ensures Passed(r) || r.Raised? ==> r.log == []
    ensures r.Done? && !r.ok ==>
              InstallName(value).Some? && |r.log| == 2 && Leaf(r.log[0]) && r.log[1] == InLibrary(InstallName(value).value)
    ensures InstallName(value).None? ==> r == Raised(MalformedEntry, [])
    ensures InstallName(value).Some? ==> SameVerdict(r, Diff(baseline, value, []))
    ensures r.Done? && !r.ok ==> r.log == Diff(baseline, value, []).log + [InLibrary(InstallName(value).value)]
    ensures InstallName(value).Some? && !(r.Done? && !r.ok) ==> r == Diff(baseline, value, [])
  {
    match InstallName(value)
    case None => Raised(MalformedEntry, [])
    case Some(name) =>
      var d := Diff(baseline, value, []);
      DiffIsAgrees(baseline, value, []);
      if Passed(d) || d.Raised? then d else Done(false, d.log + [InLibrary(name)])
  }

  // ---------------------------------------------------------------------
  // compare_target_list

  /** The `lookup_map` of lines 63-67: each candidate entry with a non-empty
      natural key, stored under that key; a later entry overwrites an earlier
      one with the same key. */
  function IndexOf(items: seq<Tree>): Result<map<string, Tree>> {
    if items == [] then Ok(map[])
    else
      var last := items[|items| - 1];
      match IndexOf(items[..|items| - 1])
      case Err(f) => Err(f)
      case Ok(m) =>
        (match NaturalKey(last)
         case Err(f) => Err(f)
         case Ok(k) => if |k| != 0 then Ok(m[k := last]) else Ok(m))
  }

  /** The baseline loop of lines 69-79 over `bs`. A missing name prints
      `Missing <name> from SDKDB` and fails at once; an entry whose name is
      present is compared, its diagnostics printed and its verdict dropped. */
  function Reconcile(bs: seq<Tree>, index: map<string, Tree>): Run
    decreases |bs|
  {
    if bs == [] then Done(true, [])
    else
      match NaturalKey(bs[0])
      case Err(f) => Raised(f, [])
      case Ok(k) =>
        if |k| == 0 then Reconcile(bs[1..], index)
        else if k !in index then Done(false, [EntryMissing(k)])
        else
          var e := CompareEntry(bs[0], index[k]);
          if e.Raised? then e else Prefix(e.log, Reconcile(bs[1..], index))
  }

  /** What `compare_target_list(baseline, candidate)` does: index the
      candidate, then walk the baseline. */
  function TargetList(baseline: Tree, candidate: Tree): Run {
    match Iterate(candidate)
    case Err(f) => Raised(f, [])
    case Ok(cs) =>
      (match IndexOf(cs)
       case Err(f) => Raised(f, [])
       case Ok(index) =>
         (match Iterate(baseline)
          case Err(f) => Raised(f, [])
          case Ok(bs) => Reconcile(bs, index)))
  }

  lemma {:induction false} IndexOfErrSticks(items: seq<Tree>, n: nat)
    requires n <= |items| && IndexOf(items[..n]).Err?
    ensures IndexOf(items) == Err(MalformedEntry)
    decreases |items| - n
  {
    if n == |items| {
      assert items[..n] == items;
      IndexOfFault(items);
    } else {
      assert items[..n + 1][..n] == items[..n];
      IndexOfFault(items[..n]);
      IndexOfErrSticks(items, n + 1);
    }
  }


  lemma {:induction false} IndexOfFault(items: seq<Tree>)
    ensures IndexOf(items).Err? ==> IndexOf(items).fault == MalformedEntry
  {
    if items != [] {
      IndexOfFault(items[..|items| - 1]);
    }
  }

  /** One more candidate entry added to the lookup map. */
  lemma IndexOfStep(items: seq<Tree>, i: int)
    requires 0 <= i < |items|
    ensures IndexOf(items[..i]).Err? ==> IndexOf(items[..i + 1]) == IndexOf(items[..i])
    ensures IndexOf(items[..i]).Ok? && NaturalKey(items[i]).Err? ==>
              IndexOf(items[..i + 1]) == Err(NaturalKey(items[i]).fault)
    ensures IndexOf(items[..i]).Ok? && NaturalKey(items[i]).Ok? ==>
              IndexOf(items[..i + 1]) ==
                if |NaturalKey(items[i]).value| != 0
                then Ok(IndexOf(items[..i]).value[NaturalKey(items[i]).value := items[i]])
                else IndexOf(items[..i])
  {
    assert items[..i + 1][..i] == items[..i];
  }

  /** The baseline walk from entry `j` takes one step. */
  lemma ReconcileStep(bs: seq<Tree>, j: int, index: map<string, Tree>)
    requires 0 <= j < |bs|
    ensures NaturalKey(bs[j]).Err? ==> Reconcile(bs[j..], index) == Raised(NaturalKey(bs[j]).fault, [])
    ensures NaturalKey(bs[j]).Ok? && |NaturalKey(bs[j]).value| == 0 ==>
              Reconcile(bs[j..], index) == Reconcile(bs[j + 1..], index)
    ensures NaturalKey(bs[j]).Ok? && |NaturalKey(bs[j]).value| != 0 && NaturalKey(bs[j]).value !in index ==>
              Reconcile(bs[j..], index) == Done(false, [EntryMissing(NaturalKey(bs[j]).value)])
    ensures NaturalKey(bs[j]).Ok? && |NaturalKey(bs[j]).value| != 0 && NaturalKey(bs[j]).value in index ==>
              var e := CompareEntry(bs[j], index[NaturalKey(bs[j]).value]);
              Reconcile(bs[j..], index) == if e.Raised? then e else Prefix(e.log, Reconcile(bs[j + 1..], index))
  {
    assert bs[j..][1..] == bs[j + 1..];
  }

  /** The first loop of `compare_target_list`: fills the lookup map in place
      from the candidate entries. */
  method BuildLookup(items: seq<Tree>) returns (r: Result<map<string, Tree>>)
    ensures r == IndexOf(items)
  {
    var lookup: map<string, Tree> := map[];
    var i := 0;
    while i < |items|
      invariant 0 <= i <= |items|
      invariant IndexOf(items[..i]) == Ok(lookup)
    {
      IndexOfStep(items, i);
      var name := NaturalKey(items[i]);
      if name.Err? {
        IndexOfErrSticks(items, i + 1);
        return Err(name.fault);
      }
      if |name.value| != 0 {
        lookup := lookup[name.value := items[i]];
      }
      i := i + 1;
    }
    assert items[..i] == items;
    return Ok(lookup);
  }

  /** The second loop of `compare_target_list`: walks the baseline entries
      with an early return. */
  method WalkBaseline(bs: seq<Tree>, lookup: map<string, Tree>) returns (r: Run)
    ensures r == Reconcile(bs, lookup)
  {
    var out: seq<Diag> := [];
    var j := 0;
    while j < |bs|
      invariant 0 <= j <= |bs|
      invariant Reconcile(bs, lookup) == Prefix(out, Reconcile(bs[j..], lookup))
    {
      ReconcileStep(bs, j, lookup);
      var name := NaturalKey(bs[j]);
      if name.Err? {
        return Raised(name.fault, out);
      }
      if |name.value| != 0 {
        if name.value !in lookup {
          return Done(false, out + [EntryMissing(name.value)]);
        }
        var e := CompareEntry(bs[j], lookup[name.value]);
        if e.Raised? {
          return Raised(e.fault, out + e.log);
        }
        PrefixPrefix(out, e.log, Reconcile(bs[j + 1..], lookup));
        out := out + e.log;
      }
      j := j + 1;
    }
    assert bs[j..] == [];
    return Done(true, out);
  }

  /** `compare_target_list`: builds the lookup map, then walks the baseline. */
  method CompareTargetList(baseline: Tree, candidate: Tree) returns (r: Run)
    ensures r == TargetList(baseline, candidate)
  {
    var cs := Iterate(candidate);
    if cs.Err? {
      return Raised(cs.fault, []);
    }
    var lookup := BuildLookup(cs.value);
    if lookup.Err? {
      return Raised(lookup.fault, []);
    }
    var bl := Iterate(baseline);
    if bl.Err? {
      return Raised(bl.fault, []);
    }
    r := WalkBaseline(bl.value, lookup.value);
  }

  // ---------------------------------------------------------------------
  // compare_sdkdb

  /** `is_sdkdb_public` together with the truth test at line 90: the
      truthiness of the candidate's `public` entry, False when it has none;
      a non-dict has no `get` and raises. */
  function IsPublic(db: Tree): (r: Result<bool>)
    ensures r.Err? <==> !db.Dict?
    ensures r.Err? ==> r.fault == NotADict
    ensures r == Ok(true) <==>
              db.Dict? && KeyIndex(db.entries, "public") >= 0 && Truthy(db.entries[KeyIndex(db.entries, "public")].1)
  {
    match db
    case Dict(es) => Ok(match Find(es, "public") case Some(v) => Truthy(v) case None => false)
    case _ => Err(NotADict)
  }

  /** The loop of lines 88-102 over the baseline's entries `bes`. */
  function SdkdbWalk(bes: seq<(string, Tree)>, candidate: Tree): Run
    decreases |bes|
  {
    if bes == [] then Done(true, [])
    else
      var key := bes[0].0;
      if key == "public" then
        (match IsPublic(candidate)
         case Err(f) => Raised(f, [])
         case Ok(p) => if p then SdkdbWalk(bes[1..], candidate) else Done(false, [PublicToPrivate]))
      else if !candidate.Dict? then Raised(NotADict, [])
      else
        match Find(candidate.entries, key)
        case None => Done(false, [TargetMissing(key)])
        case Some(target) =>
          var t := TargetList(bes[0].1, target);
          if Passed(t) then Prefix(t.log, SdkdbWalk(bes[1..], candidate)) else t
  }

  /** What `compare_sdkdb(baseline, candidate)` does. */
  function Sdkdb(baseline: Tree, candidate: Tree): Run {
    match baseline
    case Dict(bes) => SdkdbWalk(bes, candidate)
    case _ => Raised(NotADict, [])
  }

  /** `compare_sdkdb`: walks the baseline's keys with early returns. */
  method CompareSdkdb(baseline: Tree, candidate: Tree) returns (r: Run)
    ensures r == Sdkdb(baseline, candidate)
  {
    if !baseline.Dict? {
      return Raised(NotADict, []);
    }
    var bes := baseline.entries;
    var out: seq<Diag> := [];
    var i := 0;
    while i < |bes|
      invariant 0 <= i <= |bes|
      invariant SdkdbWalk(bes, candidate) == Prefix(out, SdkdbWalk(bes[i..], candidate))
    {
      assert bes[i..][1..] == bes[i + 1..];
      var key, value := bes[i].0, bes[i].1;
      if key == "public" {
        var public := IsPublic(candidate);
        if public.Err? {
          return Raised(public.fault, out);
        }
        if public.value {
          i := i + 1;
          continue;
        }
        return Done(false, out + [PublicToPrivate]);
      }
      if !candidate.Dict? {
        return Raised(NotADict, out);
      }
      var target := Find(candidate.entries, key);
      if target.None? {
        return Done(false, out + [TargetMissing(key)]);
      }
      var t := CompareTargetList(value, target.value);
      if !Passed(t) {
        return Prefix(out, t);
      }
      PrefixPrefix(out, t.log, SdkdbWalk(bes[i + 1..], candidate));
      out := out + t.log;
      i := i + 1;
    }
    assert bes[i..] == [];
    return Done(true, out);
  }
}
