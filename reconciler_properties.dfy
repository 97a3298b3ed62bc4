/** What the collection reconciler promises: entries are matched by natural
    key with last-write-wins, a list fails only on an unmatched baseline
    entry, and the document verdict is the conjunction of per-key checks
    whatever order the baseline lists its keys in. */
module ReconcilerProperties {
  import opened Values
  import opened Differ
  import opened Reconciler

  // ---------------------------------------------------------------------
  // The candidate lookup map.

  /** Entry `i` carries a non-empty natural key that no later entry repeats. */
  predicate LastNamed(items: seq<Tree>, i: int) {
    0 <= i < |items| && NaturalKey(items[i]).Ok? && NaturalKey(items[i]).value != "" &&
    forall j :: i < j < |items| ==> NaturalKey(items[j]) != NaturalKey(items[i])
  }

  /** Building the lookup map succeeds exactly when every candidate entry has
      a usable natural key; its keys are the non-empty natural keys, and each
      maps to the LAST entry carrying it. */
  lemma IndexLastWins(items: seq<Tree>)
    ensures IndexOf(items).Ok? <==> forall i :: 0 <= i < |items| ==> NaturalKey(items[i]).Ok?
    ensures IndexOf(items).Ok? ==>
              forall k :: k in IndexOf(items).value <==>
                k != "" && exists i :: 0 <= i < |items| && NaturalKey(items[i]) == Ok(k)
    ensures IndexOf(items).Ok? ==>
              forall i :: LastNamed(items, i) ==>
                NaturalKey(items[i]).value in IndexOf(items).value &&
                IndexOf(items).value[NaturalKey(items[i]).value] == items[i]
  {
    IndexOkIff(items);
    if IndexOf(items).Ok? {
      IndexKeys(items);
      IndexLast(items);
    }
  }

  lemma {:induction false} IndexOkIff(items: seq<Tree>)
    ensures IndexOf(items).Ok? <==> forall i :: 0 <= i < |items| ==> NaturalKey(items[i]).Ok?
  {
    if items != [] {
      var init := items[..|items| - 1];
      IndexOkIff(init);
      assert forall i :: 0 <= i < |init| ==> init[i] == items[i];
    }
  }

  lemma {:induction false} IndexKeys(items: seq<Tree>)
    requires IndexOf(items).Ok?
    ensures forall k :: k in IndexOf(items).value <==>
              k != "" && exists i :: 0 <= i < |items| && NaturalKey(items[i]) == Ok(k)
  {
    if items != [] {
      var n := |items|;
      var init := items[..n - 1];
      IndexKeys(init);
      var m := IndexOf(items).value;
      forall k ensures k in m <==> k != "" && exists i :: 0 <= i < n && NaturalKey(items[i]) == Ok(k) {
        if k != "" && NaturalKey(items[n - 1]) != Ok(k) {
          if i :| 0 <= i < n && NaturalKey(items[i]) == Ok(k) {
            assert i < n - 1 && init[i] == items[i];
          }
          if i :| 0 <= i < n - 1 && NaturalKey(init[i]) == Ok(k) {
            assert init[i] == items[i];
          }
        }
      }
    }
  }

  lemma {:induction false} IndexLast(items: seq<Tree>)
    requires IndexOf(items).Ok?
    ensures forall i :: LastNamed(items, i) ==>
              NaturalKey(items[i]).value in IndexOf(items).value &&
              IndexOf(items).value[NaturalKey(items[i]).value] == items[i]
  {
    if items != [] {
      var n := |items|;
      var init := items[..n - 1];
      IndexLast(init);
      var m := IndexOf(items).value;
      forall i | LastNamed(items, i) ensures NaturalKey(items[i]).value in m && m[NaturalKey(items[i]).value] == items[i] {
        if i < n - 1 {
          assert forall j :: 0 <= j < n - 1 ==> init[j] == items[j];
          assert LastNamed(init, i);
        }
      }
    }
  }

  /** No two candidate entries share a non-empty natural key. */
  predicate DistinctNames(items: seq<Tree>) {
    forall i :: 0 <= i < |items| && NaturalKey(items[i]).Ok? && NaturalKey(items[i]).value != "" ==>
      LastNamed(items, i)
  }

  lemma IndexHas(items: seq<Tree>, k: string)
    requires IndexOf(items).Ok?
    ensures k in IndexOf(items).value <==> k != "" && exists i :: 0 <= i < |items| && NaturalKey(items[i]) == Ok(k)
  {
    IndexKeys(items);
  }

  lemma IndexAt(items: seq<Tree>, i: int)
    requires IndexOf(items).Ok? && LastNamed(items, i)
    ensures NaturalKey(items[i]).value in IndexOf(items).value
    ensures IndexOf(items).value[NaturalKey(items[i]).value] == items[i]
  {
    IndexLast(items);
  }

  /** A permutation of a list whose names are distinct has distinct names. */
  lemma DistinctNamesPermute(c1: seq<Tree>, c2: seq<Tree>)
    requires multiset(c1) == multiset(c2) && DistinctNames(c1)
    ensures DistinctNames(c2)
  {
    forall i | 0 <= i < |c2| && NaturalKey(c2[i]).Ok? && NaturalKey(c2[i]).value != ""
      ensures LastNamed(c2, i)
    {
      forall j | i < j < |c2| ensures NaturalKey(c2[j]) != NaturalKey(c2[i]) {
        NoSharedName(c1, c2, i, j);
      }
    }
  }

  /** Two positions of a permutation of `c1` never share a non-empty name. */
  lemma NoSharedName(c1: seq<Tree>, c2: seq<Tree>, i: int, j: int)
    requires multiset(c1) == multiset(c2) && DistinctNames(c1)
    requires 0 <= i < j < |c2| && NaturalKey(c2[i]).Ok? && NaturalKey(c2[i]).value != ""
    ensures NaturalKey(c2[j]) != NaturalKey(c2[i])
  {
    assert c2[i] in multiset(c1) && c2[j] in multiset(c1);
    var a :| 0 <= a < |c1| && c1[a] == c2[i];
    var b :| 0 <= b < |c1| && c1[b] == c2[j];
    if a < b {
      assert LastNamed(c1, a);
    } else if b < a {
      if NaturalKey(c1[b]).Ok? && NaturalKey(c1[b]).value != "" {
        assert LastNamed(c1, b);
      }
    } else {
      TwoPositions(c2, i, j);
      CountTwo(c1, c2[i]);
      assert false;
    }
  }

  lemma TwoPositions(s: seq<Tree>, a: int, b: int)
    requires 0 <= a < b < |s| && s[a] == s[b]
    ensures multiset(s)[s[a]] >= 2
  {
    assert s == s[..b] + s[b..];
    assert s[..b][a] == s[a] && s[b..][0] == s[b];
  }

  lemma {:induction false} CountTwo(s: seq<Tree>, x: Tree)
    requires multiset(s)[x] >= 2
    ensures exists a, b :: 0 <= a < b < |s| && s[a] == x && s[b] == x
  {
    assert s != [];
    assert s == [s[0]] + s[1..];
    if s[0] == x {
      assert x in multiset(s[1..]);
      var b :| 0 <= b < |s[1..]| && s[1..][b] == x;
      assert s[0] == x && s[b + 1] == x;
    } else {
      CountTwo(s[1..], x);
      var a, b :| 0 <= a < b < |s[1..]| && s[1..][a] == x && s[1..][b] == x;
      assert s[a + 1] == x && s[b + 1] == x;
    }
  }

  /** When candidate names are distinct, the lookup map (and so the whole
      list comparison) does not depend on the order of the candidate list. */
  lemma IndexOrderIrrelevant(c1: seq<Tree>, c2: seq<Tree>)
    requires multiset(c1) == multiset(c2)
    requires DistinctNames(c1)
    ensures IndexOf(c1) == IndexOf(c2)
  {
    DistinctNamesPermute(c1, c2);
    IndexLastWins(c1);
    IndexLastWins(c2);
    IndexOfFault(c1);
    IndexOfFault(c2);
    assert IndexOf(c1).Ok? <==> IndexOf(c2).Ok? by {
      assert forall i :: 0 <= i < |c1| ==> c1[i] in multiset(c2);
      assert forall i :: 0 <= i < |c2| ==> c2[i] in multiset(c1);
    }
    if IndexOf(c1).Ok? {
      IndexSameMap(c1, c2);
    }
  }

  lemma IndexSameMap(c1: seq<Tree>, c2: seq<Tree>)
    requires multiset(c1) == multiset(c2)
    requires DistinctNames(c1)
    requires IndexOf(c1).Ok? && IndexOf(c2).Ok?
    ensures IndexOf(c1).value == IndexOf(c2).value
  {
    DistinctNamesPermute(c1, c2);
    var m1, m2 := IndexOf(c1).value, IndexOf(c2).value;
    forall k | k in m1 ensures k in m2 && m1[k] == m2[k] {
      IndexHas(c1, k);
      var i :| 0 <= i < |c1| && NaturalKey(c1[i]) == Ok(k);
      assert c1[i] in multiset(c2);
      var i2 :| 0 <= i2 < |c2| && c2[i2] == c1[i];
      IndexAt(c1, i);
      IndexAt(c2, i2);
    }
    forall k | k in m2 ensures k in m1 {
      IndexHas(c2, k);
      var i :| 0 <= i < |c2| && NaturalKey(c2[i]) == Ok(k);
      assert c2[i] in multiset(c1);
      var i1 :| 0 <= i1 < |c1| && c1[i1] == c2[i];
      IndexHas(c1, k);
    }
  }

  lemma TargetListOrderIrrelevant(baseline: Tree, c1: seq<Tree>, c2: seq<Tree>)
    requires multiset(c1) == multiset(c2)
    requires DistinctNames(c1)
    ensures TargetList(baseline, List(c1)) == TargetList(baseline, List(c2))
  {
    IndexOrderIrrelevant(c1, c2);
  }

  // ---------------------------------------------------------------------
  // The baseline walk.

  /** Baseline entry `item` lets the walk go on: its key is empty (skipped)
      or present in the candidate and its comparison did not raise —
      whatever verdict that comparison gave. */
  predicate EntryPasses(item: Tree, index: map<string, Tree>) {
    match NaturalKey(item)
    case Err(_) => false
    case Ok(k) => |k| == 0 || (k in index && CompareEntry(item, index[k]).Done?)
  }

  /** Baseline entry `item` has a non-empty key the candidate lacks. */
  predicate EntryUnmatched(item: Tree, index: map<string, Tree>) {
    match NaturalKey(item)
    case Err(_) => false
    case Ok(k) => |k| != 0 && k !in index
  }

  /** Entry `j` is the first unmatched one, and everything before it passed. */
  predicate FirstUnmatched(bs: seq<Tree>, index: map<string, Tree>, j: int) {
    0 <= j < |bs| && EntryUnmatched(bs[j], index) &&
    forall i :: 0 <= i < j ==> EntryPasses(bs[i], index)
  }

  /** The list passes exactly when every baseline entry passes: failed entry
      comparisons never fail the list. */
  lemma {:induction false} ReconcilePassesIff(bs: seq<Tree>, index: map<string, Tree>)
    ensures Passed(Reconcile(bs, index)) <==> forall i :: 0 <= i < |bs| ==> EntryPasses(bs[i], index)
    decreases |bs|
  {
    if bs != [] {
      ReconcilePassesIff(bs[1..], index);
      assert forall i :: 0 < i < |bs| ==> bs[i] == bs[1..][i - 1];
    }
  }

  /** The list returns False exactly when some baseline entry is unmatched
      (with all before it passing), and then the last thing printed is
      `Missing <name> from SDKDB` for that first unmatched entry. */
  lemma ReconcileFailsIff(bs: seq<Tree>, index: map<string, Tree>)
    ensures (Reconcile(bs, index).Done? && !Reconcile(bs, index).ok) <==>
            exists j :: FirstUnmatched(bs, index, j)
    ensures forall j :: FirstUnmatched(bs, index, j) ==>
              var log := Reconcile(bs, index).log;
              log != [] && log[|log| - 1] == EntryMissing(NaturalKey(bs[j]).value)
  {
    ReconcileFalseIff(bs, index);
    forall j | FirstUnmatched(bs, index, j)
      ensures var log := Reconcile(bs, index).log;
              log != [] && log[|log| - 1] == EntryMissing(NaturalKey(bs[j]).value)
    {
      ReconcileMissingLast(bs, index, j);
    }
  }

  lemma {:induction false} ReconcileFalseIff(bs: seq<Tree>, index: map<string, Tree>)
    ensures (Reconcile(bs, index).Done? && !Reconcile(bs, index).ok) <==>
            exists j :: FirstUnmatched(bs, index, j)
    decreases |bs|
  {
    if bs != [] {
      var rest := bs[1..];
      ReconcileFalseIff(rest, index);
      assert forall i :: 0 < i < |bs| ==> bs[i] == rest[i - 1];
      if EntryPasses(bs[0], index) {
        if j :| FirstUnmatched(bs, index, j) {
          assert FirstUnmatched(rest, index, j - 1);
        }
        if j :| FirstUnmatched(rest, index, j) {
          assert FirstUnmatched(bs, index, j + 1);
        }
      } else if EntryUnmatched(bs[0], index) {
        assert FirstUnmatched(bs, index, 0);
      }
    }
  }

  lemma {:induction false} ReconcileMissingLast(bs: seq<Tree>, index: map<string, Tree>, j: int)
    requires FirstUnmatched(bs, index, j)
    ensures var log := Reconcile(bs, index).log;
            log != [] && log[|log| - 1] == EntryMissing(NaturalKey(bs[j]).value)
    decreases j
  {
    if j > 0 {
      var rest := bs[1..];
      assert EntryPasses(bs[0], index);
      assert forall i :: 0 < i < |bs| ==> bs[i] == rest[i - 1];
      assert FirstUnmatched(rest, index, j - 1);
      ReconcileMissingLast(rest, index, j - 1);
    }
  }

  // ---------------------------------------------------------------------
  // The whole document.

  /** Baseline key `be.0` is accepted: for `public`, the candidate is public;
      for any other key, the candidate has it and its list passes. */
  predicate KeyAccepted(be: (string, Tree), candidate: Tree) {
    if be.0 == "public" then IsPublic(candidate) == Ok(true)
    else
      candidate.Dict? &&
      match Find(candidate.entries, be.0)
      case None => false
      case Some(t) => Passed(TargetList(be.1, t))
  }

  lemma {:induction false} SdkdbWalkPassesIff(bes: seq<(string, Tree)>, candidate: Tree)
    ensures Passed(SdkdbWalk(bes, candidate)) <==> forall i :: 0 <= i < |bes| ==> KeyAccepted(bes[i], candidate)
    decreases |bes|
  {
    if bes != [] {
      SdkdbWalkPassesIff(bes[1..], candidate);
      assert forall i :: 0 < i < |bes| ==> bes[i] == bes[1..][i - 1];
    }
  }

  /** The document passes exactly when the baseline is a dict and every one
      of its keys is accepted. */
  lemma SdkdbPassesIff(baseline: Tree, candidate: Tree)
    ensures Passed(Sdkdb(baseline, candidate)) <==>
            baseline.Dict? && forall i :: 0 <= i < |baseline.entries| ==> KeyAccepted(baseline.entries[i], candidate)
  {
    if baseline.Dict? {
      SdkdbWalkPassesIff(baseline.entries, candidate);
    }
  }

  /** A baseline with a `public` key (whatever its value) never passes
      against a candidate whose `public` is falsy or absent. */
  lemma PublicNeedsPublicCandidate(baseline: Tree, candidate: Tree, j: nat)
    requires baseline.Dict? && j < |baseline.entries| && baseline.entries[j].0 == "public"
    requires IsPublic(candidate) == Ok(false)
    ensures !Passed(Sdkdb(baseline, candidate))
  {
    SdkdbPassesIff(baseline, candidate);
    assert !KeyAccepted(baseline.entries[j], candidate);
  }

  /** Reaching the `public` key with a private candidate stops the whole
      comparison, with `Comparing public to private is not supported` as the
      last thing printed. */
  lemma {:induction false} PublicToPrivateStops(bes: seq<(string, Tree)>, candidate: Tree, j: nat)
    requires j < |bes| && bes[j].0 == "public" && IsPublic(candidate) == Ok(false)
    requires forall i :: 0 <= i < j ==> KeyAccepted(bes[i], candidate)
    ensures var r := Sdkdb(Dict(bes), candidate);
            r.Done? && !r.ok && r.log != [] && r.log[|r.log| - 1] == PublicToPrivate
    decreases j
  {
    if j > 0 {
      assert forall i :: 0 <= i < j - 1 ==> bes[1..][i] == bes[i + 1];
      assert KeyAccepted(bes[0], candidate);
      PublicToPrivateStops(bes[1..], candidate, j - 1);
    }
  }

  /** Listing the baseline's keys in another order does not change whether
      the document passes, nor the verdict whenever both orders return one. */
  lemma SdkdbOrderIrrelevant(bes1: seq<(string, Tree)>, bes2: seq<(string, Tree)>, candidate: Tree)
    requires multiset(bes1) == multiset(bes2)
    ensures Passed(Sdkdb(Dict(bes1), candidate)) == Passed(Sdkdb(Dict(bes2), candidate))
  {
    SdkdbPassesIff(Dict(bes1), candidate);
    SdkdbPassesIff(Dict(bes2), candidate);
    assert forall i :: 0 <= i < |bes1| ==> bes1[i] in multiset(bes2);
    assert forall i :: 0 <= i < |bes2| ==> bes2[i] in multiset(bes1);
  }
}
