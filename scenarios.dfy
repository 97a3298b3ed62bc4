/** Concrete comparisons, each showing one documented behaviour of the
    comparator on small documents. */
module Scenarios {
  import opened Values
  import opened Differ
  import opened Reconciler

  function S(s: string): Tree { Scalar(Str(s)) }
  function N(n: int): Tree { Scalar(Num(n)) }

  /** An SDKDB entry whose `binaryInfo.installName` is `name`. */
  function Entry(name: string, version: int): Tree {
    Dict([("binaryInfo", Dict([("installName", S(name))])), ("version", N(version))])
  }

  /** Scalars: `1` vs `2` under `[a]` prints one "is not equal" line. */
  lemma ScalarMismatch()
    ensures Diff(N(1), N(2), [Key("a")]) == Done(false, [NotEqual([Key("a")], N(1), N(2))])
  {
  }

  /** Dicts: a missing baseline key fails; extra candidate keys are ignored. */
  lemma DictAsymmetry()
    ensures Diff(Dict([("x", N(1))]), Dict([]), []) == Done(false, [KeyMissing("x", [])])
    ensures Diff(Dict([]), Dict([("x", N(1))]), []) == Done(true, [])
  {
  }

  /** Lists: trailing elements on either side are not compared. */
  lemma ListAsymmetry()
    ensures Diff(List([N(1), N(2), N(3)]), List([N(1), N(2)]), []) == Done(true, [])
    ensures Diff(List([N(1), N(2)]), List([N(1), N(2), N(3)]), []) == Done(true, [])
  {
  }

  /** A list element that is a dict with a `name` is labelled by that name. */
  lemma NamedLabel()
    ensures Diff(List([Dict([("name", S("lib")), ("v", N(1))])]),
                 List([Dict([("name", S("lib")), ("v", N(2))])]), [])
            == Done(false, [NotEqual([Named(S("lib")), Key("v")], N(1), N(2))])
  {
    var b := [("name", S("lib")), ("v", N(1))];
    var c := [("name", S("lib")), ("v", N(2))];
    assert KeyIndex(c, "name") == 0 && KeyIndex(c, "v") == 1;
    assert Label(Dict(c), 0) == Named(S("lib"));
    var p := [Named(S("lib"))];
    assert b[1..] == [("v", N(1))];
    assert p + [Key("v")] == [Named(S("lib")), Key("v")];
    assert Diff(N(1), N(2), p + [Key("v")]) == Done(false, [NotEqual(p + [Key("v")], N(1), N(2))]);
    assert DiffDict(b[1..], c, p) == Done(false, [NotEqual([Named(S("lib")), Key("v")], N(1), N(2))]);
    assert Diff(S("lib"), S("lib"), p + [Key("name")]) == Done(true, []);
    assert DiffDict(b, c, p) == DiffDict(b[1..], c, p);
    assert Diff(Dict(b), Dict(c), p) == DiffDict(b, c, p);
    assert [] + [Label(Dict(c), 0)] == p;
    assert DiffList([Dict(b)], [Dict(c)], [], 0) == Diff(Dict(b), Dict(c), p);
  }

  /** Entry lists are matched by install name, not by position. */
  lemma MatchedByName()
    ensures TargetList(List([Entry("B", 1), Entry("A", 2)]), List([Entry("A", 2), Entry("B", 1)]))
            == Done(true, [])
  {
    EntryFacts("A", 2);
    EntryFacts("B", 1);
    SwappedPair(Entry("A", 2), Entry("B", 1));
  }

  /** Two entries with distinct names, listed in opposite orders. */
  lemma SwappedPair(a: Tree, b: Tree)
    requires NaturalKey(a).Ok? && NaturalKey(b).Ok? && WellFormed(a) && WellFormed(b)
    requires NaturalKey(a).value != "" && NaturalKey(b).value != ""
    requires NaturalKey(a).value != NaturalKey(b).value
    ensures TargetList(List([b, a]), List([a, b])) == Done(true, [])
  {
    var index := map[NaturalKey(a).value := a, NaturalKey(b).value := b];
    assert IndexOf([a, b]) == Ok(index) by {
      IndexOfStep([a, b], 0);
      IndexOfStep([a, b], 1);
      assert [a, b][..0] == [] && [a, b][..2] == [a, b];
    }
    EntryMatchesItself(a, index);
    assert Reconcile([a], index) == Done(true, []) by {
      ReconcileStep([a], 0, index);
      assert [a][0..] == [a] && [a][1..] == [];
    }
    EntryMatchesItself(b, index);
    ReconcileStep([b, a], 0, index);
    assert [b, a][0..] == [b, a] && [b, a][1..] == [a];
  }

  /** The example entries: their install name, and they are well formed. */
  lemma EntryFacts(name: string, version: int)
    ensures InstallName(Entry(name, version)) == Some(S(name))
    ensures NaturalKey(Entry(name, version)) == Ok(name)
    ensures WellFormed(Entry(name, version))
  {
    assert KeyIndex(Entry(name, version).entries, "binaryInfo") == 0;
  }

  /** An entry filed under its own name compares equal to itself. */
  lemma EntryMatchesItself(e: Tree, index: map<string, Tree>)
    requires WellFormed(e)
    requires NaturalKey(e).Ok? && NaturalKey(e).value in index && index[NaturalKey(e).value] == e
    ensures CompareEntry(e, index[NaturalKey(e).value]) == Done(true, [])
  {
    AgreesReflexive(e);
  }

  /** A differing entry is reported, with its library, but the list passes. */
  lemma EntryDifferenceDoesNotFailList()
    ensures TargetList(List([Entry("A", 1)]), List([Entry("A", 2)]))
            == Done(true, [NotEqual([Key("version")], N(1), N(2)), InLibrary(S("A"))])
  {
    var b, c := Entry("A", 1), Entry("A", 2);
    assert NaturalKey(c) == Ok("A") && NaturalKey(b) == Ok("A");
    assert IndexOf([c]) == Ok(map["A" := c]) by {
      assert [c][..0] == [];
    }
    assert b.entries[1..] == [("version", N(1))];
    assert KeyIndex(c.entries, "binaryInfo") == 0 && KeyIndex(c.entries, "version") == 1;
    assert [] + [Key("version")] == [Key("version")];
    assert Diff(N(1), N(2), [Key("version")]) == Done(false, [NotEqual([Key("version")], N(1), N(2))]);
    assert DiffDict(b.entries[1..], c.entries, []) == Done(false, [NotEqual([Key("version")], N(1), N(2))]);
    DiffReflexive(b.entries[0].1, [Key("binaryInfo")]);
    assert DiffDict(b.entries, c.entries, []) == DiffDict(b.entries[1..], c.entries, []);
    assert CompareEntry(b, c) == Done(false, [NotEqual([Key("version")], N(1), N(2)), InLibrary(S("A"))]);
  }

  /** A baseline entry missing from the candidate stops the list at once. */
  lemma MissingEntryStops()
    ensures TargetList(List([Entry("A", 1), Entry("B", 1)]), List([Entry("B", 2)]))
            == Done(false, [EntryMissing("A")])
  {
    var a, b, c := Entry("A", 1), Entry("B", 1), Entry("B", 2);
    EntryFacts("A", 1);
    EntryFacts("B", 2);
    var index := map["B" := c];
    assert IndexOf([c]) == Ok(index) by {
      assert [c][..0] == [];
    }
    ReconcileStep([a, b], 0, index);
    assert [a, b][0..] == [a, b];
  }

  /** A public baseline needs a public candidate; a public candidate may
      stand in for a private baseline. */
  lemma PublicPrivate()
    ensures Sdkdb(Dict([("public", Scalar(Bool(true))), ("t", List([]))]),
                  Dict([("t", List([]))]))
            == Done(false, [PublicToPrivate])
    ensures Sdkdb(Dict([("public", Scalar(Bool(false))), ("t", List([]))]),
                  Dict([("public", Scalar(Bool(true))), ("t", List([]))]))
            == Done(true, [])
    ensures Sdkdb(Dict([("t", List([]))]), Dict([])) == Done(false, [TargetMissing("t")])
  {
  }
}
