/** Lines 25 and 88 of utils/compare_sdkdb.py call `.iteritems()`, a
    Python 2 method that Python 3 dicts do not have, while the f-strings in
    the same file need Python 3. As written, every dict comparison and every
    document comparison therefore raises an AttributeError. The rest of this
    model uses the evidently intended `.items()`; this module records the
    code as written and the inputs that tell the two apart. */
module AsWritten {
  import opened Values
  import opened Differ
  import opened Reconciler

  /** `diff_dict` as written: `base.iteritems()` raises before any key is
      looked at, whatever the two dicts hold. */
  function DiffDictAsWritten(bes: seq<(string, Tree)>, ves: seq<(string, Tree)>, path: Path): (r: Run)
    ensures r.Raised? && r.fault == NoIteritems && r.log == []
  {
    Raised(NoIteritems, [])
  }

  /** `compare_sdkdb` as written: `baseline.iteritems()` raises at once
      (a non-dict baseline has no such attribute either). */
  function SdkdbAsWritten(baseline: Tree, candidate: Tree): (r: Run)
    ensures r.Raised? && r.log == []
  {
    if baseline.Dict? then Raised(NoIteritems, []) else Raised(NotADict, [])
  }

  /** Two empty dicts: as written the comparison raises, as intended it
      passes and prints nothing; the same for two empty documents. */
  lemma IteritemsCounterexample()
    ensures DiffDictAsWritten([], [], []).Raised?
    ensures Diff(Dict([]), Dict([]), []) == Done(true, [])
    ensures SdkdbAsWritten(Dict([]), Dict([])).Raised?
    ensures Sdkdb(Dict([]), Dict([])) == Done(true, [])
  {
  }
}
