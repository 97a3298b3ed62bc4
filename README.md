# SDKDB comparator, modelled in Dafny

`utils/compare_sdkdb.py` compares a baseline SDKDB document with a
candidate one and reports the first place where they differ. It has two
layers, and this project models both.

- **The structural differ** (`SDKDBComparator`). It walks two JSON values
  together. It picks its rule from the kind of the candidate value: dict,
  list, or anything else (scalar). It stops at the first mismatch and prints
  one diagnostic that names the path to it.
  - The dict rule checks only the baseline's keys.
  - The list rule compares positions pairwise up to the shorter length. A
    position is labelled by the candidate element's `name` when it has one.
- **The collection reconciler** (`compare_sdkdb_entry`, `compare_target_list`,
  `is_sdkdb_public`, `compare_sdkdb`).
  - It matches entry lists by install name (`binaryInfo.installName`)
    rather than by position; empty names are skipped.
  - It prints, but then ignores, each entry's own verdict.
  - It refuses a public baseline against a private candidate.

## How the model is built

- `values.dfy` (module `Values`) holds the data.
  - A parsed document is a `Tree`: a scalar, a list, or a dict.
  - A dict is kept as its sequence of `(key, value)` entries in insertion
    order. That is the order Python iterates it in, and the order decides
    which diagnostic is printed first.
  - A lookup (`KeyIndex`, `Find`) takes the last entry with the key.
    `WellFormed` says every dict has distinct keys, as `json.load` output does.
  - A diagnostic is a `Diag` value. Its context is a `Path` of `Step`s
    (`[key]`, `[index]`, `[name]`), not rendered text.
  - Each call's outcome is a `Run`. It is either `Done(ok, log)` (the call
    returned `ok` after printing `log`) or `Raised(fault, log)` (the call
    raised a Python exception after printing `log`).
- `differ.dfy` (module `Differ`) holds the differ.
  - `Diff`, `DiffDict` and `DiffList` are the three rules. They are mutually
    recursive functions, and the `getattr` dispatch becomes a `match` on the
    candidate.
  - `Agrees` is an order-free statement of when two values match. The lemmas
    tie the early-return walk to it and prove the asymmetries.
- `reconciler.dfy` (module `Reconciler`) holds the reconciler.
  - `CompareEntry` is `compare_sdkdb_entry`.
  - `compare_target_list` and `compare_sdkdb` are methods with the source's
    loops: `CompareTargetList` and `CompareSdkdb`. The two loops of
    `compare_target_list` are the methods `BuildLookup` and `WalkBaseline`.
  - Each method is proved equal to a specification function (`TargetList`,
    `Sdkdb`), built from `IndexOf`, `Reconcile` and `SdkdbWalk`.
- `reconciler_properties.dfy` (module `ReconcilerProperties`) proves what
  those specification functions promise.
- `as_written.dfy` (module `AsWritten`) records the `.iteritems()` defect
  (see Findings).
- `scenarios.dfy` (module `Scenarios`) holds small concrete comparisons.

Behaviour taken from the code where a plain description might suggest
otherwise:

- `zip` in `diff_list` iterates the baseline whatever it is. A dict baseline
  yields its keys and a string baseline yields its characters. Both are
  compared, not refused. Only numbers, booleans and null raise.
- `public` is used by its truthiness (line 90), not compared with `True`. The
  baseline's own `public` value is never read, so a baseline with
  `public: false` still fails against a private candidate.
- An install name is measured with `len` and used as a dict key. An empty
  list or dict therefore counts as empty and is skipped like `""`. A number,
  or a non-empty list or dict, raises.
- The candidate list is indexed completely, and any bad candidate entry
  raises, before the baseline list is looked at.

## Model

| member | source | states |
|---|---|---|
| Values.KeyIndex | utils/compare_sdkdb.py:26-29 | the position of the last entry with the key, or -1 exactly when no entry has it (`key in value.keys()`, `value[key]`) |
| Values.Iterate | utils/compare_sdkdb.py:35 | what `zip` and `for` see: a list's elements, a dict's keys in order, a string's one-character strings; exactly numbers, booleans and null raise |
| Differ.Diff | utils/compare_sdkdb.py:9-21 | dispatch on the candidate's kind; the outcome is a pass with nothing printed, a failure with exactly one leaf diagnostic (not-equal or key-missing) whose path extends the context, or an exception with nothing printed |
| Differ.DiffDict | utils/compare_sdkdb.py:24-31 | the same outcome shape for the dict rule: only the failing leaf prints; recursive failures propagate without printing again |
| Differ.DiffList | utils/compare_sdkdb.py:34-46 | the same outcome shape for the list rule |
| Differ.Label | utils/compare_sdkdb.py:36-41 | a list position is labelled `[name]` exactly when the candidate element is a dict with a `name` key (its last one), and `[index]` otherwise |
| Differ.DiffIsAgrees | utils/compare_sdkdb.py:9-46 | the differ passes if and only if the order-free relation `Agrees` holds |
| Differ.DiffDictIsAgrees | utils/compare_sdkdb.py:24-31 | the dict walk passes iff every baseline key is in the candidate and its values agree |
| Differ.DiffListIsAgrees | utils/compare_sdkdb.py:34-46 | the list walk passes iff the elements agree at every position below the shorter length |
| Differ.AgreesReflexive | utils/compare_sdkdb.py:17-46 | every well-formed value agrees with itself |
| Differ.DiffReflexive | utils/compare_sdkdb.py:17-46 | comparing a well-formed value with itself passes and prints nothing, from any context |
| Differ.DiffDictBaselineKeys | utils/compare_sdkdb.py:24-31 | the dict walk gives the same result for two candidates that agree at the baseline's keys |
| Differ.DictDependsOnBaselineKeysOnly | utils/compare_sdkdb.py:24-31 | the dict rule's outcome and diagnostics depend only on the candidate's entries at the baseline's keys; an empty baseline dict passes against any candidate dict |
| Differ.DictIgnoresExtraCandidateKeys | utils/compare_sdkdb.py:24-31 | entries whose keys only the candidate has never change the result |
| Differ.DictStopsAtFirstFailure | utils/compare_sdkdb.py:25-30 | the first failing baseline key decides: if it is missing, the result is false with `key <k> missing from dict <ctx>`; otherwise it is that entry's recursive result under `[k]` |
| Differ.ListStopsAtFirstFailure | utils/compare_sdkdb.py:35-45 | the first disagreeing position decides the result, under label `[name]` when the candidate element is a dict with `name`, else `[index]` |
| Differ.ListIgnoresTrailingElements | utils/compare_sdkdb.py:35 | comparing two lists equals comparing both cut to the shorter length |
| Differ.DiffVerdictIgnoresPath | utils/compare_sdkdb.py:9-46 | pass, fail or raise does not depend on the starting context, which only labels diagnostics |
| Reconciler.CompareEntry | utils/compare_sdkdb.py:49-58 | a missing install name raises before comparing; otherwise the verdict (pass, fail, or the same exception) is exactly that of `diff(baseline, value)`, it passes iff `Agrees` holds, and on failure it prints exactly the differ's own log followed by `in library <candidate's installName>`; in every other case the outcome is the differ's, unchanged |
| Reconciler.InstallNameFound | utils/compare_sdkdb.py:50 | `value['binaryInfo']['installName']` is found exactly when the entry is a dict whose last `binaryInfo` is a dict holding `installName`, and it is that last `installName` |
| Reconciler.NaturalKeyMeaning | utils/compare_sdkdb.py:64-73 | the name as the lookup loops use it: a string install name is itself; a key counts as empty exactly for `""`, `[]` and `{}`; a non-empty key always comes from a string; every other case raises |
| Reconciler.BuildLookup | utils/compare_sdkdb.py:63-67 | the loop that fills the lookup map computes exactly `IndexOf`, raising on the first candidate entry without a usable name |
| Reconciler.WalkBaseline | utils/compare_sdkdb.py:69-79 | the loop over the baseline with its early return computes exactly `Reconcile` |
| Reconciler.CompareTargetList | utils/compare_sdkdb.py:61-79 | iterating the candidate, filling the lookup map, then walking the baseline computes exactly `TargetList` |
| Reconciler.IsPublic | utils/compare_sdkdb.py:82-83 | `is_sdkdb_public` under the truth test of line 90: true exactly when the candidate is a dict whose (last) `public` entry is truthy; a non-dict raises |
| Reconciler.CompareSdkdb | utils/compare_sdkdb.py:86-102 | the loop over baseline keys with early returns computes exactly `Sdkdb` |
| ReconcilerProperties.IndexLastWins | utils/compare_sdkdb.py:63-67 | the lookup map is built iff every candidate entry has a usable name; its keys are exactly the non-empty names; each maps to the last entry carrying it |
| ReconcilerProperties.DistinctNamesPermute | utils/compare_sdkdb.py:63-67 | a reordering of a candidate list whose non-empty names are distinct again has distinct names |
| ReconcilerProperties.IndexOrderIrrelevant | utils/compare_sdkdb.py:63-67 | with distinct candidate names, reordering the candidate list leaves the lookup map unchanged |
| ReconcilerProperties.TargetListOrderIrrelevant | utils/compare_sdkdb.py:61-79 | with distinct candidate names, the list comparison does not depend on the candidate's order |
| ReconcilerProperties.ReconcilePassesIff | utils/compare_sdkdb.py:69-79 | the list passes iff every baseline entry has an empty name or a matched name whose comparison did not raise; a failed entry comparison never fails the list |
| ReconcilerProperties.ReconcileFailsIff | utils/compare_sdkdb.py:69-79 | the list returns false iff some baseline entry with a non-empty name is unmatched, all before it passing; the last line printed is then `Missing <name> from SDKDB` for it |
| ReconcilerProperties.SdkdbWalkPassesIff | utils/compare_sdkdb.py:88-102 | the loop over baseline keys passes iff every key is accepted |
| ReconcilerProperties.SdkdbPassesIff | utils/compare_sdkdb.py:86-102 | the document passes iff the baseline is a dict and each key is accepted: `public` needs a public candidate; any other key must be in the candidate with a passing list |
| ReconcilerProperties.PublicNeedsPublicCandidate | utils/compare_sdkdb.py:82-94 | a baseline with a `public` key, whatever its value, never passes against a candidate whose `public` is falsy or absent |
| ReconcilerProperties.PublicToPrivateStops | utils/compare_sdkdb.py:89-94 | reaching `public` with a private candidate returns false at once, printing `Comparing public to private is not supported` last |
| ReconcilerProperties.SdkdbOrderIrrelevant | utils/compare_sdkdb.py:88-102 | the baseline's key order does not change whether the document passes |
| AsWritten.DiffDictAsWritten | utils/compare_sdkdb.py:25 | as written, `diff_dict` raises before comparing anything |
| AsWritten.SdkdbAsWritten | utils/compare_sdkdb.py:88 | as written, `compare_sdkdb` raises before comparing anything |
| AsWritten.IteritemsCounterexample | utils/compare_sdkdb.py:24-31 | on two empty dicts and on two empty documents, the code as written raises where the intended code passes |
| Scenarios.ScalarMismatch | utils/compare_sdkdb.py:17-21 | `1` vs `2` under `[a]` fails with one not-equal line |
| Scenarios.DictAsymmetry | utils/compare_sdkdb.py:24-31 | a missing baseline key fails; an extra candidate key is ignored |
| Scenarios.ListAsymmetry | utils/compare_sdkdb.py:34-46 | `[1,2,3]` vs `[1,2]` and `[1,2]` vs `[1,2,3]` both pass |
| Scenarios.NamedLabel | utils/compare_sdkdb.py:35-45 | a mismatch inside a named list element is reported under `[lib]` |
| Scenarios.MatchedByName | utils/compare_sdkdb.py:61-79 | entry lists in opposite orders match by install name |
| Scenarios.EntryDifferenceDoesNotFailList | utils/compare_sdkdb.py:49-79 | a differing entry prints its diagnostic and `in library A`, yet the list passes |
| Scenarios.MissingEntryStops | utils/compare_sdkdb.py:69-76 | a missing baseline entry stops the list with `Missing A from SDKDB` |
| Scenarios.PublicPrivate | utils/compare_sdkdb.py:86-102 | public-to-private fails, private-to-public proceeds, and a missing target fails |

## Left out

- `main` (lines 105-122) is left out: argument parsing, opening files and
  `json.load` are I/O. The model starts from two parsed values. `main`
  discards the verdict, so the process status is not modelled.
- Rendering is left out. A diagnostic is kept as data: the printed text, the
  trailing space from `end=' '`, and the Python `str()` of values and names
  inside the f-strings are not modelled.
- Floating-point numbers and Python's mixed-type equality are left out
  (`1 == True == 1.0`, NaN differing from itself). Scalars are null,
  booleans, integers and strings, and are compared structurally.
- The reflection in `diff` (`getattr` on `diff_<typename>`) becomes a
  `match` on the candidate's constructor. Its fallback to `diff_builtin` is
  the scalar case.
- Exceptions are kept as coarse categories (`Fault`). The model does not
  tell a KeyError from a TypeError when reaching `binaryInfo.installName`.
- `.iteritems()` (lines 25 and 88) is modelled as the intended `.items()`.
  The code as written is recorded only in `AsWritten` (see Findings).
- Differ.DiffReflexive: requires every dict in the value to have distinct
  keys. With the last-wins lookup, a dict with a repeated key need not
  equal itself. `json.load` never produces such a dict.
- ReconcilerProperties.SdkdbOrderIrrelevant: does not compare the printed
  diagnostics, or which exception a malformed document raises. Both depend
  on the key order.

## Findings

| source | as written | input that shows it | evidently intended | confidence | as-written member | corrected member |
|---|---|---|---|---|---|---|
| utils/compare_sdkdb.py:25 | `base.iteritems()` is a Python 2 method, but the file's f-strings need Python 3, where dicts have no `iteritems` | any dict candidate with a dict baseline, e.g. `{}` vs `{}`: AttributeError | iterate `base.items()` | high; not executed | AsWritten.DiffDictAsWritten (with AsWritten.IteritemsCounterexample) | Differ.DiffDict (with Differ.DiffDictIsAgrees and Differ.DiffReflexive) |
| utils/compare_sdkdb.py:88 | `baseline.iteritems()`, the same Python 2 method | any baseline, e.g. `{}` vs `{}`: AttributeError | iterate `baseline.items()` | high; not executed | AsWritten.SdkdbAsWritten (with AsWritten.IteritemsCounterexample) | Reconciler.CompareSdkdb (with ReconcilerProperties.SdkdbPassesIff) |
