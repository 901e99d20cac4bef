# Target resolution for a job-search pipeline

This project models the target-resolution core of a job-search pipeline
(`src/sourcing/targets.py`). The input maps each category name (such as
"enterprise" or "startup") to a list of company entries. Each entry may give a
`name`, a `provider` and a `handle`. The core works out which applicant-tracking
system (Greenhouse or Lever) hosts each company's job board, and under which
handle.

- An entry that gives both `provider` and `handle` is never autodetected. If
  its provider is `greenhouse` or `lever`, it gets exactly that provider's
  probe and is kept unchanged when the probe accepts the handle. Any other
  provider string gets no probe at all. In every other case the entry is
  dropped.
- Any other entry goes through autodetection on its name. The name is
  normalised into at most two handle candidates. Every candidate is tried
  against Greenhouse first, and only then every candidate against Lever.
- An entry that nothing accepts is silently skipped. Every input category still
  gets a list, possibly empty.

The two network probes are parameters `gh` and `lv` of type `string -> bool`.
Each is a total predicate on handles, and `false` stands for every failure.
Being functions, they fix one answer per handle for the whole run. A live
probe could answer differently when the same handle is probed twice, for
example for two entries with the same name; the model does not capture that.

Modules:

- `Wrappers` (`wrappers.dfy`): `Option`.
- `Text` (`text.dfy`): the Python string operations used. These are ASCII
  `lower`, `str.replace` (left to right, non-overlapping, one pass), the
  substring test `in`, and `strip` of one character. Their properties are
  lemmas.
- `Targets` (`targets.dfy`): the core. It holds candidate generation, the
  imperative `AutodetectProvider` (two loops with early return over the
  candidate set), and `ResolveCategory` / `ResolveTargets` (the nested loops
  of `resolve_targets` that build lists and a map). It also holds the
  specification predicates these methods are proved against, and the lemmas
  about them.
- `TargetScenarios` (`scenarios.dfy`): worked examples on concrete names with
  stubbed probes.

A Python `set` has no defined iteration order, so `AutodetectProvider` picks
any untried candidate in each loop. Its specification (`Detection`) is
therefore a relation, and so are the per-item and per-category specifications
(`ItemOutcome`, `CategoryOutcome`). A category's output is explained by a
sequence of per-item outcomes aligned with the input items. Separate lemmas
prove that any two explanations agree on everything except possibly which
candidate handle was picked.

Where the design description and the code differ, the model follows the code:

- The description asks for the base candidate to be tried before the derived
  one. The code keeps the candidates in a `set`, so the model allows either
  order and states the results as "some candidate was accepted".
- The description types `provider` as Greenhouse-or-Lever. The code accepts
  any string and drops an explicit entry whose provider is anything else,
  without probing it.
- The description calls `name` required. The code uses `""` for a missing or
  empty name, and an entry without a usable provider and handle is then
  autodetected on the empty name.
- The description has the derived candidate strip leading and trailing
  hyphens. The code takes that branch only when the base has no hyphen, so the
  strip never changes anything (`DerivedIsIncRemoval`). The code comment
  "add a dashed variant" is also misleading: no dash is ever added.
- "Present" means Python truthiness: a field given as the empty string counts
  as missing.

## Model

| member | source | states |
|---|---|---|
| `Text.Lower` | src/sourcing/targets.py:27 | definition of `name.lower()` on ASCII, character by character; its properties are `Text.LowerSpec` |
| `Text.Replace` | src/sourcing/targets.py:27-31 | definition of `str.replace`: left to right, non-overlapping, one pass; its properties are the `Text.Replace*` and `Text.Remove*` lemmas |
| `Text.Strip` | src/sourcing/targets.py:31 | definition of `strip("-")` as left then right stripping of one character; its properties are `Text.StripSpec` |
| `Text.LowerSpec` | src/sourcing/targets.py:27 | ASCII lower-casing keeps the length, turns each `A`-`Z` into the letter 32 code points on (its lower-case form), leaves no upper-case letter, and changes nothing else |
| `Text.ReplaceChars` | src/sourcing/targets.py:27 | every character of a `replace` result comes from the text or from the replacement |
| `Text.ReplaceRemovesChar` | src/sourcing/targets.py:27 | replacing a one-character pattern by text that lacks it leaves no occurrence of that character |
| `Text.RemoveChangesIffOccurs` | src/sourcing/targets.py:31 | `s.replace(pat, "")` equals `s` exactly when `pat` does not occur in `s`, and is never longer than `s` |
| `Text.RemoveShrinks` | src/sourcing/targets.py:31 | removing a pattern that occurs shortens the text by at least the pattern's length |
| `Text.StripSpec` | src/sourcing/targets.py:31 | `strip(c)` leaves a contiguous piece `s[i..j]` where everything cut off before `i` and from `j` on is `c`, with no `c` at either end of the result; it is the identity on text without `c` |
| `Targets.Normalize` | src/sourcing/targets.py:27 | definition of the base handle: lower-cased, `&` replaced by `and`, then `.` and spaces removed; its properties are `Targets.NormalizeClean` |
| `Targets.Derived` | src/sourcing/targets.py:31 | definition of the second candidate `base.replace("inc","").strip("-")`; its properties are `Targets.DerivedIsIncRemoval` |
| `Targets.CandidatesOf` | src/sourcing/targets.py:26-31 | definition of the candidate set from a base: the base, plus the derived candidate when the base has no `-` and is longer than 4 |
| `Targets.Candidates` | src/sourcing/targets.py:26-31 | definition of the candidate set of a name; its properties are `Targets.CandidatesShape` |
| `Targets.Truthy` | src/sourcing/targets.py:58 | definition of Python truthiness of an optional string field: present and non-empty |
| `Targets.NameOf` | src/sourcing/targets.py:55 | definition of `item.get("name") or ""` |
| `Targets.Explicit` | src/sourcing/targets.py:58 | definition of `provider and handle`: both fields truthy |
| `Targets.Probe` | src/sourcing/targets.py:59 | definition of the one probe an explicit entry gets: Greenhouse's for `greenhouse`, Lever's for `lever`, none (false) otherwise |
| `Targets.Detection` | src/sourcing/targets.py:32-40 | specification of what `autodetect_provider` may return for a candidate set under an unspecified iteration order |
| `Targets.ItemOutcome` | src/sourcing/targets.py:54-67 | specification of what one item may contribute: the explicit branch and the autodetect branch |
| `Targets.Emitted` | src/sourcing/targets.py:53-67 | definition of the list built by appending each item's record, if any, in item order |
| `Targets.CategoryOutcome` | src/sourcing/targets.py:53-68 | specification of a category's list: some per-item outcomes allowed by `Targets.ItemOutcome` emit exactly it |
| `Targets.NormalizeClean` | src/sourcing/targets.py:27 | the normalised base has no `&`, `.` or space and no upper-case ASCII letter |
| `Targets.DerivedIsIncRemoval` | src/sourcing/targets.py:29-31 | on the derived branch `strip("-")` does nothing; the derived candidate is the base with all `inc` removed, is no longer than the base, and differs from it exactly when `inc` occurs |
| `Targets.CandidatesShape` | src/sourcing/targets.py:26-31 | the candidate set contains the base and has at most two elements; it has two exactly when the base has no `-`, is longer than 4 and contains `inc`; the other element is then the shorter `inc`-free form |
| `Targets.AutodetectProvider` | src/sourcing/targets.py:21-40 | returns Greenhouse exactly when some candidate passes the Greenhouse probe; returns Lever only if no candidate passes Greenhouse and the handle passes Lever; returns `None` exactly when every candidate fails both probes; any returned handle is a candidate |
| `Targets.DetectionProviderDetermined` | src/sourcing/targets.py:32-40 | whatever order the candidates are tried in, autodetection agrees on whether a board is found and on its provider, and is fully determined for a single candidate |
| `Targets.ResolveCategory` | src/sourcing/targets.py:53-67 | the list built for a category is explained item by item: each item contributes the record its outcome allows, or nothing |
| `Targets.ResolveTargets` | src/sourcing/targets.py:46-69 | the output has exactly the input's category keys, and every category's list is one `ResolveCategory` may build |
| `Targets.CategoryIsSubsequence` | src/sourcing/targets.py:53-68 | a category's list is no longer than its items; its records come from strictly increasing item positions, carry that item's name, and name Greenhouse or Lever; an item position is used exactly when the item is resolvable |
| `Targets.ItemEmittedIffResolvable` | src/sourcing/targets.py:58-67 | an item contributes a record exactly when it is resolvable: an explicit entry whose own probe accepts, or another entry with some candidate passing either probe |
| `Targets.ExplicitAcceptedEmitted` | src/sourcing/targets.py:58-61 | in a whole category, an explicit entry whose own provider's probe accepts its handle appears in the list as exactly its record |
| `Targets.EmittedProvider` | src/sourcing/targets.py:55-67 | an emitted record carries the item's name (or `""`) and a Greenhouse or Lever provider; an autodetected handle is one of the name's candidates |
| `Targets.ExplicitKeptOrDropped` | src/sourcing/targets.py:58-62 | an entry with provider and handle is emitted unchanged exactly when its provider is Greenhouse or Lever and that probe accepts the handle, and is dropped otherwise, never autodetected |
| `Targets.ItemOutcomeDetermined` | src/sourcing/targets.py:54-67 | two outcomes for the same item agree on presence, name and provider, and are identical for explicit entries and single-candidate names |
| `Targets.CategoryOutcomeDetermined` | src/sourcing/targets.py:52-68 | resolving a category twice with the same probes gives lists of equal length with equal names and providers at every position |
| `Targets.EmittedIsSubsequence` | src/sourcing/targets.py:53-67 | the appended records are exactly the successful outcomes, each once, in input order: every emitted record comes from a successful outcome and every successful outcome is emitted |
| `TargetScenarios.AcmeIncCandidates` | src/sourcing/targets.py:26-31 | "Acme Inc" yields the candidates `acmeinc` and `acme` |
| `TargetScenarios.GlobincCandidates` | src/sourcing/targets.py:26-31 | "Globinc" yields the candidates `globinc` and `glob` |
| `TargetScenarios.AcmeIncOnGreenhouse` | src/sourcing/targets.py:63-67 | a bare "Acme Inc" whose Greenhouse board is `acmeinc` resolves to `{"Acme Inc", "greenhouse", "acmeinc"}` |
| `TargetScenarios.GlobincUnresolved` | src/sourcing/targets.py:33-40 | with every probe failing, a bare "Globinc" is dropped and its category list is empty |
| `TargetScenarios.ExplicitLeverRejected` | src/sourcing/targets.py:58-62 | an explicit Lever entry `foo` whose probe fails is dropped, even when Greenhouse would accept every handle |

## Left out

- `probe_greenhouse` and `probe_lever` (src/sourcing/targets.py:7-19): these are live HTTP GETs with an 8-second timeout, a status check, a host check on the redirected URL and exception swallowing. They become the oracle parameters `gh` and `lv`.
- `load_targets` (src/sourcing/targets.py:42-44): it only reads a file and parses YAML.
- `src/main.py`: orchestration and I/O. This covers config reads, job fetchers, scoring, LLM tailoring, file writes, SQLite upserts and printing. The modules it imports are not part of this model.
- The order in which a Python `set` is iterated is left unspecified (nondeterministic choice). The key order of the output `dict` is not modelled, because Dafny maps are unordered.
- `str.lower` is modelled on ASCII only. Non-ASCII characters pass through unchanged, unlike Python's full Unicode lower-casing. Strings are sequences of Unicode scalar values, so `len` agrees with Python's; a Python `str` can also hold lone surrogates, which a Dafny `char` cannot, and those are not modelled.
- Live probes answering differently for the same handle at different times (flaky network, a board created mid-run) are not modelled: `gh` and `lv` are fixed functions.
- Non-string YAML values (numbers, lists) in `name`, `provider` or `handle`, and structurally malformed input (a non-list category, a non-dict item), are not modelled. The input is a `map<string, seq<Item>>` with optional string fields.
- The "Acme & Co." example is not worked out on the literal string. The fact it illustrates (no `inc`, so a single candidate) is `Targets.CandidatesShape` for every name.
- Timeouts, retries and concurrency: the code is sequential and has none.
