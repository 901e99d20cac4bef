/**
 * Target resolution: turning a category -> company list into a category ->
 * (name, provider, handle) list, validating explicit entries with one probe
 * and inferring the others by trying normalised handle candidates against
 * Greenhouse first and Lever second.
 *
 * The two network probes are oracle parameters `gh` and `lv`: total
 * predicates on handles, `false` standing for every failure (non-200 status,
 * wrong host after redirects, timeout or any other exception).
 */
module Targets {
  import opened Wrappers
  import opened Text

  const GREENHOUSE: string := "greenhouse"
  const LEVER: string := "lever"

  /** One configured target; each field may be missing, as in the YAML mapping. */
  datatype Item = Item(name: Option<string>, provider: Option<string>, handle: Option<string>)

  /** One emitted record `{"name", "provider", "handle"}`. */
  datatype Target = Target(name: string, provider: string, handle: string)

  /** What `autodetect_provider` returns when it finds a board: `(provider, handle)`. */
  datatype Detected = Detected(provider: string, handle: string)

  /** Python truthiness of an optional string field: present and non-empty. */
  predicate Truthy(field: Option<string>) {
    field.Some? && field.value != ""
  }

  /** `item.get("name") or ""`. */
  function NameOf(item: Item): string {
    if Truthy(item.name) then item.name.value else ""
  }

  /** Both `provider` and `handle` are given, so the entry is validated rather than inferred. */
  predicate Explicit(item: Item) {
    Truthy(item.provider) && Truthy(item.handle)
  }

  /** The single probe an explicit entry gets: the one its provider names, or none at all. */
  function Probe(provider: string, handle: string, gh: string -> bool, lv: string -> bool): bool {
    if provider == GREENHOUSE then gh(handle)
    else if provider == LEVER then lv(handle)
    else false
  }

  // ---------------------------------------------------------------------------
  // Handle candidates

  /** The base handle: lower-cased, `&` spelt `and`, periods and spaces dropped. */
  function Normalize(name: string): string {
    Replace(Replace(Replace(Lower(name), "&", "and"), ".", ""), " ", "")
  }

  /** Whether a second candidate is derived from the base. */
  predicate DerivedApplies(base: string) {
    '-' !in base && |base| > 4
  }

  /** The second candidate: every `inc` removed, then leading and trailing dashes stripped. */
  function Derived(base: string): string {
    Strip(Replace(base, "inc", ""), '-')
  }

  /** The candidate set `autodetect_provider` builds for a company name. */
  function Candidates(name: string): set<string> {
    CandidatesOf(Normalize(name))
  }

  /** The candidates built from an already normalised base. */
  function CandidatesOf(base: string): set<string> {
    if DerivedApplies(base) then {base, Derived(base)} else {base}
  }

  /** The base handle has no `&`, `.`, space or upper-case ASCII letter. */
  lemma NormalizeClean(name: string)
    ensures '&' !in Normalize(name) && '.' !in Normalize(name) && ' ' !in Normalize(name)
    ensures forall ch :: ch in Normalize(name) ==> !IsUpper(ch)
  {
    var s0 := Lower(name);
    var s1 := Replace(s0, "&", "and");
    var s2 := Replace(s1, ".", "");
    ReplaceRemovesChar(s0, '&', "and");
    ReplaceRemovesChar(s1, '.', "");
    ReplaceRemovesChar(s2, ' ', "");
    LowerSpec(name);
    ReplaceChars(s0, "&", "and");
    ReplaceChars(s1, ".", "");
    ReplaceChars(s2, " ", "");
  }

  /**
   * On the derived branch the `strip("-")` does nothing: the base has no dash,
   * so the derived candidate is the base with every `inc` removed.
   */
  lemma DerivedIsIncRemoval(base: string)
    requires DerivedApplies(base)
    ensures Derived(base) == Replace(base, "inc", "")
    ensures |Derived(base)| <= |base|
    ensures Derived(base) != base <==> Occurs(base, "inc")
  {
    var removed := Replace(base, "inc", "");
    ReplaceChars(base, "inc", "");
    StripSpec(removed, '-');
    RemoveChangesIffOccurs(base, "inc");
  }

  /**
   * The candidate set holds the base and at most one more handle; a second
   * one exists exactly when the base has no dash, is longer than four and
   * contains `inc`, and it is then the base with `inc` removed.
   */
  lemma CandidatesShape(name: string)
    ensures Normalize(name) in Candidates(name)
    ensures |Candidates(name)| <= 2
    ensures |Candidates(name)| == 2 <==>
              DerivedApplies(Normalize(name)) && Occurs(Normalize(name), "inc")
    ensures forall c :: c in Candidates(name) && c != Normalize(name) ==>
              DerivedApplies(Normalize(name)) && c == Replace(Normalize(name), "inc", "") &&
              |c| < |Normalize(name)|
  {
    CandidatesOfShape(Normalize(name));
  }

  /** `CandidatesShape` for an already normalised base. */
  lemma CandidatesOfShape(base: string)
    ensures base in CandidatesOf(base)
    ensures |CandidatesOf(base)| <= 2
    ensures |CandidatesOf(base)| == 2 <==> DerivedApplies(base) && Occurs(base, "inc")
    ensures forall c :: c in CandidatesOf(base) && c != base ==>
              DerivedApplies(base) && c == Replace(base, "inc", "") && |c| < |base|
  {
    if DerivedApplies(base) {
      DerivedIsIncRemoval(base);
      var d := Derived(base);
      if d == base {
        assert CandidatesOf(base) == {base};
      } else {
        assert |{base, d}| == 2 by {
          assert {base, d} == {base} + {d};
        }
        RemoveShrinks(base, "inc");
      }
    } else {
      assert CandidatesOf(base) == {base};
    }
  }

  // ---------------------------------------------------------------------------
  // Provider autodetection

  /**
   * What `autodetect_provider` may answer for a candidate set: a Greenhouse
   * hit on some candidate; else a Lever hit on some candidate; else `None`.
   */
  ghost predicate Detection(cands: set<string>, gh: string -> bool, lv: string -> bool, found: Option<Detected>) {
    match found
    case None => forall c :: c in cands ==> !gh(c) && !lv(c)
    case Some(d) =>
      && d.handle in cands
      && ((d.provider == GREENHOUSE && gh(d.handle)) ||
          (d.provider == LEVER && lv(d.handle) && forall c :: c in cands ==> !gh(c)))
  }

  /**
   * `autodetect_provider(name)`: builds the candidate set, tries every
   * candidate against Greenhouse, and only then every candidate against Lever.
   * The set's iteration order is unspecified, so each loop picks any candidate
   * it has not tried yet.
   */
  method AutodetectProvider(name: string, gh: string -> bool, lv: string -> bool) returns (found: Option<Detected>)
    ensures Detection(Candidates(name), gh, lv, found)
    ensures (found.Some? && found.value.provider == GREENHOUSE) <==> exists c :: c in Candidates(name) && gh(c)
    ensures (found.Some? && found.value.provider == LEVER) ==>
              lv(found.value.handle) && forall c :: c in Candidates(name) ==> !gh(c)
    ensures found.None? <==> forall c :: c in Candidates(name) ==> !gh(c) && !lv(c)
    ensures found.Some? ==> found.value.handle in Candidates(name)
  {
    var candidates: set<string> := {};
    var base := Normalize(name);
    candidates := candidates + {base};
    if '-' !in base && |base| > 4 {
      candidates := candidates + {Strip(Replace(base, "inc", ""), '-')};
    }
    assert candidates == Candidates(name);

    var untried := candidates;
    while untried != {}
      invariant untried <= candidates
      invariant forall c :: c in candidates && c !in untried ==> !gh(c)
      decreases untried
    {
      var c :| c in untried;
      if gh(c) {
        return Some(Detected(GREENHOUSE, c));
      }
      untried := untried - {c};
    }

    untried := candidates;
    while untried != {}
      invariant untried <= candidates
      invariant forall c :: c in candidates && c !in untried ==> !lv(c)
      decreases untried
    {
      var c :| c in untried;
      if lv(c) {
        return Some(Detected(LEVER, c));
      }
      untried := untried - {c};
    }
    return None;
  }

  /**
   * Whatever order the candidates are tried in, the answer agrees on whether a
   * board was found and on which provider hosts it; with a single candidate it
   * is fully determined.
   */
  lemma DetectionProviderDetermined(cands: set<string>, gh: string -> bool, lv: string -> bool,
                                    f1: Option<Detected>, f2: Option<Detected>)
    requires Detection(cands, gh, lv, f1) && Detection(cands, gh, lv, f2)
    ensures f1.None? <==> f2.None?
    ensures f1.Some? && f2.Some? ==> f1.value.provider == f2.value.provider
    ensures |cands| == 1 ==> f1 == f2
  {
    if |cands| == 1 && f1.Some? && f2.Some? {
      var c :| c in cands;
      assert |cands - {c}| == 0;
      assert cands == {c};
    }
  }

  // ---------------------------------------------------------------------------
  // Resolution of a category -> items mapping

  /**
   * What one item may contribute to its category's list: an explicit entry is
   * kept unchanged exactly when its own provider's probe accepts its handle
   * and is never sent to autodetection; any other entry gets what
   * autodetection on its name finds, or nothing.
   */
  ghost predicate ItemOutcome(item: Item, gh: string -> bool, lv: string -> bool, r: Option<Target>) {
    var name := NameOf(item);
    if Explicit(item) then
      r == (if Probe(item.provider.value, item.handle.value, gh, lv)
            then Some(Target(name, item.provider.value, item.handle.value))
            else None)
    else
      match r
      case None => Detection(Candidates(name), gh, lv, None)
      case Some(t) => t.name == name && Detection(Candidates(name), gh, lv, Some(Detected(t.provider, t.handle)))
  }

  /** The records emitted, in order, by a sequence of per-item outcomes. */
  function Emitted(outcomes: seq<Option<Target>>): seq<Target> {
    if outcomes == [] then []
    else
      var last := outcomes[|outcomes| - 1];
      Emitted(outcomes[..|outcomes| - 1]) + (if last.Some? then [last.value] else [])
  }

  /** `outcomes` gives every item of the category an outcome it may have. */
  ghost predicate Explains(items: seq<Item>, gh: string -> bool, lv: string -> bool, outcomes: seq<Option<Target>>) {
    && |outcomes| == |items|
    && forall i :: 0 <= i < |items| ==> ItemOutcome(items[i], gh, lv, outcomes[i])
  }

  /** `out` is a list `resolve_targets` may build for a category holding `items`. */
  ghost predicate CategoryOutcome(items: seq<Item>, gh: string -> bool, lv: string -> bool, out: seq<Target>) {
    exists outcomes :: Explains(items, gh, lv, outcomes) && Emitted(outcomes) == out
  }

  /**
   * `idx` lists, in increasing order, exactly the positions of `outcomes`
   * that hold a record, and `out` holds those records in that order.
   */
  ghost predicate IndexMap(idx: seq<int>, outcomes: seq<Option<Target>>, out: seq<Target>) {
    && |idx| == |out|
    && (forall k :: 0 <= k < |idx| ==> 0 <= idx[k] < |outcomes| && outcomes[idx[k]] == Some(out[k]))
    && (forall k, l :: 0 <= k < l < |idx| ==> idx[k] < idx[l])
    && (forall i :: 0 <= i < |outcomes| && outcomes[i].Some? ==> i in idx)
  }

  /** The emitted records are all the `Some` outcomes and nothing else, in their original order. */
  lemma {:induction false} EmittedIsSubsequence(outcomes: seq<Option<Target>>)
    ensures |Emitted(outcomes)| <= |outcomes|
    ensures exists idx :: IndexMap(idx, outcomes, Emitted(outcomes))
  {
    if outcomes == [] {
      assert IndexMap([], outcomes, []);
    } else {
      var n := |outcomes| - 1;
      var front := outcomes[..n];
      EmittedIsSubsequence(front);
      var idx :| IndexMap(idx, front, Emitted(front));
      assert forall i :: 0 <= i < n ==> outcomes[i] == front[i];
      if outcomes[n].Some? {
        assert IndexMap(idx + [n], outcomes, Emitted(outcomes));
      } else {
        assert IndexMap(idx, outcomes, Emitted(outcomes));
      }
    }
  }

  /**
   * The body of the `for item in items` loop of `resolve_targets`: one item
   * after another, appending each resolved record to `resolved`.
   */
  method ResolveCategory(items: seq<Item>, gh: string -> bool, lv: string -> bool) returns (resolved: seq<Target>)
    ensures CategoryOutcome(items, gh, lv, resolved)
  {
    resolved := [];
    ghost var outcomes: seq<Option<Target>> := [];
    for i := 0 to |items|
      invariant Explains(items[..i], gh, lv, outcomes)
      invariant Emitted(outcomes) == resolved
    {
      var item := items[i];
      var name := NameOf(item);
      var outcome: Option<Target> := None;
      if Explicit(item) {
        var provider, handle := item.provider.value, item.handle.value;
        if Probe(provider, handle, gh, lv) {
          outcome := Some(Target(name, provider, handle));
          resolved := resolved + [outcome.value];
        }
      } else {
        var found := AutodetectProvider(name, gh, lv);
        if found.Some? {
          outcome := Some(Target(name, found.value.provider, found.value.handle));
          resolved := resolved + [outcome.value];
        }
      }
      assert (outcomes + [outcome])[..i] == outcomes;
      outcomes := outcomes + [outcome];
    }
    assert items[..|items|] == items;
  }

  /**
   * `resolve_targets(data)`: every category of the input gets a list, possibly
   * empty, built by `ResolveCategory`; no category is added or lost.
   */
  method ResolveTargets(data: map<string, seq<Item>>, gh: string -> bool, lv: string -> bool)
    returns (out: map<string, seq<Target>>)
    ensures out.Keys == data.Keys
    ensures forall cat :: cat in out ==> CategoryOutcome(data[cat], gh, lv, out[cat])
  {
    out := map[];
    var pending := data.Keys;
    while pending != {}
      invariant pending <= data.Keys
      invariant out.Keys == data.Keys - pending
      invariant forall cat :: cat in out ==> CategoryOutcome(data[cat], gh, lv, out[cat])
      decreases pending
    {
      var cat :| cat in pending;
      var resolved := ResolveCategory(data[cat], gh, lv);
      out := out[cat := resolved];
      pending := pending - {cat};
    }
  }

  // ---------------------------------------------------------------------------
  // Properties of a resolved category

  /**
   * Whether an item yields a record: an explicit entry when its own
   * provider's probe accepts its handle, any other entry when some candidate
   * of its name passes either probe.
   */
  ghost predicate Resolvable(item: Item, gh: string -> bool, lv: string -> bool) {
    if Explicit(item) then Probe(item.provider.value, item.handle.value, gh, lv)
    else exists c :: c in Candidates(NameOf(item)) && (gh(c) || lv(c))
  }

  /** An item contributes a record exactly when it is resolvable. */
  lemma ItemEmittedIffResolvable(item: Item, gh: string -> bool, lv: string -> bool, r: Option<Target>)
    requires ItemOutcome(item, gh, lv, r)
    ensures r.Some? <==> Resolvable(item, gh, lv)
  {
    if !Explicit(item) && r.Some? {
      var h := r.value.handle;
      assert h in Candidates(NameOf(item)) && (gh(h) || lv(h));
    }
  }

  /**
   * A category's list is the subsequence of its resolvable items: its records
   * come, in input order, from distinct items, each with that item's name and
   * a provider that is Greenhouse or Lever, and every resolvable item
   * contributes one.
   */
  lemma CategoryIsSubsequence(items: seq<Item>, gh: string -> bool, lv: string -> bool, out: seq<Target>)
    requires CategoryOutcome(items, gh, lv, out)
    ensures |out| <= |items|
    ensures forall t :: t in out ==> t.provider == GREENHOUSE || t.provider == LEVER
    ensures exists idx: seq<int> ::
              && |idx| == |out|
              && (forall k, l :: 0 <= k < l < |idx| ==> idx[k] < idx[l])
              && (forall k :: 0 <= k < |idx| ==>
                    && 0 <= idx[k] < |items|
                    && out[k].name == NameOf(items[idx[k]])
                    && ItemOutcome(items[idx[k]], gh, lv, Some(out[k])))
              && (forall i :: 0 <= i < |items| ==> (i in idx <==> Resolvable(items[i], gh, lv)))
  {
    var outcomes :| Explains(items, gh, lv, outcomes) && Emitted(outcomes) == out;
    EmittedIsSubsequence(outcomes);
    var idx :| IndexMap(idx, outcomes, out);
    forall k | 0 <= k < |idx|
      ensures out[k].name == NameOf(items[idx[k]])
      ensures ItemOutcome(items[idx[k]], gh, lv, Some(out[k]))
      ensures out[k].provider == GREENHOUSE || out[k].provider == LEVER
    {
      EmittedProvider(items[idx[k]], gh, lv, out[k]);
    }
    forall i | 0 <= i < |items| ensures i in idx <==> Resolvable(items[i], gh, lv) {
      ItemEmittedIffResolvable(items[i], gh, lv, outcomes[i]);
      if i in idx {
        var k :| 0 <= k < |idx| && idx[k] == i;
      }
    }
    forall t | t in out ensures t.provider == GREENHOUSE || t.provider == LEVER {
      var k :| 0 <= k < |out| && out[k] == t;
    }
  }

  /**
   * At the level of a whole category: an explicit entry whose own provider's
   * probe accepts its handle appears in the list as exactly that record.
   */
  lemma ExplicitAcceptedEmitted(items: seq<Item>, gh: string -> bool, lv: string -> bool, out: seq<Target>, i: int)
    requires CategoryOutcome(items, gh, lv, out)
    requires 0 <= i < |items| && Explicit(items[i])
    requires Probe(items[i].provider.value, items[i].handle.value, gh, lv)
    ensures Target(NameOf(items[i]), items[i].provider.value, items[i].handle.value) in out
  {
    var outcomes: seq<Option<Target>> :| Explains(items, gh, lv, outcomes) && Emitted(outcomes) == out;
    EmittedIsSubsequence(outcomes);
    var idx :| IndexMap(idx, outcomes, out);
    assert outcomes[i].Some?;
    var k :| 0 <= k < |idx| && idx[k] == i;
    assert out[k] == outcomes[i].value;
  }

  /** Every emitted record names the item it came from and a known provider. */
  lemma EmittedProvider(item: Item, gh: string -> bool, lv: string -> bool, t: Target)
    requires ItemOutcome(item, gh, lv, Some(t))
    ensures t.name == NameOf(item)
    ensures t.provider == GREENHOUSE || t.provider == LEVER
    ensures !Explicit(item) ==> t.handle in Candidates(NameOf(item))
  {
  }

  /**
   * An explicit entry is never rewritten: it is emitted with its own provider
   * and handle exactly when its provider is Greenhouse or Lever and that
   * provider's probe accepts the handle, and dropped otherwise, whatever
   * autodetection would find for its name.
   */
  lemma ExplicitKeptOrDropped(item: Item, gh: string -> bool, lv: string -> bool, r: Option<Target>)
    requires Explicit(item)
    requires ItemOutcome(item, gh, lv, r)
    ensures r.Some? <==>
              (item.provider.value == GREENHOUSE && gh(item.handle.value)) ||
              (item.provider.value == LEVER && lv(item.handle.value))
    ensures r.Some? ==> r.value == Target(NameOf(item), item.provider.value, item.handle.value)
  {
  }

  /**
   * Outcomes for one item agree however the candidates were ordered: on
   * whether the item is emitted and on its provider.
   */
  lemma ItemOutcomeDetermined(item: Item, gh: string -> bool, lv: string -> bool, r1: Option<Target>, r2: Option<Target>)
    requires ItemOutcome(item, gh, lv, r1) && ItemOutcome(item, gh, lv, r2)
    ensures r1.None? <==> r2.None?
    ensures r1.Some? && r2.Some? ==> r1.value.provider == r2.value.provider && r1.value.name == r2.value.name
    ensures Explicit(item) || |Candidates(NameOf(item))| == 1 ==> r1 == r2
  {
    if !Explicit(item) {
      var cands := Candidates(NameOf(item));
      var f1 := if r1.Some? then Some(Detected(r1.value.provider, r1.value.handle)) else None;
      var f2 := if r2.Some? then Some(Detected(r2.value.provider, r2.value.handle)) else None;
      DetectionProviderDetermined(cands, gh, lv, f1, f2);
    }
  }
  /** Two outcome sequences agree, position by position, on what is emitted up to the chosen handle. */
  ghost predicate SameShape(o1: seq<Option<Target>>, o2: seq<Option<Target>>) {
    && |o1| == |o2|
    && forall i :: 0 <= i < |o1| ==>
         && (o1[i].None? <==> o2[i].None?)
         && (o1[i].Some? && o2[i].Some? ==>
               o1[i].value.name == o2[i].value.name && o1[i].value.provider == o2[i].value.provider)
  }

  lemma {:induction false} EmittedSameShape(o1: seq<Option<Target>>, o2: seq<Option<Target>>)
    requires SameShape(o1, o2)
    ensures |Emitted(o1)| == |Emitted(o2)|
    ensures forall k :: 0 <= k < |Emitted(o1)| ==>
              Emitted(o1)[k].name == Emitted(o2)[k].name && Emitted(o1)[k].provider == Emitted(o2)[k].provider
  {
    if o1 != [] {
      var n := |o1| - 1;
      assert SameShape(o1[..n], o2[..n]);
      EmittedSameShape(o1[..n], o2[..n]);
    }
  }

  /**
   * Resolving the same category twice against the same probes gives lists of
   * the same length with the same names and providers at every position; the
   * handles can differ only where a two-candidate set was searched in a
   * different order.
   */
  lemma CategoryOutcomeDetermined(items: seq<Item>, gh: string -> bool, lv: string -> bool,
                                  out1: seq<Target>, out2: seq<Target>)
    requires CategoryOutcome(items, gh, lv, out1) && CategoryOutcome(items, gh, lv, out2)
    ensures |out1| == |out2|
    ensures forall k :: 0 <= k < |out1| ==> out1[k].name == out2[k].name && out1[k].provider == out2[k].provider
  {
    var o1: seq<Option<Target>> :| Explains(items, gh, lv, o1) && Emitted(o1) == out1;
    var o2: seq<Option<Target>> :| Explains(items, gh, lv, o2) && Emitted(o2) == out2;
    forall i | 0 <= i < |items|
      ensures (o1[i].None? <==> o2[i].None?)
      ensures o1[i].Some? && o2[i].Some? ==>
                o1[i].value.name == o2[i].value.name && o1[i].value.provider == o2[i].value.provider
    {
      ItemOutcomeDetermined(items[i], gh, lv, o1[i], o2[i]);
    }
    EmittedSameShape(o1, o2);
  }
}
