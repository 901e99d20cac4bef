/**
 * Concrete resolutions of one-item categories, with the probes stubbed by
 * lambdas, worked out against the specification of `Targets`.
 */
module TargetScenarios {
  import opened Wrappers
  import opened Text
  import opened Targets

  lemma NormalizeAcmeInc()
    ensures Normalize("Acme Inc") == "acmeinc"
  {
    LowerAcmeInc();
    ReplaceAbsentChar("acme inc", '&', "and");
    ReplaceAbsentChar("acme inc", '.', "");
    SpacesOutOfAcmeInc();
  }

  lemma LowerAcmeInc()
    ensures Lower("Acme Inc") == "acme inc"
  {
    assert Lower("c") == "c";
    assert Lower("nc") == "nc";
    assert Lower("Inc") == "inc";
    assert Lower(" Inc") == " inc";
    assert Lower("e Inc") == "e inc";
    assert Lower("me Inc") == "me inc";
    assert Lower("cme Inc") == "cme inc";
    assert Lower("Acme Inc") == "acme inc";
  }

  lemma SpacesOutOfAcmeInc()
    ensures Replace("acme inc", " ", "") == "acmeinc"
  {
    assert "acme inc" == "acme" + [' '] + "inc";
    ReplaceFirstChar("acme", ' ', "inc", "");
    ReplaceAbsentChar("inc", ' ', "");
  }

  lemma DeriveAcmeInc()
    ensures Derived("acmeinc") == "acme"
  {
    assert Replace("inc", "inc", "") == "";
    assert Replace("einc", "inc", "") == "e";
    assert Replace("meinc", "inc", "") == "me";
    assert Replace("cmeinc", "inc", "") == "cme";
    assert Replace("acmeinc", "inc", "") == "acme";
  }

  lemma AcmeIncBaseCandidates()
    ensures CandidatesOf("acmeinc") == {"acmeinc", "acme"}
  {
    DeriveAcmeInc();
  }

  /** "Acme Inc" normalises to `acmeinc`, whose derived candidate is `acme`. */
  lemma AcmeIncCandidates()
    ensures Candidates("Acme Inc") == {"acmeinc", "acme"}
  {
    NormalizeAcmeInc();
    AcmeIncBaseCandidates();
  }

  lemma NormalizeGlobinc()
    ensures Normalize("Globinc") == "globinc"
  {
    LowerGlobinc();
    GlobincHasNoSeparators();
  }

  lemma GlobincHasNoSeparators()
    ensures Replace(Replace(Replace("globinc", "&", "and"), ".", ""), " ", "") == "globinc"
  {
    ReplaceAbsentChar("globinc", '&', "and");
    ReplaceAbsentChar("globinc", '.', "");
    ReplaceAbsentChar("globinc", ' ', "");
  }

  lemma LowerGlobinc()
    ensures Lower("Globinc") == "globinc"
  {
    assert Lower("c") == "c";
    assert Lower("nc") == "nc";
    assert Lower("inc") == "inc";
    assert Lower("binc") == "binc";
    assert Lower("obinc") == "obinc";
    assert Lower("lobinc") == "lobinc";
    assert Lower("Globinc") == "globinc";
  }

  lemma DeriveGlobinc()
    ensures Derived("globinc") == "glob"
  {
    assert Replace("inc", "inc", "") == "";
    assert Replace("binc", "inc", "") == "b";
    assert Replace("obinc", "inc", "") == "ob";
    assert Replace("lobinc", "inc", "") == "lob";
    assert Replace("globinc", "inc", "") == "glob";
  }

  lemma GlobincBaseCandidates()
    ensures CandidatesOf("globinc") == {"globinc", "glob"}
  {
    DeriveGlobinc();
  }

  /** "Globinc" gives the two candidates `globinc` and `glob`. */
  lemma GlobincCandidates()
    ensures Candidates("Globinc") == {"globinc", "glob"}
  {
    NormalizeGlobinc();
    GlobincBaseCandidates();
  }

  /** A bare item whose only Greenhouse-accepted candidate is `h` resolves to that board. */
  lemma BareItemOnGreenhouse(name: string, h: string, other: string, out: seq<Target>)
    requires Candidates(name) == {h, other}
    requires CategoryOutcome([Item(Some(name), None, None)], c => c == h, c => false, out)
    ensures out == [Target(name, GREENHOUSE, h)]
  {
    var item := Item(Some(name), None, None);
    var gh: string -> bool := c => c == h;
    var lv: string -> bool := c => false;
    var outcomes: seq<Option<Target>> :| Explains([item], gh, lv, outcomes) && Emitted(outcomes) == out;
    assert ItemOutcome(item, gh, lv, outcomes[0]);
    assert NameOf(item) == name;
    assert h in Candidates(name) && gh(h);
    assert outcomes[0] == Some(Target(name, GREENHOUSE, h));
    assert outcomes[..0] == [];
    assert Emitted(outcomes) == Emitted(outcomes[..0]) + [outcomes[0].value];
  }

  /** A bare item none of whose candidates any probe accepts is dropped. */
  lemma BareItemUnresolved(name: string, out: seq<Target>)
    requires CategoryOutcome([Item(Some(name), None, None)], c => false, c => false, out)
    ensures out == []
  {
    var item := Item(Some(name), None, None);
    var gh: string -> bool := c => false;
    var lv: string -> bool := c => false;
    var outcomes: seq<Option<Target>> :| Explains([item], gh, lv, outcomes) && Emitted(outcomes) == out;
    assert ItemOutcome(item, gh, lv, outcomes[0]);
    assert outcomes[0] == None;
    assert outcomes[..0] == [];
    assert Emitted(outcomes) == Emitted(outcomes[..0]);
  }

  /** A bare "Acme Inc" whose Greenhouse board is `acmeinc` resolves to exactly that board. */
  lemma AcmeIncOnGreenhouse(out: seq<Target>)
    requires CategoryOutcome([Item(Some("Acme Inc"), None, None)], c => c == "acmeinc", c => false, out)
    ensures out == [Target("Acme Inc", GREENHOUSE, "acmeinc")]
  {
    AcmeIncCandidates();
    BareItemOnGreenhouse("Acme Inc", "acmeinc", "acme", out);
  }

  /** With every probe failing, "Globinc" is dropped after both its candidates fail on both providers. */
  lemma GlobincUnresolved(out: seq<Target>)
    requires CategoryOutcome([Item(Some("Globinc"), None, None)], c => false, c => false, out)
    ensures out == []
  {
    GlobincCandidates();
    BareItemUnresolved("Globinc", out);
  }

  /** An explicit Lever entry whose probe fails is dropped, leaving the category empty. */
  lemma ExplicitLeverRejected(name: string, out: seq<Target>)
    requires CategoryOutcome([Item(Some(name), Some(LEVER), Some("foo"))], c => true, c => false, out)
    ensures out == []
  {
    var item := Item(Some(name), Some(LEVER), Some("foo"));
    var outcomes: seq<Option<Target>> :| Explains([item], c => true, c => false, outcomes) && Emitted(outcomes) == out;
    assert Explicit(item);
    assert outcomes[0] == None;
    assert outcomes[..0] == [];
    assert Emitted(outcomes) == Emitted(outcomes[..0]);
  }
}
