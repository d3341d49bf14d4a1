/** Worked examples of the classifier and the fallback month layout on
    concrete commit messages. Each keyword absence is shown by a character,
    or a pair of adjacent characters, of the keyword that the message lacks. */
module Scenarios {
  import opened Wrappers
  import opened Text
  import opened Commits
  import opened Analysis
  import opened Grouping
  import opened Composer

  /** A keyword seen at a known position is contained. */
  lemma Present(s: string, t: string, i: int)
    requires OccursAt(s, t, i)
    ensures Contains(s, t)
  {
    ContainsAt(s, t);
  }

  const FeatMessage := "feat: add login"
  const FixMessage := "fix: crash on null"
  const DocsMessage := "docs: update readme"

  // One keyword absence per lemma keeps each literal check small.
  lemma DocsLacksFeat(m: string) requires m == DocsMessage ensures !Contains(m, "feat") { MissingChar(m, "feat", 0); }
  lemma DocsLacksAdd(m: string) requires m == DocsMessage ensures !Contains(m, "add") { MissingPair(m, "add", 1); }
  lemma DocsLacksNew(m: string) requires m == DocsMessage ensures !Contains(m, "new") { MissingChar(m, "new", 0); }
  lemma DocsLacksImplement(m: string) requires m == DocsMessage ensures !Contains(m, "implement") { MissingChar(m, "implement", 0); }
  lemma DocsLacksCreate(m: string) requires m == DocsMessage ensures !Contains(m, "create") { MissingPair(m, "create", 0); }
  lemma DocsLacksIntroduce(m: string) requires m == DocsMessage ensures !Contains(m, "introduce") { MissingChar(m, "introduce", 0); }
  lemma DocsLacksFix(m: string) requires m == DocsMessage ensures !Contains(m, "fix") { MissingChar(m, "fix", 0); }
  lemma DocsLacksBug(m: string) requires m == DocsMessage ensures !Contains(m, "bug") { MissingChar(m, "bug", 0); }
  lemma DocsLacksPatch(m: string) requires m == DocsMessage ensures !Contains(m, "patch") { MissingChar(m, "patch", 4); }
  lemma DocsLacksResolve(m: string) requires m == DocsMessage ensures !Contains(m, "resolve") { MissingChar(m, "resolve", 4); }
  lemma DocsLacksCorrect(m: string) requires m == DocsMessage ensures !Contains(m, "correct") { MissingPair(m, "correct", 0); }
  lemma DocsLacksInitial(m: string) requires m == DocsMessage ensures !Contains(m, "initial") { MissingChar(m, "initial", 0); }
  lemma DocsLacksFirst(m: string) requires m == DocsMessage ensures !Contains(m, "first") { MissingChar(m, "first", 0); }
  lemma DocsLacksSetup(m: string) requires m == DocsMessage ensures !Contains(m, "setup") { MissingPair(m, "setup", 0); }
  lemma DocsLacksInit(m: string) requires m == DocsMessage ensures !Contains(m, "init") { MissingChar(m, "init", 0); }
  lemma FixLacksFeat(m: string) requires m == FixMessage ensures !Contains(m, "feat") { MissingChar(m, "feat", 1); }
  lemma FixLacksAdd(m: string) requires m == FixMessage ensures !Contains(m, "add") { MissingChar(m, "add", 1); }
  lemma FixLacksNew(m: string) requires m == FixMessage ensures !Contains(m, "new") { MissingChar(m, "new", 1); }
  lemma FixLacksImplement(m: string) requires m == FixMessage ensures !Contains(m, "implement") { MissingChar(m, "implement", 1); }
  lemma FixLacksCreate(m: string) requires m == FixMessage ensures !Contains(m, "create") { MissingChar(m, "create", 2); }
  lemma FixLacksIntroduce(m: string) requires m == FixMessage ensures !Contains(m, "introduce") { MissingChar(m, "introduce", 2); }
  lemma FixLacksInitial(m: string) requires m == FixMessage ensures !Contains(m, "initial") { MissingChar(m, "initial", 3); }
  lemma FixLacksFirst(m: string) requires m == FixMessage ensures !Contains(m, "first") { MissingChar(m, "first", 4); }
  lemma FixLacksSetup(m: string) requires m == FixMessage ensures !Contains(m, "setup") { MissingChar(m, "setup", 1); }
  lemma FixLacksInit(m: string) requires m == FixMessage ensures !Contains(m, "init") { MissingChar(m, "init", 3); }
  lemma FeatLacksInitial(m: string) requires m == FeatMessage ensures !Contains(m, "initial") { MissingPair(m, "initial", 1); }
  lemma FeatLacksFirst(m: string) requires m == FeatMessage ensures !Contains(m, "first") { MissingChar(m, "first", 2); }
  lemma FeatLacksSetup(m: string) requires m == FeatMessage ensures !Contains(m, "setup") { MissingChar(m, "setup", 0); }
  lemma FeatLacksInit(m: string) requires m == FeatMessage ensures !Contains(m, "init") { MissingPair(m, "init", 1); }

  /** "update" comes before "doc" in the keyword order: a documentation message that says
      "update" is filed as an improvement. */
  lemma DocsUpdateIsImprovement(m: string)
    requires m == DocsMessage
    ensures Classify(m) == Some(Improvements)
  {
    LowerIsIdentity(m);
    DocsLacksFeat(m); DocsLacksAdd(m); DocsLacksNew(m);
    DocsLacksImplement(m); DocsLacksCreate(m); DocsLacksIntroduce(m);
    DocsLacksFix(m); DocsLacksBug(m); DocsLacksPatch(m); DocsLacksResolve(m); DocsLacksCorrect(m);
    DocsHasUpdate(m);
  }

  lemma FixHasFix(m: string)
    requires m == FixMessage
    ensures Contains(m, "fix")
  {
    assert m[..3] == "fix";
  }

  lemma DocsHasUpdate(m: string)
    requires m == DocsMessage
    ensures Contains(m, "update")
  {
    assert m[6..12] == "update";
    Present(m, "update", 6);
  }

  /** Lower-casing leaves a message without capitals unchanged. */
  lemma LowerIsIdentity(m: string)
    requires forall i :: 0 <= i < |m| ==> !('A' <= m[i] <= 'Z')
    ensures Lower(m) == m
  {
  }

  lemma FeatureExample(m: string)
    requires m == FeatMessage
    ensures Classify(m) == Some(Features)
  {
    LowerIsIdentity(m);
    assert m[..4] == "feat";
  }

  lemma FixExample(m: string)
    requires m == FixMessage
    ensures Classify(m) == Some(Fixes)
  {
    LowerIsIdentity(m);
    FixLacksFeat(m); FixLacksAdd(m); FixLacksNew(m);
    FixLacksImplement(m); FixLacksCreate(m); FixLacksIntroduce(m);
    FixHasFix(m);
  }

  lemma WipLacksFix(m: string) requires m == "wip" ensures !Contains(m, "fix") { MissingChar(m, "fix", 0); }
  lemma WipLacksBug(m: string) requires m == "wip" ensures !Contains(m, "bug") { MissingChar(m, "bug", 0); }
  lemma WipLacksAdd(m: string) requires m == "wip" ensures !Contains(m, "add") { MissingChar(m, "add", 0); }
  lemma WipLacksNew(m: string) requires m == "wip" ensures !Contains(m, "new") { MissingChar(m, "new", 0); }
  lemma WipLacksDoc(m: string) requires m == "wip" ensures !Contains(m, "doc") { MissingChar(m, "doc", 0); }
  lemma WipLacksDep(m: string) requires m == "wip" ensures !Contains(m, "dep") { MissingChar(m, "dep", 0); }
  lemma WipLacksNpm(m: string) requires m == "wip" ensures !Contains(m, "npm") { MissingChar(m, "npm", 0); }
  lemma WipLacksEnv(m: string) requires m == "wip" ensures !Contains(m, "env") { MissingChar(m, "env", 0); }

  /** A short unmatched message is listed nowhere. */
  lemma DroppedExample(m: string)
    requires m == "wip"
    ensures Classify(m) == None
  {
    LowerIsIdentity(m);
    WipLacksFix(m); WipLacksBug(m); WipLacksAdd(m); WipLacksNew(m);
    WipLacksDoc(m); WipLacksDep(m); WipLacksNpm(m); WipLacksEnv(m);
    assert Trim(m) == m;
    Utf16LengthBounds(m);
  }

  lemma FeatIsNotSetup(m: string)
    requires m == FeatMessage
    ensures !IsFoundationMessage(m)
  {
    LowerIsIdentity(m);
    FeatLacksInitial(m); FeatLacksFirst(m); FeatLacksSetup(m); FeatLacksInit(m);
  }

  lemma FixIsNotSetup(m: string)
    requires m == FixMessage
    ensures !IsFoundationMessage(m)
  {
    LowerIsIdentity(m);
    FixLacksInitial(m); FixLacksFirst(m); FixLacksSetup(m); FixLacksInit(m);
  }

  lemma DocsIsNotSetup(m: string)
    requires m == DocsMessage
    ensures !IsFoundationMessage(m)
  {
    LowerIsIdentity(m);
    DocsLacksInitial(m); DocsLacksFirst(m); DocsLacksSetup(m); DocsLacksInit(m);
  }

  /** A message without a line break is its own first line. */
  lemma SingleLine(m: string)
    requires '\n' !in m
    ensures FirstLine(m) == m
    decreases |m|
  {
    if m != [] {
      SingleLine(m[1..]);
    }
  }

  /** A month of three single-line commits none of which looks like setup
      (as `FeatIsNotSetup`, `FixIsNotSetup` and `DocsIsNotSetup` show for a
      feature, a fix and a documentation update) takes the sparse path: one
      "Development Activity" section with one bullet per commit, not one
      section per category. */
  lemma ThreeCommitMonth(g: MonthGroup)
    requires |g.commits| == 3
    requires forall i :: 0 <= i < 3 ==>
      !IsFoundationMessage(g.commits[i].message) && FirstLine(g.commits[i].message) == g.commits[i].message
    ensures FallbackMonth(g).sections == [Section(DevelopmentActivity, [
      CommitLine(g.commits[0].message, Some(g.commits[0].committedAt)),
      CommitLine(g.commits[1].message, Some(g.commits[1].committedAt)),
      CommitLine(g.commits[2].message, Some(g.commits[2].committedAt))])]
  {
    var cs := g.commits;
    SmallMonthIsSparse(g);
    assert !HasInitialCommit(cs);
    var bullets := seq(|cs|, i requires 0 <= i < |cs| => CommitLine(FirstLine(cs[i].message), Some(cs[i].committedAt)));
    assert SparseSection(cs) == Section(DevelopmentActivity, bullets);
    assert bullets[0] == CommitLine(cs[0].message, Some(cs[0].committedAt));
    assert bullets[1] == CommitLine(cs[1].message, Some(cs[1].committedAt));
    assert bullets[2] == CommitLine(cs[2].message, Some(cs[2].committedAt));
    assert bullets == [bullets[0], bullets[1], bullets[2]];
  }

  /** A lone "Initial commit" opens with the "Project Foundation" section. */
  lemma InitialCommitMonth(g: MonthGroup)
    requires |g.commits| == 1 && g.commits[0].message == "Initial commit"
    ensures FallbackMonth(g).sections == [Section(ProjectFoundation, [InitializationLine, StructureLine])]
  {
    SmallMonthIsSparse(g);
    InitialCommitSection(g.commits);
  }

  lemma InitialCommitSection(cs: seq<Commit>)
    requires |cs| == 1 && cs[0].message == "Initial commit"
    ensures SparseSection(cs) == Section(ProjectFoundation, [InitializationLine, StructureLine])
  {
    InitialIsSetup(cs[0].message);
    assert HasInitialCommit(cs);
  }

  lemma InitialIsSetup(m: string)
    requires m == "Initial commit"
    ensures IsFoundationMessage(m)
  {
    assert Lower(m)[..7] == "initial";
  }

  /** The version of a 15 January 2024 generation. */
  lemma VersionExample(now: Instant)
    requires now == Instant(2024, 1, 15, 0)
    ensures Version(now) == "v2024.01.15"
  {
    Year2024();
    MonthDay();
    assert IntToString(now.year) == "2024";
  }

  lemma Year2024()
    ensures NatToDigits(2024) == "2024"
  {
    assert NatToDigits(2) == "2";
    assert NatToDigits(20) == NatToDigits(2) + "0";
    assert NatToDigits(202) == NatToDigits(20) + "2";
    assert NatToDigits(2024) == NatToDigits(202) + "4";
  }

  lemma MonthDay()
    ensures Pad2(1) == "01" && Pad2(15) == "15"
  {
    assert NatToDigits(1) == "1";
    assert PadStart("1", 2, '0') == PadStart("01", 2, '0');
    assert NatToDigits(15) == NatToDigits(1) + "5";
  }
}
