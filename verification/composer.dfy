/** `generateChangelogWithAI` and `generateEnhancedFallbackChangelog`
    (src/lib/openai.ts:125-440): version and title, activity tier, and the
    section structure of the deterministic fallback changelog. The text
    service is an oracle argument; Markdown is kept as section values. */
module Composer {
  import opened Wrappers
  import opened Text
  import opened Commits
  import opened Analysis
  import opened Grouping

  // ---------------------------------------------------------------------------
  // Version and title
  // ---------------------------------------------------------------------------

  /** `v${year}.${MM}.${DD}` of the generation time. */
  function Version(now: Instant): string {
    "v" + IntToString(now.year) + "." + Pad2(now.month) + "." + Pad2(now.day)
  }

  /** `${repoName} - ${version}`, the same on the text-service and fallback paths. */
  function Title(repoName: string, version: string): string {
    repoName + " - " + version
  }

  predicate IsVersionString(v: string) {
    && |v| >= 8
    && v[0] == 'v'
    && v[|v| - 6] == '.' && v[|v| - 3] == '.'
    && IsIntLiteral(v[1..|v| - 6])
    && AllDigits(v[|v| - 5..|v| - 3])
    && AllDigits(v[|v| - 2..])
  }

  /** Reads year, month and day back out of a version string. */
  function ParseVersion(v: string): (int, int, int)
    requires IsVersionString(v)
  {
    (ParseInt(v[1..|v| - 6]), DigitsValue(v[|v| - 5..|v| - 3]), DigitsValue(v[|v| - 2..]))
  }

  /** Where the parts of `v{y}.{mm}.{dd}` sit when both date parts have two characters. */
  lemma VersionParts(y: string, mm: string, dd: string)
    requires |mm| == 2 && |dd| == 2
    ensures var v := "v" + y + "." + mm + "." + dd;
      && |v| == |y| + 7 && v[0] == 'v' && v[|v| - 6] == '.' && v[|v| - 3] == '.'
      && v[1..|v| - 6] == y && v[|v| - 5..|v| - 3] == mm && v[|v| - 2..] == dd
  {
  }

  /** The version determines the generation date: it parses back to it. */
  lemma VersionRoundTrip(now: Instant)
    ensures IsVersionString(Version(now))
    ensures ParseVersion(Version(now)) == (now.year, now.month as int, now.day as int)
  {
    IntRoundTrip(now.year);
    Pad2RoundTrip(now.month);
    Pad2RoundTrip(now.day);
    VersionParts(IntToString(now.year), Pad2(now.month), Pad2(now.day));
  }

  /** For a four-digit year the version matches `v\d{4}\.\d{2}\.\d{2}`. */
  lemma VersionFormat(now: Instant)
    requires 1000 <= now.year <= 9999
    ensures var v := Version(now);
      && |v| == 11 && v[0] == 'v' && v[5] == '.' && v[8] == '.'
      && AllDigits(v[1..5]) && AllDigits(v[6..8]) && AllDigits(v[9..11])
  {
    FourDigits(now.year);
    Pad2RoundTrip(now.month);
    Pad2RoundTrip(now.day);
    assert IntToString(now.year) == NatToDigits(now.year);
    VersionParts(IntToString(now.year), Pad2(now.month), Pad2(now.day));
  }

  // ---------------------------------------------------------------------------
  // Activity tier and sparseness
  // ---------------------------------------------------------------------------

  datatype Tier = Light | Moderate | Heavy

  /** `commitFrequency < 10 ? 'Light' : commitFrequency < 30 ? 'Moderate' : 'Heavy'`. */
  function ActivityTier(commitFrequency: nat): Tier {
    if commitFrequency < 10 then Light
    else if commitFrequency < 30 then Moderate
    else Heavy
  }

  function TierRank(t: Tier): nat {
    match t
    case Light => 0
    case Moderate => 1
    case Heavy => 2
  }

  /** More commits never lower the tier, and the tier boundaries are 10 and 30. */
  lemma TierMonotone(a: nat, b: nat)
    requires a <= b
    ensures TierRank(ActivityTier(a)) <= TierRank(ActivityTier(b))
    ensures ActivityTier(b) == Light ==> b < 10
    ensures ActivityTier(a) == Heavy ==> a >= 30
  {
  }

  /** `isSparseRepo` as written: `commits.length <= 5 || commitFrequency < 5`. */
  predicate IsSparseRepo(cs: seq<Commit>, a: Analysis) {
    |cs| <= 5 || a.commitFrequency < 5
  }

  /** The second disjunct adds nothing: the repository is sparse exactly when
      it has at most five commits. */
  lemma SparseRepoIsSmall(cs: seq<Commit>)
    ensures IsSparseRepo(cs, Analyze(cs)) <==> |cs| <= 5
  {
  }

  // ---------------------------------------------------------------------------
  // Fallback sections
  // ---------------------------------------------------------------------------

  /** The `###` headings of the fallback. The emoji prefixes are not modelled. */
  datatype Heading =
    | ProjectFoundation            // "Project Foundation"
    | DevelopmentActivity          // "Development Activity"
    | CategoryHeading(category: Category)

  /** The bullets the fallback writes under a heading. */
  datatype Bullet =
    | CommitLine(text: string, date: Option<Instant>)   // "- {first line} *({date})*"
    | InitializationLine                                // "- Project initialization and repository setup"
    | StructureLine                                     // "- Initial codebase structure established"
    | FoundationCountLine(commits: nat, contributors: nat)
    | ActivityCountLine(commits: nat)                   // "- N commits with various improvements ..."
    | ContributorsLine(contributors: nat)               // "- Active development by N contributor(s)"

  datatype Section = Section(heading: Heading, bullets: seq<Bullet>)

  /** The italic line under a month's `##` heading. */
  datatype MonthSummary =
    | FoundationSummary(commits: nat)                   // "*N commit(s) establishing the project foundation*"
    | ChangesSummary(commits: nat, changes: nat)        // "*N commits bringing T notable changes this month*"

  datatype MonthSection = MonthSection(month: MonthId, summary: MonthSummary, sections: seq<Section>)

  /** The order in which the detailed path emits category headings. */
  const DisplayOrder: seq<Category> :=
    [Features, Improvements, Fixes, Refactoring, Dependencies, Testing, Documentation, Configuration, Other]

  function DisplayRank(c: Category): nat {
    match c
    case Features => 0
    case Improvements => 1
    case Fixes => 2
    case Refactoring => 3
    case Dependencies => 4
    case Testing => 5
    case Documentation => 6
    case Configuration => 7
    case Other => 8
  }

  /** `isSparseMonth`: at most five commits and at most three listed messages. */
  predicate IsSparseMonth(commits: nat, totalChanges: nat) {
    commits <= 5 && totalChanges <= 3
  }

  predicate IsFoundationMessage(message: string) {
    var m := Lower(message);
    Contains(m, "initial") || Contains(m, "first") || Contains(m, "setup") || Contains(m, "init")
  }

  /** `hasInitialCommits`: some message looks like initial setup. */
  predicate HasInitialCommit(cs: seq<Commit>) {
    exists i :: 0 <= i < |cs| && IsFoundationMessage(cs[i].message)
  }

  /** `monthCommits.find(c => c.message === m)?.committed_at`: the date of
      the first commit of the month whose message is exactly `m`. */
  function FindDate(cs: seq<Commit>, m: string): (d: Option<Instant>)
    ensures d.Some? <==> exists i :: 0 <= i < |cs| && cs[i].message == m
    ensures d.Some? ==>
      exists i :: 0 <= i < |cs| && cs[i].message == m && cs[i].committedAt == d.value && (forall j :: 0 <= j < i ==> cs[j].message != m)
    decreases |cs|
  {
    if cs == [] then None
    else if cs[0].message == m then Some(cs[0].committedAt)
    else
      var d := FindDate(cs[1..], m);
      assert forall i :: 0 <= i < |cs| - 1 ==> cs[1..][i] == cs[i + 1];
      d
  }

  /** One bullet per listed message: its first line and its looked-up date. */
  function CategoryBullets(cs: seq<Commit>, messages: seq<string>): seq<Bullet> {
    seq(|messages|, i requires 0 <= i < |messages| => CommitLine(FirstLine(messages[i]), FindDate(cs, messages[i])))
  }

  /** The category sections, one per non-empty list, in the order given. */
  function CategorySections(cs: seq<Commit>, p: Patterns, order: seq<Category>): seq<Section>
    decreases |order|
  {
    if order == [] then []
    else
      var c := order[0];
      var rest := CategorySections(cs, p, order[1..]);
      if |p.Get(c)| > 0 then [Section(CategoryHeading(c), CategoryBullets(cs, p.Get(c)))] + rest else rest
  }

  /** Every section names a category of `order` whose list is non-empty,
      and holds that list's bullets. */
  predicate SectionsListed(cs: seq<Commit>, p: Patterns, order: seq<Category>, ss: seq<Section>) {
    forall i :: 0 <= i < |ss| ==>
      && ss[i].heading.CategoryHeading?
      && ss[i].heading.category in order
      && |p.Get(ss[i].heading.category)| > 0
      && ss[i].bullets == CategoryBullets(cs, p.Get(ss[i].heading.category))
  }

  /** Category headings strictly ascend in display rank. */
  predicate SectionsRanked(ss: seq<Section>) {
    forall i, j :: 0 <= i < j < |ss| && ss[i].heading.CategoryHeading? && ss[j].heading.CategoryHeading? ==>
      DisplayRank(ss[i].heading.category) < DisplayRank(ss[j].heading.category)
  }

  predicate HasHeading(ss: seq<Section>, h: Heading) {
    exists i :: 0 <= i < |ss| && ss[i].heading == h
  }

  lemma {:induction false} CategorySectionsSound(cs: seq<Commit>, p: Patterns, order: seq<Category>)
    ensures SectionsListed(cs, p, order, CategorySections(cs, p, order))
    decreases |order|
  {
    if order != [] {
      var c := order[0];
      var rest := CategorySections(cs, p, order[1..]);
      var ss := CategorySections(cs, p, order);
      CategorySectionsSound(cs, p, order[1..]);
      var head := Section(CategoryHeading(c), CategoryBullets(cs, p.Get(c)));
      var k := if |p.Get(c)| > 0 then 1 else 0;
      assert ss == if |p.Get(c)| > 0 then [head] + rest else rest;
      forall i | 0 <= i < |ss|
        ensures ss[i].heading.CategoryHeading? && ss[i].heading.category in order
        ensures |p.Get(ss[i].heading.category)| > 0
        ensures ss[i].bullets == CategoryBullets(cs, p.Get(ss[i].heading.category))
      {
        if i < k {
          assert ss[i] == head;
        } else {
          assert ss[i] == rest[i - k];
          assert rest[i - k].heading.category in order[1..];
        }
      }
    }
  }

  /** Every non-empty list of the order gets a section. */
  lemma {:induction false} CategorySectionsComplete(cs: seq<Commit>, p: Patterns, order: seq<Category>, c: Category)
    requires c in order && |p.Get(c)| > 0
    ensures HasHeading(CategorySections(cs, p, order), CategoryHeading(c))
    decreases |order|
  {
    var ss := CategorySections(cs, p, order);
    var rest := CategorySections(cs, p, order[1..]);
    var head := Section(CategoryHeading(order[0]), CategoryBullets(cs, p.Get(order[0])));
    assert ss == if |p.Get(order[0])| > 0 then [head] + rest else rest;
    if order[0] == c {
      assert ss[0] == head;
    } else {
      assert c in order[1..];
      CategorySectionsComplete(cs, p, order[1..], c);
      var i :| 0 <= i < |rest| && rest[i].heading == CategoryHeading(c);
      if |p.Get(order[0])| > 0 {
        assert ss[i + 1] == rest[i];
      } else {
        assert ss[i] == rest[i];
      }
    }
  }

  /** Sections come in the order's rank order. */
  lemma {:induction false} CategorySectionsOrdered(cs: seq<Commit>, p: Patterns, order: seq<Category>)
    requires forall i, j :: 0 <= i < j < |order| ==> DisplayRank(order[i]) < DisplayRank(order[j])
    ensures SectionsRanked(CategorySections(cs, p, order))
    decreases |order|
  {
    if order != [] {
      var tail := order[1..];
      assert forall i, j :: 0 <= i < j < |tail| ==> tail[i] == order[i + 1] && tail[j] == order[j + 1];
      var rest := CategorySections(cs, p, tail);
      CategorySectionsOrdered(cs, p, tail);
      CategorySectionsSound(cs, p, tail);
      forall x | x in tail ensures DisplayRank(order[0]) < DisplayRank(x) {
        var k :| 0 <= k < |tail| && tail[k] == x;
        assert order[k + 1] == x;
      }
      var head := Section(CategoryHeading(order[0]), CategoryBullets(cs, p.Get(order[0])));
      if |p.Get(order[0])| > 0 {
        assert CategorySections(cs, p, order) == [head] + rest;
        forall i | 0 <= i < |rest| && rest[i].heading.CategoryHeading?
          ensures DisplayRank(order[0]) < DisplayRank(rest[i].heading.category)
        {
          assert rest[i].heading.category in tail;
        }
        RankedCons(head, rest);
      } else {
        assert CategorySections(cs, p, order) == rest;
      }
    }
  }

  /** A category section placed before sections of higher rank keeps the
      order. */
  lemma RankedCons(h: Section, rest: seq<Section>)
    requires SectionsRanked(rest) && h.heading.CategoryHeading?
    requires forall i :: 0 <= i < |rest| && rest[i].heading.CategoryHeading? ==>
      DisplayRank(h.heading.category) < DisplayRank(rest[i].heading.category)
    ensures SectionsRanked([h] + rest)
  {
    var ss := [h] + rest;
    forall i, j | 0 <= i < j < |ss| && ss[i].heading.CategoryHeading? && ss[j].heading.CategoryHeading?
      ensures DisplayRank(ss[i].heading.category) < DisplayRank(ss[j].heading.category)
    {
      assert ss[j] == rest[j - 1];
      if i > 0 {
        assert ss[i] == rest[i - 1];
      }
    }
  }

  /** Appending sections without a category heading keeps the order. */
  lemma RankedAppend(ss: seq<Section>, extra: seq<Section>)
    requires SectionsRanked(ss)
    requires forall i :: 0 <= i < |extra| ==> !extra[i].heading.CategoryHeading?
    ensures SectionsRanked(ss + extra)
  {
    var all := ss + extra;
    forall i, j | 0 <= i < j < |all| && all[i].heading.CategoryHeading? && all[j].heading.CategoryHeading?
      ensures DisplayRank(all[i].heading.category) < DisplayRank(all[j].heading.category)
    {
      if j < |ss| {
        assert all[i] == ss[i] && all[j] == ss[j];
      }
    }
  }

  /** The one section of a sparse month. */
  function SparseSection(cs: seq<Commit>): Section {
    if HasInitialCommit(cs) then
      Section(ProjectFoundation,
        [InitializationLine, StructureLine]
        + (if |cs| > 1 then [FoundationCountLine(|cs|, |Authors(cs)|)] else []))
    else
      Section(DevelopmentActivity,
        seq(|cs|, i requires 0 <= i < |cs| => CommitLine(FirstLine(cs[i].message), Some(cs[i].committedAt))))
  }

  /** The closing section of a detailed month that listed nothing. */
  function ActivitySection(cs: seq<Commit>): Section {
    Section(DevelopmentActivity, [ActivityCountLine(|cs|), ContributorsLine(|Authors(cs)|)])
  }

  /** The sections of a month that is not sparse. */
  function DetailedSections(cs: seq<Commit>, p: Patterns): seq<Section> {
    CategorySections(cs, p, DisplayOrder) + (if p.Total() == 0 then [ActivitySection(cs)] else [])
  }

  /** The body of one month in the fallback changelog. */
  function FallbackMonth(g: MonthGroup): (r: MonthSection)
    ensures r.month == g.month
    ensures r.summary.commits == |g.commits|
  {
    var cs := g.commits;
    var p := BucketPatterns(cs);
    if IsSparseMonth(|cs|, p.Total()) then
      MonthSection(g.month, FoundationSummary(|cs|), [SparseSection(cs)])
    else
      MonthSection(g.month, ChangesSummary(|cs|, p.Total()), DetailedSections(cs, p))
  }

  // ---------------------------------------------------------------------------
  // The changelog
  // ---------------------------------------------------------------------------

  /** The "Generation Insights" footer both paths append. */
  datatype Insights = Insights(totalCommits: nat, contributors: nat, months: nat, tier: Tier)

  datatype Content =
    | ServiceContent(text: string, insights: Insights)
    | FallbackContent(title: string, commits: nat, contributors: nat, months: seq<MonthSection>, insights: Insights)

  datatype Changelog = Changelog(title: string, content: Content, version: string)

  datatype GenerationInput = GenerationInput(
    commits: seq<Commit>,
    repoName: string,
    repoFullName: string,
    repoUrl: Option<string>,
    isPrivate: Option<bool>)

  function InsightsOf(cs: seq<Commit>): Insights {
    Insights(|cs|, |Authors(cs)|, |GroupByMonth(cs)|, ActivityTier(|cs|))
  }

  /** `generateEnhancedFallbackChangelog`: one month section per month group,
      in the grouping's latest-first order. */
  function FallbackChangelog(input: GenerationInput, version: string): (r: Changelog)
    ensures r.content.FallbackContent?
    ensures r.title == input.repoName + " - " + version && r.content.title == r.title
    ensures r.content.commits == |input.commits| && r.content.contributors == |Authors(input.commits)|
    ensures |r.content.months| == |GroupByMonth(input.commits)|
    ensures forall i :: 0 <= i < |r.content.months| ==>
      r.content.months[i].month == GroupByMonth(input.commits)[i].month
    ensures forall i :: 0 <= i < |r.content.months| ==>
      r.content.months[i] == FallbackMonth(GroupByMonth(input.commits)[i])
    ensures r.content.insights == InsightsOf(input.commits)
  {
    var cs := input.commits;
    var title := Title(input.repoName, version);
    var groups := GroupByMonth(cs);
    var months := seq(|groups|, i requires 0 <= i < |groups| => FallbackMonth(groups[i]));
    Changelog(title, FallbackContent(title, |cs|, |Authors(cs)|, months, InsightsOf(cs)), version)
  }

  /** `generateChangelogWithAI`, with the text service's answer as `reply`:
      `None` for a failed call. An empty answer counts as failure, as the
      source's `!aiGeneratedContent` test does. Exactly one attempt is made. */
  function GenerateChangelog(input: GenerationInput, now: Instant, reply: Option<string>): (r: Changelog)
    ensures r.version == Version(now)
    ensures r.title == input.repoName + " - " + r.version
    ensures r.content.ServiceContent? <==> reply.Some? && reply.value != ""
    ensures r.content.ServiceContent? ==> r.content.text == reply.value
    ensures !r.content.ServiceContent? ==> r == FallbackChangelog(input, Version(now))
    ensures r.content.insights == InsightsOf(input.commits)
  {
    var version := Version(now);
    if reply.Some? && reply.value != "" then
      Changelog(Title(input.repoName, version), ServiceContent(reply.value, InsightsOf(input.commits)), version)
    else
      FallbackChangelog(input, version)
  }

  datatype GenerationError = NoCommitsFound

  /** The caller's guard (src/app/api/repositories/changelogs/generate/route.ts:47-51):
      an empty commit list is refused before any composition. */
  function Compose(input: GenerationInput, now: Instant, reply: Option<string>): (r: Result<Changelog, GenerationError>)
    ensures r.Failure? <==> input.commits == []
    ensures r.Success? ==> r.value.title == input.repoName + " - " + Version(now)
  {
    if input.commits == [] then Failure(NoCommitsFound)
    else Success(GenerateChangelog(input, now, reply))
  }

  // ---------------------------------------------------------------------------
  // Properties of the fallback month sections
  // ---------------------------------------------------------------------------

  /** The insights agree with the analysis the source computes: the
      contributor count is the analysis' author set and the tier follows its
      commit frequency. */
  lemma InsightsMatchAnalysis(cs: seq<Commit>)
    ensures var a := Analyze(cs);
      InsightsOf(cs) == Insights(a.commitFrequency, |a.authors|, |GroupByMonth(cs)|, ActivityTier(a.commitFrequency))
  {
  }

  /** Sparse months: exactly one section, "Project Foundation" exactly when
      some message looks like setup, otherwise "Development Activity" with
      one bullet per commit in input order. */
  lemma SparseMonthShape(g: MonthGroup)
    requires IsSparseMonth(|g.commits|, BucketPatterns(g.commits).Total())
    ensures var ms := FallbackMonth(g);
      && |ms.sections| == 1
      && (ms.sections[0].heading == ProjectFoundation <==> HasInitialCommit(g.commits))
      && (ms.sections[0].heading == DevelopmentActivity <==> !HasInitialCommit(g.commits))
      && (!HasInitialCommit(g.commits) ==>
            && |ms.sections[0].bullets| == |g.commits|
            && forall i :: 0 <= i < |g.commits| ==>
                 ms.sections[0].bullets[i] == CommitLine(FirstLine(g.commits[i].message), Some(g.commits[i].committedAt)))
  {
  }

  lemma DisplayOrderRanks()
    ensures forall i, j :: 0 <= i < j < |DisplayOrder| ==> DisplayRank(DisplayOrder[i]) < DisplayRank(DisplayOrder[j])
    ensures forall c :: c in DisplayOrder
  {
    forall c ensures c in DisplayOrder {
      assert DisplayOrder[DisplayRank(c)] == c;
    }
  }

  /** A month that is not sparse is laid out by `DetailedSections`. */
  lemma DetailedLayout(g: MonthGroup)
    requires !IsSparseMonth(|g.commits|, BucketPatterns(g.commits).Total())
    ensures FallbackMonth(g).sections == DetailedSections(g.commits, BucketPatterns(g.commits))
  {
  }

  /** In the detailed layout a category heading appears exactly when its
      list is non-empty. */
  lemma {:induction false} DetailedSectionsHeadings(cs: seq<Commit>, p: Patterns, c: Category)
    ensures HasHeading(DetailedSections(cs, p), CategoryHeading(c)) <==> |p.Get(c)| > 0
  {
    var cats := CategorySections(cs, p, DisplayOrder);
    var extra := if p.Total() == 0 then [ActivitySection(cs)] else [];
    HasHeadingAppend(cats, extra, CategoryHeading(c));
    assert !HasHeading(extra, CategoryHeading(c));
    if |p.Get(c)| > 0 {
      DisplayOrderRanks();
      CategorySectionsComplete(cs, p, DisplayOrder, c);
    } else if HasHeading(cats, CategoryHeading(c)) {
      CategorySectionsListed(cs, p, DisplayOrder, c);
    }
  }

  lemma HasHeadingAppend(a: seq<Section>, b: seq<Section>, h: Heading)
    ensures HasHeading(a + b, h) <==> HasHeading(a, h) || HasHeading(b, h)
  {
    if HasHeading(a + b, h) {
      var i :| 0 <= i < |a + b| && (a + b)[i].heading == h;
      if i < |a| {
        assert a[i].heading == h;
      } else {
        assert b[i - |a|].heading == h;
      }
    }
    if HasHeading(a, h) {
      var i :| 0 <= i < |a| && a[i].heading == h;
      assert (a + b)[i].heading == h;
    }
    if HasHeading(b, h) {
      var i :| 0 <= i < |b| && b[i].heading == h;
      assert (a + b)[i + |a|].heading == h;
    }
  }

  /** A category heading only appears when its list is non-empty. */
  lemma {:induction false} CategorySectionsListed(cs: seq<Commit>, p: Patterns, order: seq<Category>, c: Category)
    requires HasHeading(CategorySections(cs, p, order), CategoryHeading(c))
    ensures |p.Get(c)| > 0
    decreases |order|
  {
    if order != [] {
      var rest := CategorySections(cs, p, order[1..]);
      var head := Section(CategoryHeading(order[0]), CategoryBullets(cs, p.Get(order[0])));
      if |p.Get(order[0])| > 0 {
        HasHeadingAppend([head], rest, CategoryHeading(c));
        if order[0] != c {
          CategorySectionsListed(cs, p, order[1..], c);
        }
      } else {
        CategorySectionsListed(cs, p, order[1..], c);
      }
    }
  }

  /** Detailed months: a category heading appears exactly when the month
      listed some message of that category. */
  lemma DetailedHeadings(g: MonthGroup, c: Category)
    requires !IsSparseMonth(|g.commits|, BucketPatterns(g.commits).Total())
    ensures HasHeading(FallbackMonth(g).sections, CategoryHeading(c)) <==> |Bucket(g.commits, c)| > 0
  {
    DetailedLayout(g);
    DetailedSectionsHeadings(g.commits, BucketPatterns(g.commits), c);
  }

  /** Each category section has one dated bullet per message of its list. */
  predicate BulletsPerMessage(p: Patterns, ss: seq<Section>) {
    forall i :: 0 <= i < |ss| && ss[i].heading.CategoryHeading? ==>
      && |ss[i].bullets| == |p.Get(ss[i].heading.category)|
      && forall k :: 0 <= k < |ss[i].bullets| ==> ss[i].bullets[k].CommitLine? && ss[i].bullets[k].date.Some?
  }

  /** Some commit of `cs` has exactly the message `m`. */
  predicate Occurs(cs: seq<Commit>, m: string) {
    exists i :: 0 <= i < |cs| && cs[i].message == m
  }

  /** When every listed message is some commit's message, each bullet of the
      detailed layout finds its date. */
  lemma {:induction false} DetailedSectionsBullets(cs: seq<Commit>, p: Patterns)
    requires forall c, m :: m in p.Get(c) ==> Occurs(cs, m)
    ensures BulletsPerMessage(p, DetailedSections(cs, p))
  {
    var cats := CategorySections(cs, p, DisplayOrder);
    var ss := DetailedSections(cs, p);
    CategorySectionsSound(cs, p, DisplayOrder);
    forall i | 0 <= i < |ss| && ss[i].heading.CategoryHeading?
      ensures |ss[i].bullets| == |p.Get(ss[i].heading.category)|
      ensures forall k :: 0 <= k < |ss[i].bullets| ==> ss[i].bullets[k].CommitLine? && ss[i].bullets[k].date.Some?
    {
      var c := ss[i].heading.category;
      assert i < |cats| && ss[i] == cats[i];
      CategoryBulletsDated(cs, p.Get(c));
    }
  }

  /** One bullet per message, each dated when the message occurs in `cs`. */
  lemma CategoryBulletsDated(cs: seq<Commit>, ms: seq<string>)
    requires forall m :: m in ms ==> Occurs(cs, m)
    ensures |CategoryBullets(cs, ms)| == |ms|
    ensures forall k :: 0 <= k < |ms| ==>
      CategoryBullets(cs, ms)[k].CommitLine? && CategoryBullets(cs, ms)[k].date.Some?
  {
    forall k | 0 <= k < |ms| ensures CategoryBullets(cs, ms)[k].date.Some? {
      assert ms[k] in ms;
    }
  }

  /** Detailed months: each category section has one bullet per listed
      message, and every such bullet carries a date. */
  lemma DetailedBullets(g: MonthGroup)
    requires !IsSparseMonth(|g.commits|, BucketPatterns(g.commits).Total())
    ensures BulletsPerMessage(BucketPatterns(g.commits), FallbackMonth(g).sections)
  {
    var cs := g.commits;
    var p := BucketPatterns(cs);
    forall c, m | m in p.Get(c) ensures Occurs(cs, m) {
      BucketMessagesOccur(cs, c);
    }
    DetailedLayout(g);
    DetailedSectionsBullets(cs, p);
  }

  /** Detailed months: category headings follow the display order. */
  lemma DetailedOrder(g: MonthGroup)
    requires !IsSparseMonth(|g.commits|, BucketPatterns(g.commits).Total())
    ensures SectionsRanked(FallbackMonth(g).sections)
  {
    DetailedLayout(g);
    DetailedSectionsOrdered(g.commits, BucketPatterns(g.commits));
  }

  lemma DetailedSectionsOrdered(cs: seq<Commit>, p: Patterns)
    ensures SectionsRanked(DetailedSections(cs, p))
  {
    DisplayOrderRanks();
    CategorySectionsOrdered(cs, p, DisplayOrder);
    RankedAppend(CategorySections(cs, p, DisplayOrder), if p.Total() == 0 then [ActivitySection(cs)] else []);
  }

  /** In the detailed layout "Development Activity" appears exactly when
      nothing was listed, and "Project Foundation" never does. */
  lemma {:induction false} DetailedSectionsActivity(cs: seq<Commit>, p: Patterns)
    ensures HasHeading(DetailedSections(cs, p), DevelopmentActivity) <==> p.Total() == 0
    ensures !HasHeading(DetailedSections(cs, p), ProjectFoundation)
  {
    var cats := CategorySections(cs, p, DisplayOrder);
    var ss := DetailedSections(cs, p);
    CategorySectionsSound(cs, p, DisplayOrder);
    if p.Total() == 0 {
      assert ss[|cats|] == ActivitySection(cs);
      forall i | 0 <= i < |ss| ensures ss[i].heading != ProjectFoundation {
        if i < |cats| {
          assert ss[i] == cats[i];
        }
      }
    } else {
      assert ss == cats;
    }
  }

  /** Detailed months: "Development Activity" closes the month exactly when
      no message was listed, and "Project Foundation" never appears. */
  lemma DetailedActivity(g: MonthGroup)
    requires !IsSparseMonth(|g.commits|, BucketPatterns(g.commits).Total())
    ensures HasHeading(FallbackMonth(g).sections, DevelopmentActivity) <==> BucketPatterns(g.commits).Total() == 0
    ensures !HasHeading(FallbackMonth(g).sections, ProjectFoundation)
  {
    DetailedLayout(g);
    DetailedSectionsActivity(g.commits, BucketPatterns(g.commits));
  }

  /** Every listed message is some commit's message, so every category
      bullet finds its date: the source's `''` date never occurs. */
  lemma BucketMessagesOccur(cs: seq<Commit>, c: Category)
    ensures forall m :: m in Bucket(cs, c) ==> exists i :: 0 <= i < |cs| && cs[i].message == m
  {
    BucketIsOrdered(cs, c);
    forall m | m in Bucket(cs, c) ensures exists i :: 0 <= i < |cs| && cs[i].message == m {
      SubsequenceMembers(Bucket(cs, c), Messages(cs), m);
      MessagesMembers(cs, m);
    }
  }

  lemma {:induction false} SubsequenceMembers<T>(a: seq<T>, b: seq<T>, x: T)
    requires SubsequenceOf(a, b) && x in a
    ensures x in b
    decreases |b|
  {
    if a[|a| - 1] == b[|b| - 1] {
      if x != a[|a| - 1] {
        assert x in a[..|a| - 1];
        SubsequenceMembers(a[..|a| - 1], b[..|b| - 1], x);
      }
    } else {
      SubsequenceMembers(a, b[..|b| - 1], x);
    }
  }

  lemma {:induction false} MessagesMembers(cs: seq<Commit>, m: string)
    requires m in Messages(cs)
    ensures exists i :: 0 <= i < |cs| && cs[i].message == m
    decreases |cs|
  {
    var init := cs[..|cs| - 1];
    if m != cs[|cs| - 1].message {
      assert m in Messages(init);
      MessagesMembers(init, m);
      var i :| 0 <= i < |init| && init[i].message == m;
      assert cs[i].message == m;
    }
  }

  /** A month of at most three commits always takes the sparse path, since
      no more messages can be listed than there are commits. */
  lemma SmallMonthIsSparse(g: MonthGroup)
    requires |g.commits| <= 3
    ensures IsSparseMonth(|g.commits|, BucketPatterns(g.commits).Total())
    ensures FallbackMonth(g).sections == [SparseSection(g.commits)]
  {
    ListedCount(g.commits);
  }
}
