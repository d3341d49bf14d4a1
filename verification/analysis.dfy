/** `analyzeCommits` (src/lib/openai.ts:52-123): keyword classification of
    commit messages into nine categories, the author set, the time spread and
    the commit count. */
module Analysis {
  import opened Wrappers
  import opened Text
  import opened Commits

  datatype Category =
    | Features | Fixes | Improvements | Documentation | Testing
    | Dependencies | Configuration | Refactoring | Other

  /** The position of a category in the order the classifier tests them. */
  function Rank(c: Category): nat {
    match c
    case Features => 0
    case Fixes => 1
    case Improvements => 2
    case Documentation => 3
    case Testing => 4
    case Dependencies => 5
    case Configuration => 6
    case Refactoring => 7
    case Other => 8
  }

  /** The keyword table: a message belongs to a category when one of the
      category's keywords occurs in its lower-cased text. `Other` has no
      keywords of its own. */
  predicate Matches(lower: string, c: Category) {
    match c
    case Features =>
      || Contains(lower, "feat") || Contains(lower, "add") || Contains(lower, "new")
      || Contains(lower, "implement") || Contains(lower, "create") || Contains(lower, "introduce")
    case Fixes =>
      || Contains(lower, "fix") || Contains(lower, "bug") || Contains(lower, "patch")
      || Contains(lower, "resolve") || Contains(lower, "correct")
    case Improvements =>
      || Contains(lower, "improve") || Contains(lower, "enhance") || Contains(lower, "optimize")
      || Contains(lower, "update") || Contains(lower, "upgrade") || Contains(lower, "better")
    case Documentation =>
      || Contains(lower, "doc") || Contains(lower, "readme") || Contains(lower, "comment")
      || Contains(lower, "guide")
    case Testing =>
      Contains(lower, "test") || Contains(lower, "spec") || Contains(lower, "coverage")
    case Dependencies =>
      || Contains(lower, "dep") || Contains(lower, "package") || Contains(lower, "npm")
      || Contains(lower, "yarn") || Contains(lower, "install")
    case Configuration =>
      || Contains(lower, "config") || Contains(lower, "setup") || Contains(lower, "env")
      || Contains(lower, "settings")
    case Refactoring =>
      || Contains(lower, "refactor") || Contains(lower, "clean") || Contains(lower, "reorganize")
      || Contains(lower, "restructure")
    case Other => false
  }

  /** Words that keep an otherwise unmatched message out of `Other`. */
  predicate IsNoise(lower: string) {
    Contains(lower, "merge") || Contains(lower, "bump") || Contains(lower, "version")
  }

  /** An unmatched message is kept in `Other` only when it is neither noise
      nor shorter than six UTF-16 code units once trimmed. */
  predicate KeptAsOther(message: string) {
    !IsNoise(Lower(message)) && Utf16Length(Trim(message)) > 5
  }

  /** The list `analyzeCommits` pushes a message onto, or `None` when it
      pushes it nowhere: the source's if/else chain. */
  function Classify(message: string): Option<Category> {
    var m := Lower(message);
    if Matches(m, Features) then Some(Features)
    else if Matches(m, Fixes) then Some(Fixes)
    else if Matches(m, Improvements) then Some(Improvements)
    else if Matches(m, Documentation) then Some(Documentation)
    else if Matches(m, Testing) then Some(Testing)
    else if Matches(m, Dependencies) then Some(Dependencies)
    else if Matches(m, Configuration) then Some(Configuration)
    else if Matches(m, Refactoring) then Some(Refactoring)
    else if KeptAsOther(message) then Some(Other)
    else None
  }

  /** Precedence: a message is filed under the first category, in `Rank`
      order, one of whose keywords occurs in its lower-cased text; a message
      matching none goes to `Other` exactly when it is kept, and is otherwise
      dropped. */
  lemma ClassifySpec(message: string)
    ensures var r := Classify(message);
      && (r.Some? && r.value != Other ==>
            && Matches(Lower(message), r.value)
            && forall d :: Rank(d) < Rank(r.value) ==> !Matches(Lower(message), d))
      && (r.None? || r == Some(Other) <==> forall d :: !Matches(Lower(message), d))
      && (r == Some(Other) <==> (forall d :: !Matches(Lower(message), d)) && KeptAsOther(message))
  {
    var m := Lower(message);
    var r := Classify(message);
    if r.Some? && r.value != Other {
      forall d | Rank(d) < Rank(r.value) ensures !Matches(m, d) {
      }
    } else {
      forall d ensures !Matches(m, d) {
      }
    }
  }

  // ---------------------------------------------------------------------------
  // The analysis record
  // ---------------------------------------------------------------------------

  /** The nine message lists of `analysis.patterns`. */
  datatype Patterns = Patterns(
    features: seq<string>, fixes: seq<string>, improvements: seq<string>,
    documentation: seq<string>, testing: seq<string>, dependencies: seq<string>,
    configuration: seq<string>, refactoring: seq<string>, other: seq<string>)
  {
    function Get(c: Category): seq<string> {
      match c
      case Features => features
      case Fixes => fixes
      case Improvements => improvements
      case Documentation => documentation
      case Testing => testing
      case Dependencies => dependencies
      case Configuration => configuration
      case Refactoring => refactoring
      case Other => other
    }

    /** `patterns.<c>.push(m)`: only list `c` changes. */
    function Push(c: Category, m: string): (p: Patterns)
      ensures p.Get(c) == Get(c) + [m]
      ensures forall d :: d != c ==> p.Get(d) == Get(d)
    {
      match c
      case Features => this.(features := features + [m])
      case Fixes => this.(fixes := fixes + [m])
      case Improvements => this.(improvements := improvements + [m])
      case Documentation => this.(documentation := documentation + [m])
      case Testing => this.(testing := testing + [m])
      case Dependencies => this.(dependencies := dependencies + [m])
      case Configuration => this.(configuration := configuration + [m])
      case Refactoring => this.(refactoring := refactoring + [m])
      case Other => this.(other := other + [m])
    }

    /** The sum of the nine list lengths (`totalChanges` in the fallback). */
    function Total(): nat {
      |features| + |fixes| + |improvements| + |documentation| + |testing|
      + |dependencies| + |configuration| + |refactoring| + |other|
    }
  }

  const NoPatterns := Patterns([], [], [], [], [], [], [], [], [])

  /** Two pattern records with the same nine lists are equal. */
  lemma PatternsExt(p: Patterns, q: Patterns)
    requires forall c :: p.Get(c) == q.Get(c)
    ensures p == q
  {
    assert p.Get(Features) == q.Get(Features) && p.Get(Fixes) == q.Get(Fixes);
    assert p.Get(Improvements) == q.Get(Improvements) && p.Get(Documentation) == q.Get(Documentation);
    assert p.Get(Testing) == q.Get(Testing) && p.Get(Dependencies) == q.Get(Dependencies);
    assert p.Get(Configuration) == q.Get(Configuration) && p.Get(Refactoring) == q.Get(Refactoring);
    assert p.Get(Other) == q.Get(Other);
  }

  /** `timeSpread`: the smallest and largest commit time in milliseconds. */
  datatype TimeSpread = TimeSpread(earliest: int, latest: int)

  datatype Analysis = Analysis(
    patterns: Patterns,
    authors: set<string>,
    timeSpread: Option<TimeSpread>,
    commitFrequency: nat)

  // ---------------------------------------------------------------------------
  // Reference definitions
  // ---------------------------------------------------------------------------

  function Millis(c: Commit): int {
    c.committedAt.millis
  }

  /** What one commit contributes to list `c`: its message, or nothing. */
  function Filed(commit: Commit, c: Category): seq<string> {
    if Classify(commit.message) == Some(c) then [commit.message] else []
  }

  /** The messages filed under `c`, in input order, as written. */
  function Bucket(cs: seq<Commit>, c: Category): seq<string>
    decreases |cs|
  {
    if cs == [] then [] else Bucket(cs[..|cs| - 1], c) + Filed(cs[|cs| - 1], c)
  }

  function BucketPatterns(cs: seq<Commit>): (p: Patterns)
    ensures forall c :: p.Get(c) == Bucket(cs, c)
    decreases |cs|
  {
    if cs == [] then NoPatterns
    else FileMessage(BucketPatterns(cs[..|cs| - 1]), cs[|cs| - 1])
  }

  function Authors(cs: seq<Commit>): set<string> {
    set i | 0 <= i < |cs| :: cs[i].authorName
  }

  function Earliest(cs: seq<Commit>): (t: int)
    requires |cs| > 0
    ensures forall i :: 0 <= i < |cs| ==> t <= Millis(cs[i])
    ensures exists i :: 0 <= i < |cs| && Millis(cs[i]) == t
    decreases |cs|
  {
    if |cs| == 1 then Millis(cs[0])
    else
      var rest := Earliest(cs[1..]);
      if Millis(cs[0]) <= rest then Millis(cs[0]) else rest
  }

  function Latest(cs: seq<Commit>): (t: int)
    requires |cs| > 0
    ensures forall i :: 0 <= i < |cs| ==> Millis(cs[i]) <= t
    ensures exists i :: 0 <= i < |cs| && Millis(cs[i]) == t
    decreases |cs|
  {
    if |cs| == 1 then Millis(cs[0])
    else
      var rest := Latest(cs[1..]);
      if Millis(cs[0]) >= rest then Millis(cs[0]) else rest
  }

  /** `Math.min`/`Math.max` over the commit times. An empty list yields an
      invalid date in the source, modelled as `None`. */
  function Spread(cs: seq<Commit>): (s: Option<TimeSpread>)
    ensures s.None? <==> cs == []
    ensures s.Some? ==> forall i :: 0 <= i < |cs| ==>
      s.value.earliest <= Millis(cs[i]) <= s.value.latest
  {
    if cs == [] then None else Some(TimeSpread(Earliest(cs), Latest(cs)))
  }

  /** The analysis of a commit list, stated list by list. */
  function Analyze(cs: seq<Commit>): Analysis {
    Analysis(BucketPatterns(cs), Authors(cs), Spread(cs), |cs|)
  }

  // ---------------------------------------------------------------------------
  // The source's single pass
  // ---------------------------------------------------------------------------

  /** `analyzeCommits` as written: one pass that pushes each message onto at
      most one list and adds its author; it computes the same record as the
      list-by-list definition. */
  method AnalyzeCommits(cs: seq<Commit>) returns (a: Analysis)
    ensures a == Analyze(cs)
    ensures a.commitFrequency == |cs|
    ensures forall x :: x in a.authors <==> exists i :: 0 <= i < |cs| && cs[i].authorName == x
  {
    var patterns := NoPatterns;
    var authors: set<string> := {};
    var i := 0;
    while i < |cs|
      invariant 0 <= i <= |cs|
      invariant forall c :: patterns.Get(c) == Bucket(cs[..i], c)
      invariant authors == Authors(cs[..i])
    {
      AnalyzeStep(cs, i);
      authors := authors + {cs[i].authorName};
      patterns := FileMessage(patterns, cs[i]);
      i := i + 1;
    }
    assert cs[..|cs|] == cs;
    PatternsExt(patterns, BucketPatterns(cs));
    a := Analysis(patterns, authors, Spread(cs), |cs|);
  }

  /** One step of the pass: the commit's message pushed onto the list its
      classification names, if any. */
  function FileMessage(p: Patterns, commit: Commit): (r: Patterns)
    ensures forall c :: r.Get(c) == p.Get(c) + Filed(commit, c)
  {
    match Classify(commit.message)
    case Some(c) => p.Push(c, commit.message)
    case None => p
  }

  lemma AnalyzeStep(cs: seq<Commit>, i: nat)
    requires i < |cs|
    ensures forall c :: Bucket(cs[..i + 1], c) == Bucket(cs[..i], c) + Filed(cs[i], c)
    ensures Authors(cs[..i + 1]) == Authors(cs[..i]) + {cs[i].authorName}
  {
    assert cs[..i + 1][..i] == cs[..i];
    var A, B := Authors(cs[..i + 1]), Authors(cs[..i]) + {cs[i].authorName};
    forall x | x in A ensures x in B {
      var j :| 0 <= j < i + 1 && cs[..i + 1][j].authorName == x;
      if j < i {
        assert cs[..i][j].authorName == x;
      }
    }
    forall x | x in B ensures x in A {
      if x == cs[i].authorName {
        assert cs[..i + 1][i].authorName == x;
      } else {
        var j :| 0 <= j < i && cs[..i][j].authorName == x;
        assert cs[..i + 1][j].authorName == x;
      }
    }
  }

  // ---------------------------------------------------------------------------
  // Properties
  // ---------------------------------------------------------------------------

  function Dropped(cs: seq<Commit>): nat
    decreases |cs|
  {
    if cs == [] then 0
    else Dropped(cs[..|cs| - 1]) + (if Classify(cs[|cs| - 1].message).None? then 1 else 0)
  }

  /** Every commit is listed once or dropped: the nine lists together hold
      exactly the commits that were not dropped, so never more than the input. */
  lemma {:induction false} ListedCount(cs: seq<Commit>)
    ensures BucketPatterns(cs).Total() + Dropped(cs) == |cs|
    ensures BucketPatterns(cs).Total() <= |cs|
    decreases |cs|
  {
    if cs != [] {
      ListedCount(cs[..|cs| - 1]);
      FiledTotal(BucketPatterns(cs[..|cs| - 1]), cs[|cs| - 1]);
    }
  }

  /** Filing a message adds one to the total, unless it is dropped. */
  lemma FiledTotal(p: Patterns, commit: Commit)
    ensures FileMessage(p, commit).Total() == p.Total() + (if Classify(commit.message).None? then 0 else 1)
  {
  }

  /** `a` can be obtained from `b` by deleting elements. */
  predicate SubsequenceOf<T(==)>(a: seq<T>, b: seq<T>)
    decreases |b|
  {
    if a == [] then true
    else if b == [] then false
    else if a[|a| - 1] == b[|b| - 1] then SubsequenceOf(a[..|a| - 1], b[..|b| - 1])
    else SubsequenceOf(a, b[..|b| - 1])
  }

  /** The commit messages, in input order. */
  function Messages(cs: seq<Commit>): (ms: seq<string>)
    ensures |ms| == |cs|
    decreases |cs|
  {
    if cs == [] then [] else Messages(cs[..|cs| - 1]) + [cs[|cs| - 1].message]
  }

  /** Each list keeps the input order and the original spelling of the
      messages: it is a subsequence of the input messages. */
  lemma {:induction false} BucketIsOrdered(cs: seq<Commit>, c: Category)
    ensures SubsequenceOf(Bucket(cs, c), Messages(cs))
    decreases |cs|
  {
    if cs != [] {
      var init := cs[..|cs| - 1];
      var ms := Messages(cs);
      var b := Bucket(cs, c);
      BucketIsOrdered(init, c);
      assert ms == Messages(init) + [cs[|cs| - 1].message];
      assert ms[..|cs| - 1] == Messages(init);
      if Classify(cs[|cs| - 1].message) == Some(c) {
        assert b == Bucket(init, c) + [cs[|cs| - 1].message];
        assert b[..|b| - 1] == Bucket(init, c);
      } else {
        assert b == Bucket(init, c);
        SubsequenceDropLast(b, ms);
      }
    }
  }

  /** Each list holds only messages classified under its own category. */
  lemma {:induction false} BucketIsHomogeneous(cs: seq<Commit>, c: Category)
    ensures forall m :: m in Bucket(cs, c) ==> Classify(m) == Some(c)
    decreases |cs|
  {
    if cs != [] {
      BucketIsHomogeneous(cs[..|cs| - 1], c);
    }
  }

  lemma {:induction false} SubsequenceDropLast<T>(a: seq<T>, b: seq<T>)
    requires |b| > 0 && SubsequenceOf(a, b[..|b| - 1])
    ensures SubsequenceOf(a, b)
    decreases |b|, 0
  {
    if a != [] && a[|a| - 1] == b[|b| - 1] {
      SubsequencePrefix(a, b[..|b| - 1]);
    }
  }

  lemma {:induction false} SubsequencePrefix<T>(a: seq<T>, b: seq<T>)
    requires |a| > 0 && SubsequenceOf(a, b)
    ensures SubsequenceOf(a[..|a| - 1], b)
    decreases |b|, 1
  {
    var b' := b[..|b| - 1];
    if a[|a| - 1] != b[|b| - 1] {
      SubsequencePrefix(a, b');
    }
    SubsequenceDropLast(a[..|a| - 1], b);
  }
}
