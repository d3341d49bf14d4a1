/** `groupCommitsByMonth` (src/lib/openai.ts:22-49): commits bucketed by
    calendar month, latest month first, each bucket in input order. */
module Grouping {
  import opened Commits

  /** One month's bucket. The source also carries a locale-formatted month
      label, which is not modelled. */
  datatype MonthGroup = MonthGroup(month: MonthId, commits: seq<Commit>)

  /** The commits of month `m`, in input order: the list the source pushes
      onto under that month's key. */
  function InMonth(cs: seq<Commit>, m: MonthId): (r: seq<Commit>)
    ensures forall c :: c in r ==> c in cs && MonthOf(c) == m
    ensures |r| > 0 <==> exists i :: 0 <= i < |cs| && MonthOf(cs[i]) == m
    decreases |cs|
  {
    if cs == [] then []
    else
      var last := cs[|cs| - 1];
      InMonth(cs[..|cs| - 1], m) + (if MonthOf(last) == m then [last] else [])
  }

  predicate Distinct(ms: seq<MonthId>) {
    forall i, j :: 0 <= i < j < |ms| ==> ms[i] != ms[j]
  }

  /** Months strictly descending: the order `b.localeCompare(a)` gives the keys. */
  predicate LatestFirst(ms: seq<MonthId>) {
    forall i, j :: 0 <= i < j < |ms| ==> Later(ms[i], ms[j])
  }

  /** The months that occur in `cs`, in order of first occurrence (the order
      in which the source's `groups` object acquires its keys). */
  function DistinctMonths(cs: seq<Commit>): (ms: seq<MonthId>)
    ensures Distinct(ms)
    ensures forall m :: m in ms <==> exists i :: 0 <= i < |cs| && MonthOf(cs[i]) == m
    decreases |cs|
  {
    if cs == [] then []
    else
      var init := DistinctMonths(cs[..|cs| - 1]);
      var m := MonthOf(cs[|cs| - 1]);
      assert forall i :: 0 <= i < |cs| - 1 ==> cs[..|cs| - 1][i] == cs[i];
      if m in init then init else init + [m]
  }

  /** Inserts a month into a latest-first list. */
  function Insert(m: MonthId, ms: seq<MonthId>): (r: seq<MonthId>)
    requires LatestFirst(ms) && m !in ms
    ensures LatestFirst(r)
    ensures |r| == |ms| + 1
    ensures forall x :: x in r <==> x == m || x in ms
    decreases |ms|
  {
    if ms == [] then [m]
    else if Later(m, ms[0]) then [m] + ms
    else
      var rest := Insert(m, ms[1..]);
      assert forall k :: 0 <= k < |ms| - 1 ==> Later(ms[0], ms[1..][k]);
      assert forall x :: x in rest ==> Later(ms[0], x);
      [ms[0]] + rest
  }

  /** Insertion sort, latest month first. */
  function SortLatestFirst(ms: seq<MonthId>): (r: seq<MonthId>)
    requires Distinct(ms)
    ensures LatestFirst(r)
    ensures |r| == |ms|
    ensures forall x :: x in r <==> x in ms
    decreases |ms|
  {
    if ms == [] then []
    else
      var init := ms[..|ms| - 1];
      assert forall x :: x in init ==> exists i :: 0 <= i < |ms| - 1 && ms[i] == x;
      Insert(ms[|ms| - 1], SortLatestFirst(init))
  }

  /** One group per month of `ms`, in the order of `ms`. */
  function GroupsOf(cs: seq<Commit>, ms: seq<MonthId>): (gs: seq<MonthGroup>)
    ensures |gs| == |ms|
    ensures forall i :: 0 <= i < |gs| ==> gs[i] == MonthGroup(ms[i], InMonth(cs, ms[i]))
  {
    seq(|ms|, i requires 0 <= i < |ms| => MonthGroup(ms[i], InMonth(cs, ms[i])))
  }

  /** Some group of `gs` is the group of month `m`. */
  predicate HasGroup(gs: seq<MonthGroup>, m: MonthId) {
    exists i :: 0 <= i < |gs| && gs[i].month == m
  }

  /** Groups over the months that occur are non-empty and cover every commit. */
  lemma GroupsCover(cs: seq<Commit>, ms: seq<MonthId>)
    requires forall m :: m in ms <==> exists i :: 0 <= i < |cs| && MonthOf(cs[i]) == m
    ensures forall i :: 0 <= i < |ms| ==> |GroupsOf(cs, ms)[i].commits| > 0
    ensures forall k :: 0 <= k < |cs| ==> HasGroup(GroupsOf(cs, ms), MonthOf(cs[k]))
  {
    var gs := GroupsOf(cs, ms);
    forall i | 0 <= i < |ms| ensures |gs[i].commits| > 0 {
      assert ms[i] in ms;
    }
    forall k | 0 <= k < |cs| ensures HasGroup(gs, MonthOf(cs[k])) {
      assert MonthOf(cs[k]) in ms;
      var i :| 0 <= i < |ms| && ms[i] == MonthOf(cs[k]);
      assert gs[i].month == MonthOf(cs[k]);
    }
  }

  /** `groupCommitsByMonth`: one group per month that occurs, latest month
      first, each holding that month's commits in input order. */
  function GroupByMonth(cs: seq<Commit>): (gs: seq<MonthGroup>)
    ensures forall i, j :: 0 <= i < j < |gs| ==> Later(gs[i].month, gs[j].month)
    ensures forall i :: 0 <= i < |gs| ==> |gs[i].commits| > 0
    ensures forall i :: 0 <= i < |gs| ==> gs[i].commits == InMonth(cs, gs[i].month)
    ensures forall k :: 0 <= k < |cs| ==> HasGroup(gs, MonthOf(cs[k]))
  {
    var ms := SortLatestFirst(DistinctMonths(cs));
    GroupsCover(cs, ms);
    GroupsOf(cs, ms)
  }

  function Flatten(gs: seq<MonthGroup>): seq<Commit>
    decreases |gs|
  {
    if gs == [] then [] else Flatten(gs[..|gs| - 1]) + gs[|gs| - 1].commits
  }

  /** The commits whose month is in `months`, in input order. */
  function InMonths(cs: seq<Commit>, months: set<MonthId>): seq<Commit>
    decreases |cs|
  {
    if cs == [] then []
    else
      var last := cs[|cs| - 1];
      InMonths(cs[..|cs| - 1], months) + (if MonthOf(last) in months then [last] else [])
  }

  lemma {:induction false} InMonthsAddMonth(cs: seq<Commit>, months: set<MonthId>, m: MonthId)
    requires m !in months
    ensures multiset(InMonths(cs, months + {m})) == multiset(InMonths(cs, months)) + multiset(InMonth(cs, m))
    decreases |cs|
  {
    if cs != [] {
      var init, last := cs[..|cs| - 1], cs[|cs| - 1];
      InMonthsAddMonth(init, months, m);
      var a, b, c := InMonths(init, months + {m}), InMonths(init, months), InMonth(init, m);
      var x := if MonthOf(last) in months + {m} then [last] else [];
      var y := if MonthOf(last) in months then [last] else [];
      var z := if MonthOf(last) == m then [last] else [];
      assert InMonths(cs, months + {m}) == a + x;
      assert InMonths(cs, months) == b + y;
      assert InMonth(cs, m) == c + z;
      assert multiset(x) == multiset(y) + multiset(z);
    }
  }

  lemma {:induction false} InMonthsAll(cs: seq<Commit>, months: set<MonthId>)
    requires forall i :: 0 <= i < |cs| ==> MonthOf(cs[i]) in months
    ensures InMonths(cs, months) == cs
    decreases |cs|
  {
    if cs != [] {
      var init := cs[..|cs| - 1];
      assert forall i :: 0 <= i < |init| ==> init[i] == cs[i];
      InMonthsAll(init, months);
      assert init + [cs[|cs| - 1]] == cs;
    }
  }

  /** Groups over distinct months hold exactly the commits of those months. */
  lemma {:induction false} FlattenGroups(cs: seq<Commit>, ms: seq<MonthId>)
    requires Distinct(ms)
    ensures multiset(Flatten(GroupsOf(cs, ms)))
         == multiset(InMonths(cs, set m | m in ms))
    decreases |ms|
  {
    var gs := GroupsOf(cs, ms);
    if ms == [] {
      assert (set m | m in ms) == {};
      InMonthsNone(cs);
    } else {
      var init := ms[..|ms| - 1];
      var last := ms[|ms| - 1];
      FlattenGroups(cs, init);
      assert gs[..|gs| - 1] == GroupsOf(cs, init);
      assert (set m | m in ms) == (set m | m in init) + {last};
      assert last !in (set m | m in init);
      InMonthsAddMonth(cs, (set m | m in init), last);
    }
  }

  lemma {:induction false} InMonthsNone(cs: seq<Commit>)
    ensures InMonths(cs, {}) == []
    decreases |cs|
  {
    if cs != [] {
      InMonthsNone(cs[..|cs| - 1]);
    }
  }

  /** The grouping is a partition: concatenating the groups gives back every
      input commit exactly once. */
  lemma GroupingIsPermutation(cs: seq<Commit>)
    ensures multiset(Flatten(GroupByMonth(cs))) == multiset(cs)
  {
    var ms := SortLatestFirst(DistinctMonths(cs));
    FlattenGroups(cs, ms);
    InMonthsAll(cs, (set m | m in ms));
  }
}
