/** The public slug of a changelog (src/lib/db/changelogs.ts:66-77): the
    title lower-cased, every run of characters outside `a-z0-9` replaced by
    one `-`, leading and trailing dashes stripped; then the first of
    `base`, `base-1`, `base-2`, ... that no stored changelog uses. */
module Slugs {
  import opened Text

  predicate IsSlugChar(c: char) {
    ('a' <= c <= 'z') || ('0' <= c <= '9')
  }

  /** `replace(/[^a-z0-9]+/g, '-')`: each maximal run of other characters
      becomes a single dash. */
  function ReplaceRuns(s: string): (r: string)
    ensures |r| <= |s|
    decreases |s|
  {
    if s == [] then []
    else
      var init := ReplaceRuns(s[..|s| - 1]);
      var c := s[|s| - 1];
      if IsSlugChar(c) then init + [c]
      else if |s| > 1 && !IsSlugChar(s[|s| - 2]) then init
      else init + "-"
  }

  /** The number of dashes `replace(/^-+/, '')` removes. */
  function LeadingDashes(s: string): (n: nat)
    ensures n <= |s|
    ensures forall i :: 0 <= i < n ==> s[i] == '-'
    ensures n < |s| ==> s[n] != '-'
    decreases |s|
  {
    if s != [] && s[0] == '-' then 1 + LeadingDashes(s[1..]) else 0
  }

  /** The number of dashes `replace(/-+$/, '')` removes. */
  function TrailingDashes(s: string): (n: nat)
    ensures n <= |s|
    ensures forall i :: |s| - n <= i < |s| ==> s[i] == '-'
    ensures n < |s| ==> s[|s| - n - 1] != '-'
    decreases |s|
  {
    if s != [] && s[|s| - 1] == '-' then 1 + TrailingDashes(s[..|s| - 1]) else 0
  }

  /** `replace(/^-+|-+$/g, '')`. */
  function TrimDashes(s: string): string {
    var t := s[LeadingDashes(s)..];
    t[..|t| - TrailingDashes(t)]
  }

  /** The base slug of a title. */
  function Slugify(title: string): string {
    TrimDashes(ReplaceRuns(Lower(title)))
  }

  /** Only `a-z`, `0-9` and `-`; no dash at either end; no two dashes in a
      row. The empty string qualifies. */
  predicate IsSlug(s: string) {
    && (forall i :: 0 <= i < |s| ==> IsSlugChar(s[i]) || s[i] == '-')
    && (|s| > 0 ==> s[0] != '-' && s[|s| - 1] != '-')
    && (forall i :: 0 <= i < |s| - 1 ==> !(s[i] == '-' && s[i + 1] == '-'))
  }

  /** The letters and digits of `s`, in order. */
  function Kept(s: string): (r: string)
    ensures forall i :: 0 <= i < |r| ==> IsSlugChar(r[i])
    decreases |s|
  {
    if s == [] then []
    else Kept(s[..|s| - 1]) + (if IsSlugChar(s[|s| - 1]) then [s[|s| - 1]] else [])
  }

  // ---------------------------------------------------------------------------
  // The three steps
  // ---------------------------------------------------------------------------

  /** Run replacement leaves only slug characters and dashes, never two dashes
      in a row, and ends in a dash exactly when the input ends outside `a-z0-9`. */
  lemma {:induction false} ReplaceRunsShape(s: string)
    ensures forall i :: 0 <= i < |ReplaceRuns(s)| ==> IsSlugChar(ReplaceRuns(s)[i]) || ReplaceRuns(s)[i] == '-'
    ensures forall i :: 0 <= i < |ReplaceRuns(s)| - 1 ==> !(ReplaceRuns(s)[i] == '-' && ReplaceRuns(s)[i + 1] == '-')
    ensures |ReplaceRuns(s)| > 0 <==> |s| > 0
    ensures |s| > 0 ==> (ReplaceRuns(s)[|ReplaceRuns(s)| - 1] == '-' <==> !IsSlugChar(s[|s| - 1]))
    decreases |s|
  {
    if s != [] {
      var init := s[..|s| - 1];
      ReplaceRunsShape(init);
      if |s| > 1 {
        assert init[|init| - 1] == s[|s| - 2];
      }
    }
  }

  /** Run replacement drops no letter or digit. */
  lemma {:induction false} ReplaceRunsKeeps(s: string)
    ensures Kept(ReplaceRuns(s)) == Kept(s)
    decreases |s|
  {
    if s != [] {
      var init := s[..|s| - 1];
      var r0 := ReplaceRuns(init);
      ReplaceRunsKeeps(init);
      var c := s[|s| - 1];
      if IsSlugChar(c) {
        assert (r0 + [c])[..|r0|] == r0;
      } else if |s| > 1 && !IsSlugChar(s[|s| - 2]) {
      } else {
        assert (r0 + "-")[..|r0|] == r0;
      }
    }
  }

  /** On a string that already has the slug shape, run replacement is the identity. */
  lemma {:induction false} ReplaceRunsFixes(s: string)
    requires forall i :: 0 <= i < |s| ==> IsSlugChar(s[i]) || s[i] == '-'
    requires forall i :: 0 <= i < |s| - 1 ==> !(s[i] == '-' && s[i + 1] == '-')
    ensures ReplaceRuns(s) == s
    decreases |s|
  {
    if s != [] {
      var init := s[..|s| - 1];
      ReplaceRunsFixes(init);
      assert init + [s[|s| - 1]] == s;
      if |s| > 1 {
        assert s[|s| - 2] == init[|init| - 1];
      }
    }
  }

  lemma {:induction false} KeptDash(s: string, n: nat)
    requires n <= |s| && forall i :: 0 <= i < n ==> s[i] == '-'
    ensures Kept(s) == Kept(s[n..])
    decreases |s|
  {
    if n > 0 {
      if n == |s| {
        KeptNone(s);
        KeptNone(s[n..]);
      } else {
        var init := s[..|s| - 1];
        KeptDash(init, n);
        assert init[n..] == s[n..][..|s[n..]| - 1];
        assert s[n..][|s[n..]| - 1] == s[|s| - 1];
      }
    }
  }

  lemma {:induction false} KeptNone(s: string)
    requires forall i :: 0 <= i < |s| ==> !IsSlugChar(s[i])
    ensures Kept(s) == []
    decreases |s|
  {
    if s != [] {
      KeptNone(s[..|s| - 1]);
    }
  }

  lemma {:induction false} KeptTrailingDash(s: string, n: nat)
    requires n <= |s| && forall i :: n <= i < |s| ==> s[i] == '-'
    ensures Kept(s) == Kept(s[..n])
    decreases |s|
  {
    if |s| > n {
      KeptTrailingDash(s[..|s| - 1], n);
      assert s[..|s| - 1][..n] == s[..n];
    } else {
      assert s[..n] == s;
    }
  }

  // ---------------------------------------------------------------------------
  // Properties of the base slug
  // ---------------------------------------------------------------------------

  /** Every title yields a well-formed (possibly empty) slug. */
  lemma SlugifyIsSlug(title: string)
    ensures IsSlug(Slugify(title))
  {
    ReplaceRunsShape(Lower(title));
    TrimDashesShape(ReplaceRuns(Lower(title)));
  }

  /** Stripping the end dashes of a string of slug characters and single
      dashes leaves a slug. */
  lemma TrimDashesShape(r: string)
    requires forall i :: 0 <= i < |r| ==> IsSlugChar(r[i]) || r[i] == '-'
    requires forall i :: 0 <= i < |r| - 1 ==> !(r[i] == '-' && r[i + 1] == '-')
    ensures IsSlug(TrimDashes(r))
  {
    var a := LeadingDashes(r);
    var t := r[a..];
    var b := TrailingDashes(t);
    var out := t[..|t| - b];
    assert out == TrimDashes(r);
    assert forall i :: 0 <= i < |out| ==> out[i] == r[a + i];
    if |out| > 0 {
      assert out[0] == r[a] != '-';
      assert out[|out| - 1] == t[|t| - b - 1] != '-';
    }
  }

  /** The slug keeps every letter and digit of the lower-cased title, in
      order, and nothing else but single dashes between them. */
  lemma SlugifyKeeps(title: string)
    ensures Kept(Slugify(title)) == Kept(Lower(title))
  {
    var r := ReplaceRuns(Lower(title));
    ReplaceRunsKeeps(Lower(title));
    KeptDash(r, LeadingDashes(r));
    var t := r[LeadingDashes(r)..];
    KeptTrailingDash(t, |t| - TrailingDashes(t));
  }

  /** A slug is empty exactly when the title has no ASCII letter or digit. */
  lemma SlugifyEmpty(title: string)
    ensures Slugify(title) == [] <==> Kept(Lower(title)) == []
  {
    SlugifyKeeps(title);
    SlugifyIsSlug(title);
    var s := Slugify(title);
    if s != [] {
      assert IsSlugChar(s[0]);
      KeptFirst(s);
    }
  }

  lemma {:induction false} KeptFirst(s: string)
    requires |s| > 0 && IsSlugChar(s[0])
    ensures Kept(s) != []
    decreases |s|
  {
    if |s| > 1 {
      KeptFirst(s[..|s| - 1]);
    }
  }

  /** Slugifying a slug returns it unchanged. */
  lemma SlugifyFixesSlugs(s: string)
    requires IsSlug(s)
    ensures Slugify(s) == s
  {
    assert Lower(s) == s;
    ReplaceRunsFixes(s);
    assert s[LeadingDashes(s)..] == s;
  }

  /** Hence slug derivation is idempotent. */
  lemma SlugifyIdempotent(title: string)
    ensures Slugify(Slugify(title)) == Slugify(title)
  {
    SlugifyIsSlug(title);
    SlugifyFixesSlugs(Slugify(title));
  }

  // ---------------------------------------------------------------------------
  // The uniqueness loop
  // ---------------------------------------------------------------------------

  /** The k-th candidate: the base itself, then `${base}-${k}`. */
  function Candidate(base: string, k: nat): string {
    if k == 0 then base else base + "-" + NatToDigits(k)
  }

  lemma CandidateInjective(base: string, j: nat, k: nat)
    ensures Candidate(base, j) == Candidate(base, k) <==> j == k
  {
    if j != k {
      if j == 0 || k == 0 {
        assert |Candidate(base, j)| != |Candidate(base, k)|;
      } else {
        var dj, dk := NatToDigits(j), NatToDigits(k);
        assert Candidate(base, j)[|base| + 1..] == dj;
        assert Candidate(base, k)[|base| + 1..] == dk;
        DigitsRoundTrip(j);
        DigitsRoundTrip(k);
      }
    }
  }

  /** The first `n` candidates. */
  function Tried(base: string, n: nat): (r: set<string>)
    ensures forall x :: x in r <==> exists k :: 0 <= k < n && x == Candidate(base, k)
  {
    if n == 0 then {} else Tried(base, n - 1) + {Candidate(base, n - 1)}
  }

  lemma {:induction false} TriedSize(base: string, n: nat)
    ensures |Tried(base, n)| == n
  {
    if n > 0 {
      TriedSize(base, n - 1);
      if Candidate(base, n - 1) in Tried(base, n - 1) {
        var k :| 0 <= k < n - 1 && Candidate(base, n - 1) == Candidate(base, k);
        CandidateInjective(base, n - 1, k);
      }
    }
  }

  lemma SubsetSize<T>(a: set<T>, b: set<T>)
    requires a <= b
    ensures |a| <= |b|
  {
    assert b == a + (b - a);
    assert a * (b - a) == {};
  }

  /** `k` is the first candidate number that `existing` leaves free. */
  predicate FirstFree(base: string, existing: set<string>, k: nat) {
    Candidate(base, k) !in existing && forall j :: 0 <= j < k ==> Candidate(base, j) in existing
  }

  /** The number of the first free candidate, searched upwards from `k`. */
  function FreeFrom(base: string, existing: set<string>, k: nat): (n: nat)
    requires forall j :: 0 <= j < k ==> Candidate(base, j) in existing
    ensures k <= n <= |existing| && FirstFree(base, existing, n)
    decreases |existing| - k
  {
    TriedSize(base, k);
    SubsetSize(Tried(base, k), existing);
    if Candidate(base, k) !in existing then k
    else
      TriedSize(base, k + 1);
      SubsetSize(Tried(base, k + 1), existing);
      FreeFrom(base, existing, k + 1)
  }

  /** The number of the slug a new changelog receives: 0 for the base
      itself, otherwise the suffix. */
  function SlugNumber(base: string, existing: set<string>): (n: nat)
    ensures n <= |existing| && FirstFree(base, existing, n)
  {
    FreeFrom(base, existing, 0)
  }

  /** The first free number is unique. */
  lemma FirstFreeUnique(base: string, existing: set<string>, j: nat, k: nat)
    requires FirstFree(base, existing, j) && FirstFree(base, existing, k)
    ensures j == k
  {
  }

  /** The uniqueness loop: tries `base`, then `base-1`, `base-2`, ... against
      the slugs already stored, and returns the first free one together with
      its number (0 for the base itself). */
  method ChooseSlug(base: string, existing: set<string>) returns (slug: string, k: nat)
    ensures slug !in existing
    ensures slug == Candidate(base, k) && FirstFree(base, existing, k)
    ensures base !in existing ==> slug == base
    ensures k <= |existing| && k == SlugNumber(base, existing)
  {
    slug := base;
    var counter: nat := 1;
    while slug in existing
      invariant slug == Candidate(base, counter - 1)
      invariant Tried(base, counter - 1) <= existing
      invariant counter - 1 <= |existing|
      decreases |existing| - (counter - 1)
    {
      assert Tried(base, counter) <= existing;
      TriedSize(base, counter);
      SubsetSize(Tried(base, counter), existing);
      slug := base + "-" + NatToDigits(counter);
      counter := counter + 1;
    }
    k := counter - 1;
    FirstFreeUnique(base, existing, k, SlugNumber(base, existing));
  }
}
