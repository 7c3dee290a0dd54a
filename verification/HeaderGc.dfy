/** `remove_unref_headers.py`: collect the headers reachable from the sources through
    include lines, delete the rest. */
module HeaderGc {

  /** A path string after joining with the header directory; two strings may name one file. */
  type Path = string

  /** A file, whatever it is called. */
  type File(==, !new) = nat

  /** The state of the two directories. `sources` gives the include paths of each source file;
      they lie outside the header directory. `names` resolves the path strings that exist,
      `text` gives the include paths found in a header, and `walked` are the `.h` paths as
      `os.walk` spells them. */
  datatype Project = Project(
    sources: map<Path, set<Path>>, names: map<Path, File>, text: map<File, set<Path>>, walked: set<Path>)

  ghost predicate Valid(pr: Project) {
    && pr.walked <= pr.names.Keys
    && (forall p :: p in pr.names ==> pr.names[p] in pr.text)
    && (forall p, q :: p in pr.walked && q in pr.walked && pr.names[p] == pr.names[q] ==> p == q)
  }

  // ----- reachability

  ghost predicate Seed(pr: Project, p: Path) {
    p in pr.names && exists src :: src in pr.sources && p in pr.sources[src]
  }

  ghost predicate Includes(pr: Project, p: Path, q: Path) {
    p in pr.names && pr.names[p] in pr.text && q in pr.text[pr.names[p]] && q in pr.names
  }

  /** `trail` leads from a path included by a source, include by include, to its last path. */
  ghost predicate Trail(pr: Project, trail: seq<Path>) {
    && |trail| > 0 && Seed(pr, trail[0])
    && forall i :: 0 <= i < |trail| - 1 ==> Includes(pr, trail[i], trail[i + 1])
  }

  ghost predicate Reachable(pr: Project, p: Path) {
    exists trail :: Trail(pr, trail) && trail[|trail| - 1] == p
  }

  ghost predicate Closed(pr: Project, s: set<Path>) {
    && (forall p :: Seed(pr, p) ==> p in s)
    && (forall p, q :: p in s && Includes(pr, p, q) ==> q in s)
  }

  lemma {:induction false} ReachableExists(pr: Project, p: Path)
    requires Reachable(pr, p)
    ensures p in pr.names
  {
    var trail :| Trail(pr, trail) && trail[|trail| - 1] == p;
    if |trail| > 1 { assert Includes(pr, trail[|trail| - 2], trail[|trail| - 2 + 1]); }
  }

  lemma {:induction false} SeedReachable(pr: Project, p: Path)
    requires Seed(pr, p)
    ensures Reachable(pr, p)
  {
    assert Trail(pr, [p]);
  }

  lemma {:induction false} IncludeReachable(pr: Project, p: Path, q: Path)
    requires Reachable(pr, p) && Includes(pr, p, q)
    ensures Reachable(pr, q)
  {
    var trail :| Trail(pr, trail) && trail[|trail| - 1] == p;
    var longer := trail + [q];
    assert forall i :: 0 <= i < |trail| ==> longer[i] == trail[i];
    assert Trail(pr, longer);
  }

  lemma {:induction false} TrailInClosed(pr: Project, s: set<Path>, trail: seq<Path>, n: nat)
    requires Closed(pr, s) && Trail(pr, trail) && n < |trail|
    ensures trail[n] in s
  {
    if n > 0 {
      TrailInClosed(pr, s, trail, n - 1);
      assert Includes(pr, trail[n - 1], trail[n - 1 + 1]);
    }
  }

  /** A closed set of reachable paths is exactly the set of reachable paths. */
  lemma {:induction false} ClosedIsReachable(pr: Project, s: set<Path>)
    requires Closed(pr, s) && forall p :: p in s ==> Reachable(pr, p)
    ensures forall p :: p in s <==> Reachable(pr, p)
  {
    forall p | Reachable(pr, p) ensures p in s {
      var trail :| Trail(pr, trail) && trail[|trail| - 1] == p;
      TrailInClosed(pr, s, trail, |trail| - 1);
    }
  }

  // ----- collecting

  /** The inner loop of both phases: add the includes that exist and are not done yet. */
  method AddExisting(pr: Project, includes: set<Path>, done: set<Path>, work: set<Path>) returns (more: set<Path>)
    ensures forall p :: p in more <==> p in work || (p in includes && p in pr.names && p !in done)
  {
    more := work;
    var todo := includes;
    while todo != {}
      invariant todo <= includes
      invariant forall p :: p in more <==> p in work || (p in includes && p !in todo && p in pr.names && p !in done)
      decreases todo
    {
      var p :| p in todo;
      todo := todo - {p};
      if p in pr.names && p !in done {
        more := more + {p};
      }
    }
  }

  method CollectSeeds(pr: Project) returns (work: set<Path>)
    ensures forall p :: p in work <==> Seed(pr, p)
  {
    work := {};
    var todo := pr.sources.Keys;
    while todo != {}
      invariant todo <= pr.sources.Keys
      invariant forall p :: p in work <==>
        p in pr.names && exists src :: src in pr.sources && src !in todo && p in pr.sources[src]
      decreases todo
    {
      var src :| src in todo;
      todo := todo - {src};
      work := AddExisting(pr, pr.sources[src], {}, work);
    }
  }

  /** The worklist invariant: nothing unreachable is listed, and whatever a source or a
      finished header includes is listed. */
  ghost predicate Frontier(pr: Project, work: set<Path>, referenced: set<Path>) {
    && work <= pr.names.Keys && referenced <= pr.names.Keys
    && (forall p :: Seed(pr, p) ==> p in work || p in referenced)
    && (forall p :: p in work || p in referenced ==> Reachable(pr, p))
    && (forall p, q :: p in referenced && Includes(pr, p, q) ==> q in work || q in referenced)
  }

  lemma {:induction false} FrontierAdvances(pr: Project, work: set<Path>, referenced: set<Path>, current: Path, found: set<Path>)
    requires Valid(pr) && Frontier(pr, work, referenced) && current in work && current !in referenced
    requires var done := referenced + {current};
             forall p :: p in found <==>
               p in work - {current} || (p in pr.text[pr.names[current]] && p in pr.names && p !in done)
    ensures Frontier(pr, found, referenced + {current})
  {
    forall p | p in found ensures Reachable(pr, p) {
      if p !in work { IncludeReachable(pr, current, p); }
    }
  }

  lemma {:induction false} FrontierStarts(pr: Project, work: set<Path>)
    requires forall p :: p in work <==> Seed(pr, p)
    ensures Frontier(pr, work, {})
  {
    forall p | p in work ensures Reachable(pr, p) { SeedReachable(pr, p); }
  }

  lemma {:induction false} FrontierSkips(pr: Project, work: set<Path>, referenced: set<Path>, current: Path)
    requires Frontier(pr, work, referenced) && current in referenced
    ensures Frontier(pr, work - {current}, referenced)
  {
  }

  lemma {:induction false} FrontierEnds(pr: Project, referenced: set<Path>)
    requires Frontier(pr, {}, referenced)
    ensures (forall p :: p in referenced <==> Reachable(pr, p)) && referenced <= pr.names.Keys
  {
    ClosedIsReachable(pr, referenced);
  }

  /** `collect_all_referenced_headers` returns exactly the reachable paths, whatever order the
      worklist is emptied in and however the includes are tangled. */
  method CollectAllReferencedHeaders(pr: Project) returns (referenced: set<Path>)
    requires Valid(pr)
    ensures forall p :: p in referenced <==> Reachable(pr, p)
    ensures referenced <= pr.names.Keys
  {
    referenced := {};
    var work := CollectSeeds(pr);
    FrontierStarts(pr, work);
    while work != {}
      invariant Frontier(pr, work, referenced)
      decreases pr.names.Keys - referenced, work
    {
      var current :| current in work;
      if current !in referenced {
        var found := AddExisting(pr, pr.text[pr.names[current]], referenced + {current}, work - {current});
        FrontierAdvances(pr, work, referenced, current, found);
        referenced := referenced + {current};
        work := found;
      } else {
        FrontierSkips(pr, work, referenced, current);
        work := work - {current};
      }
    }
    FrontierEnds(pr, referenced);
  }

  // ----- deleting

  /** The directories after `os.remove` of the given listed paths: every spelling of a removed
      file stops resolving. */
  function Remove(pr: Project, gone: set<Path>): Project
    requires gone <= pr.walked && pr.walked <= pr.names.Keys
  {
    var files := set p | p in gone :: pr.names[p];
    pr.(names := map p | p in pr.names && pr.names[p] !in files :: pr.names[p], walked := pr.walked - gone)
  }

  /** Exactly the removed files stop resolving, under every spelling; nothing else changes. */
  lemma {:induction false} RemoveMeans(pr: Project, gone: set<Path>)
    requires gone <= pr.walked && pr.walked <= pr.names.Keys
    ensures var after := Remove(pr, gone);
            && after.sources == pr.sources && after.text == pr.text && after.walked == pr.walked - gone
            && (forall p :: p in after.names <==> p in pr.names && forall c :: c in gone ==> pr.names[c] != pr.names[p])
            && (forall p :: p in after.names ==> after.names[p] == pr.names[p])
  {
  }

  lemma {:induction false} RemoveTwice(pr: Project, a: set<Path>, p: Path)
    requires Valid(pr) && a <= pr.walked && p in pr.walked - a
    ensures var one := Remove(pr, a);
            p in one.walked && one.walked <= one.names.Keys && Remove(one, {p}) == Remove(pr, a + {p})
  {
    var one := Remove(pr, a);
    assert forall q, r :: q in one.walked && r in a ==> pr.names[r] != pr.names[q];
  }

  class HeaderTree {
    var project: Project

    /** `delete_unreferenced_headers`: removes exactly the listed headers that are not in the
        set, in any order. */
    method DeleteUnreferencedHeaders(referenced: set<Path>)
      requires Valid(project)
      modifies this
      ensures project == Remove(old(project), old(project).walked - referenced)
      ensures project.sources == old(project).sources && project.text == old(project).text
      ensures project.walked == old(project).walked * referenced
      ensures forall p :: p in project.names <==>
                p in old(project).names && !exists c :: SameFile(old(project), p, c) && c !in referenced
      ensures forall p :: p in project.names ==> project.names[p] == old(project).names[p]
    {
      var before := project;
      var todo := project.walked;
      ghost var gone: set<Path> := {};
      assert project == Remove(before, {});
      while todo != {}
        invariant todo <= before.walked && gone == (before.walked - todo) - referenced
        invariant project == Remove(before, gone)
        decreases todo
      {
        var p :| p in todo;
        todo := todo - {p};
        if p !in referenced {
          RemoveTwice(before, gone, p);
          project := Remove(project, {p});
          gone := gone + {p};
        }
      }
      assert gone == before.walked - referenced;
      RemoveMeans(before, gone);
      assert forall p, c :: SameFile(before, p, c) && c !in referenced ==> c in gone;
      assert forall p, c :: p in before.names && c in gone && before.names[c] == before.names[p] ==> SameFile(before, p, c);
    }

    /** `main`: collect, then delete. */
    method Clean()
      requires Valid(project)
      modifies this
      ensures Cleaned(old(project), project)
      ensures forall p :: p in project.walked <==> p in old(project).walked && Reachable(old(project), p)
      ensures forall p :: p in project.names <==>
                p in old(project).names && !exists c :: SameFile(old(project), p, c) && !Reachable(old(project), c)
    {
      ghost var before := project;
      var referenced := CollectAllReferencedHeaders(project);
      DeleteUnreferencedHeaders(referenced);
      CleanRemovesExactly(before, project);
    }
  }

  /** `after` is `before` without the listed headers that no source reaches. */
  ghost predicate Cleaned(before: Project, after: Project) {
    exists gone: set<Path> :: Doomed(before, gone) && after == Remove(before, gone)
  }

  ghost predicate Doomed(pr: Project, gone: set<Path>) {
    && gone <= pr.walked <= pr.names.Keys
    && forall p :: p in gone <==> p in pr.walked && !Reachable(pr, p)
  }

  /** `p` resolves to the header that the walk lists as `c`. */
  ghost predicate SameFile(pr: Project, p: Path, c: Path) {
    p in pr.names && c in pr.walked && c in pr.names && pr.names[c] == pr.names[p]
  }

  /** What a run removes, on paths: a path still resolves exactly when the header it names is
      not listed under an unreachable spelling, and the listing keeps exactly the reachable
      headers. Sources and header texts stay. */
  lemma {:induction false} CleanRemovesExactly(before: Project, after: Project)
    requires Valid(before) && Cleaned(before, after)
    ensures forall p :: p in after.names <==>
              p in before.names && !exists c :: SameFile(before, p, c) && !Reachable(before, c)
    ensures forall p :: p in after.names ==> after.names[p] == before.names[p]
    ensures forall p :: p in after.walked <==> p in before.walked && Reachable(before, p)
    ensures after.sources == before.sources && after.text == before.text
  {
    var gone: set<Path> :| Doomed(before, gone) && after == Remove(before, gone);
    RemoveMeans(before, gone);
    assert forall p, c :: SameFile(before, p, c) && !Reachable(before, c) ==> c in gone;
    assert forall p, c :: p in before.names && c in gone && before.names[c] == before.names[p] ==> SameFile(before, p, c);
  }

  /** What a caller can check beforehand: whenever a reachable path resolves to a listed
      header, the listed spelling of that header is reachable too. */
  ghost predicate SpellingsCovered(pr: Project) {
    forall p, c :: Reachable(pr, p) && p in pr.names && SameFile(pr, p, c) ==> Reachable(pr, c)
  }

  /** Stronger and easier to check: every resolving spelling of a listed header is the listed one. */
  ghost predicate Normalised(pr: Project) {
    forall p, c :: SameFile(pr, p, c) ==> p == c
  }

  /** Cleaning breaks no include of a source or a referenced header exactly when the
      spellings are covered. */
  lemma {:induction false} CleanIsSafeIff(before: Project, after: Project)
    requires Valid(before) && Cleaned(before, after)
    ensures (forall p :: Reachable(before, p) ==> p in after.names) <==> SpellingsCovered(before)
    ensures Normalised(before) ==> SpellingsCovered(before)
  {
    if forall p :: Reachable(before, p) ==> p in after.names {
      SafeOnlyIfCovered(before, after);
    }
    if SpellingsCovered(before) {
      forall p | Reachable(before, p) ensures p in after.names { CoveredIsSafe(before, after, p); }
    }
  }

  lemma {:induction false} SafeOnlyIfCovered(before: Project, after: Project)
    requires Valid(before) && Cleaned(before, after) && forall p :: Reachable(before, p) ==> p in after.names
    ensures SpellingsCovered(before)
  {
    var gone: set<Path> :| Doomed(before, gone) && after == Remove(before, gone);
    forall p, c | Reachable(before, p) && p in before.names && SameFile(before, p, c) ensures Reachable(before, c) {
      assert p in after.names;
      assert c !in gone;
    }
  }

  lemma {:induction false} CoveredIsSafe(before: Project, after: Project, p: Path)
    requires Valid(before) && Cleaned(before, after) && SpellingsCovered(before) && Reachable(before, p)
    ensures p in after.names
  {
    ReachableExists(before, p);
    var gone: set<Path> :| Doomed(before, gone) && after == Remove(before, gone);
    forall c | c in gone ensures before.names[c] != before.names[p] {
      assert before.names[c] == before.names[p] ==> SameFile(before, p, c);
    }
  }

  /** On covered spellings every include that resolved from a source or from a referenced
      header still resolves, and no new one appears. */
  lemma {:induction false} CleanKeepsIncludes(before: Project, after: Project)
    requires Valid(before) && Cleaned(before, after) && SpellingsCovered(before)
    ensures forall p :: Seed(before, p) <==> Seed(after, p)
    ensures forall p, q :: Reachable(before, p) && Includes(before, p, q) ==> Includes(after, p, q)
    ensures forall p, q :: Includes(after, p, q) ==> Includes(before, p, q)
  {
    CleanIsSafeIff(before, after);
    forall p | Seed(before, p) ensures Seed(after, p) { SeedReachable(before, p); }
    forall p, q | Reachable(before, p) && Includes(before, p, q) ensures Includes(after, p, q) {
      IncludeReachable(before, p, q);
    }
  }

  lemma {:induction false} TrailTransfers(before: Project, after: Project, trail: seq<Path>)
    requires Valid(before) && Cleaned(before, after) && SpellingsCovered(before)
    ensures Trail(before, trail) <==> Trail(after, trail)
  {
    CleanKeepsIncludes(before, after);
    if Trail(before, trail) {
      forall i | 0 <= i < |trail| - 1 ensures Includes(after, trail[i], trail[i + 1]) {
        var part := trail[..i + 1];
        assert forall j :: 0 <= j < |part| ==> part[j] == trail[j];
        assert Trail(before, part);
        assert Reachable(before, trail[i]);
      }
    }
  }

  /** After a safe run the same paths are reachable, every listed header left is reachable,
      and a second run changes nothing. */
  lemma {:induction false} SecondRunDeletesNothing(before: Project, after: Project, again: Project)
    requires Valid(before) && Cleaned(before, after) && SpellingsCovered(before) && Cleaned(after, again)
    ensures forall p :: Reachable(before, p) <==> Reachable(after, p)
    ensures forall p :: p in after.walked ==> Reachable(after, p)
    ensures again == after
  {
    forall p ensures Reachable(before, p) <==> Reachable(after, p) {
      if Reachable(before, p) {
        var trail :| Trail(before, trail) && trail[|trail| - 1] == p;
        TrailTransfers(before, after, trail);
      }
      if Reachable(after, p) {
        var trail :| Trail(after, trail) && trail[|trail| - 1] == p;
        TrailTransfers(before, after, trail);
      }
    }
    var gone: set<Path> :| Doomed(after, gone) && again == Remove(after, gone);
    assert gone == {};
    assert Remove(after, {}) == after;
  }

  /** A source that includes a header under another spelling than the walk lists it by, such
      as `sub/../b.h` for `b.h`. */
  function AliasProject(src: Path, alias: Path, listed: Path): Project {
    Project(map[src := {alias}], map[alias := 0, listed := 0], map[0 := {}], {listed})
  }

  lemma {:induction false} AliasReach(src: Path, alias: Path, listed: Path, p: Path)
    requires alias != listed
    ensures var pr := AliasProject(src, alias, listed); Seed(pr, alias) && (Reachable(pr, p) <==> p == alias)
  {
    var pr := AliasProject(src, alias, listed);
    assert src in pr.sources && alias in pr.sources[src];
    SeedReachable(pr, alias);
    assert Closed(pr, {alias});
    ClosedIsReachable(pr, {alias});
  }

  /** Without covered spellings the script deletes a header that a source includes. */
  lemma {:induction false} AliasIsDeleted(src: Path, alias: Path, listed: Path, after: Project)
    requires alias != listed && Cleaned(AliasProject(src, alias, listed), after)
    ensures var pr := AliasProject(src, alias, listed);
            Valid(pr) && !SpellingsCovered(pr) && Seed(pr, alias) && alias !in after.names
  {
    var pr := AliasProject(src, alias, listed);
    AliasReach(src, alias, listed, listed);
    AliasReach(src, alias, listed, alias);
    assert SameFile(pr, alias, listed);
    var gone: set<Path> :| Doomed(pr, gone) && after == Remove(pr, gone);
    assert listed in gone;
  }
}
