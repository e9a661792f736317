/** The import closure of an assembled app (tools/dependency_closure.py): copy in every module that the
    code already there imports, however far. */
module DependencyClosure {
  import opened Reachability
  import opened Wrappers

  /** A dotted module name, or a file path without its .py, by components */
  type Name = seq<string>

  /** The python files of a tree, each with the scrapyard modules it imports anywhere */
  type Tree = map<Name, set<Name>>

  const INIT := "__init__"

  /** module_to_repo_file(): module.py, else the package's __init__.py */
  function RepoFile(repo: Tree, m: Name): Option<Name> {
    if m in repo then Some(m)
    else if m + [INIT] in repo then Some(m + [INIT])
    else None
  }

  predicate Present(files: Tree, m: Name) {
    m in files || m + [INIT] in files
  }

  /** A package __init__ on the way to `f` */
  predicate InitOnPath(f: Name, p: Name) {
    exists i :: 1 <= i < |f| && p == f[..i] + [INIT]
  }

  /** `now` is `before` and copies of repository files. */
  ghost predicate Extends(repo: Tree, before: Tree, now: Tree) {
    && (forall p :: p in before ==> p in now && now[p] == before[p])
    && (forall p :: p in now && p !in before ==> p in repo && now[p] == repo[p])
  }

  /** What a file imports, whether it was there from the start or comes from the repository */
  function Imports(seeds: Tree, repo: Tree, p: Name): set<Name> {
    if p in seeds then seeds[p] else if p in repo then repo[p] else {}
  }

  /** From a file to the repository files of the modules it imports */
  function ImportGraph(seeds: Tree, repo: Tree): Graph<Name> {
    map p | p in seeds.Keys + repo.Keys ::
      set d | d in Imports(seeds, repo, p) && RepoFile(repo, d).Some? :: RepoFile(repo, d).value
  }

  ghost predicate ReachedFromSeeds(seeds: Tree, repo: Tree, p: Name) {
    exists s :: s in seeds && Reaches(ImportGraph(seeds, repo), s, p)
  }

  lemma ImportReached(seeds: Tree, repo: Tree, p: Name, d: Name)
    requires ReachedFromSeeds(seeds, repo, p) && p in seeds.Keys + repo.Keys
    requires d in Imports(seeds, repo, p) && RepoFile(repo, d).Some?
    ensures ReachedFromSeeds(seeds, repo, RepoFile(repo, d).value)
  {
    var s :| s in seeds && Reaches(ImportGraph(seeds, repo), s, p);
    ReachesThenEdge(ImportGraph(seeds, repo), s, p, RepoFile(repo, d).value);
  }

  lemma SeedReached(seeds: Tree, repo: Tree, p: Name)
    requires p in seeds
    ensures ReachedFromSeeds(seeds, repo, p)
  {
    ReachesSelf(ImportGraph(seeds, repo), p);
  }

  /** The files that are looked into: those there from the start and those copied for an import */
  ghost predicate Scanned(seeds: Tree, repo: Tree, added: seq<Name>, p: Name) {
    p in seeds || exists d :: d in added && RepoFile(repo, d) == Some(p)
  }

  ghost predicate ImportsMet(files: Tree, unresolved: set<Name>, p: Name) {
    p in files ==> forall d :: d in files[p] ==> Present(files, d) || d in unresolved
  }

  /** `now` is `before` after copying `f` and the package files on its path. */
  ghost predicate IsCopy(repo: Tree, before: Tree, f: Name, now: Tree) {
    && f in repo && f in now && now[f] == repo[f]
    && (forall p :: p in before && p != f ==> p in now && now[p] == before[p])
    && (forall p :: p in now && p !in before ==> p in repo && now[p] == repo[p] && (p == f || InitOnPath(f, p)))
    && PackagesIn(repo, now, f)
  }

  /** Scanned, or waiting to be: exactly the files that ought to be */
  ghost predicate Scheduled(repo: Tree, seeds: Tree, files: Tree, seen: set<Name>, queue: seq<Name>, added: seq<Name>) {
    && (forall p :: p in seen || p in queue ==> p in files)
    && (forall p :: p in files ==> (Scanned(seeds, repo, added, p) <==> p in seen || p in queue))
  }

  ghost predicate SidesExplained(repo: Tree, seeds: Tree, files: Tree, added: seq<Name>) {
    forall p :: p in files && !Scanned(seeds, repo, added, p) ==> OnTheSide(repo, added, p)
  }

  /** The bookkeeping of the worklist */
  ghost predicate Progress(repo: Tree, seeds: Tree, files: Tree, seen: set<Name>, queue: seq<Name>, added: seq<Name>,
                           unresolved: set<Name>)
  {
    && Extends(repo, seeds, files)
    && Scheduled(repo, seeds, files, seen, queue, added)
    && SidesExplained(repo, seeds, files, added)
    && Noted(repo, seeds, files, seen, unresolved)
    && Accounted(repo, seeds, files, added)
  }

  /** Reported: wanted by a file that was looked into, and nowhere to be found */
  ghost predicate Noted(repo: Tree, seeds: Tree, files: Tree, seen: set<Name>, unresolved: set<Name>) {
    forall d :: d in unresolved ==>
      RepoFile(repo, d) == None && !Present(seeds, d) && exists p :: p in seen && p in files && d in files[p]
  }

  /** A file that came along as the package file of an added module */
  ghost predicate OnTheSide(repo: Tree, added: seq<Name>, p: Name) {
    exists d :: d in added && RepoFile(repo, d).Some? && InitOnPath(RepoFile(repo, d).value, p)
  }

  ghost predicate Accounted(repo: Tree, seeds: Tree, files: Tree, added: seq<Name>) {
    && (forall i, j :: 0 <= i < j < |added| ==> added[i] != added[j])
    && (forall d :: d in added ==> RepoFile(repo, d).Some? && RepoFile(repo, d).value in files
                                   && RepoFile(repo, d).value !in seeds
                                   && ReachedFromSeeds(seeds, repo, RepoFile(repo, d).value)
                                   && PackagesIn(repo, files, RepoFile(repo, d).value))
  }

  /** Every package __init__ the repository has on the way to `f` */
  ghost predicate PackagesIn(repo: Tree, files: Tree, f: Name) {
    forall p :: InitOnPath(f, p) && p in repo ==> p in files
  }

  lemma ScannedWithOneMore(repo: Tree, seeds: Tree, added: seq<Name>, dep: Name, p: Name)
    requires RepoFile(repo, dep).Some?
    ensures Scanned(seeds, repo, added + [dep], p) <==> Scanned(seeds, repo, added, p) || p == RepoFile(repo, dep).value
    ensures OnTheSide(repo, added + [dep], p) <==>
            OnTheSide(repo, added, p) || InitOnPath(RepoFile(repo, dep).value, p)
  {
    var more := added + [dep];
    assert dep in more && forall d :: d in more <==> d in added || d == dep;
  }

  lemma AddSchedules(repo: Tree, seeds: Tree, files: Tree, now: Tree, seen: set<Name>, queue: seq<Name>,
                     added: seq<Name>, dep: Name)
    requires RepoFile(repo, dep).Some? && IsCopy(repo, files, RepoFile(repo, dep).value, now)
    requires Scheduled(repo, seeds, files, seen, queue, added) && Accounted(repo, seeds, files, added)
    requires Extends(repo, seeds, files) && SidesExplained(repo, seeds, files, added)
    ensures Scheduled(repo, seeds, now, seen, queue + [RepoFile(repo, dep).value], added + [dep])
    ensures SidesExplained(repo, seeds, now, added + [dep])
  {
    forall p | p in now
      ensures Scanned(seeds, repo, added + [dep], p) <==> p in seen || p in queue + [RepoFile(repo, dep).value]
      ensures !Scanned(seeds, repo, added + [dep], p) ==> OnTheSide(repo, added + [dep], p)
    {
      ScannedWithOneMore(repo, seeds, added, dep, p);
      assert Scanned(seeds, repo, added, p) ==> p in files;
    }
  }

  lemma AddAccounts(repo: Tree, seeds: Tree, files: Tree, now: Tree, added: seq<Name>, py: Name, dep: Name)
    requires Accounted(repo, seeds, files, added) && Extends(repo, seeds, files)
    requires py in files && Scanned(seeds, repo, added, py) && dep in files[py]
    requires !Present(files, dep) && RepoFile(repo, dep).Some? && IsCopy(repo, files, RepoFile(repo, dep).value, now)
    ensures Accounted(repo, seeds, now, added + [dep])
  {
    if py in seeds {
      SeedReached(seeds, repo, py);
    }
    ImportReached(seeds, repo, py, dep);
    assert dep !in added;
  }

  /** A repository file that was missing has been copied. */
  ghost predicate Grew(repo: Tree, before: Tree, now: Tree) {
    exists f :: f in repo && f in now && f !in before
  }

  /** The tree only grows, and with it the queue. */
  ghost predicate Advanced(repo: Tree, before: Tree, waiting: seq<Name>, now: Tree, queue: seq<Name>) {
    && (forall p :: p in before ==> p in now && now[p] == before[p])
    && ((now == before && queue == waiting) || Grew(repo, before, now))
  }

  /** One missing import found in the repository and copied in */
  lemma AddOne(repo: Tree, seeds: Tree, files: Tree, now: Tree, seen: set<Name>, queue: seq<Name>, added: seq<Name>,
               unresolved: set<Name>, py: Name, dep: Name)
    requires Progress(repo, seeds, files, seen, queue, added, unresolved)
    requires py in seen && dep in files[py] && !Present(files, dep) && RepoFile(repo, dep).Some?
    requires IsCopy(repo, files, RepoFile(repo, dep).value, now)
    ensures Progress(repo, seeds, now, seen, queue + [RepoFile(repo, dep).value], added + [dep], unresolved)
    ensures Advanced(repo, files, queue, now, queue + [RepoFile(repo, dep).value]) && Present(now, dep)
  {
    assert RepoFile(repo, dep).value in now;
    AddSchedules(repo, seeds, files, now, seen, queue, added, dep);
    AddAccounts(repo, seeds, files, now, added, py, dep);
    StillNoted(repo, seeds, files, now, seen, unresolved);
  }

  /** One missing import that the repository does not have either */
  lemma ReportOne(repo: Tree, seeds: Tree, files: Tree, seen: set<Name>, queue: seq<Name>, added: seq<Name>,
                  unresolved: set<Name>, py: Name, dep: Name)
    requires Progress(repo, seeds, files, seen, queue, added, unresolved)
    requires py in seen && py in files && dep in files[py] && !Present(files, dep) && RepoFile(repo, dep) == None
    ensures Progress(repo, seeds, files, seen, queue, added, unresolved + {dep})
  {
  }

  lemma StillNoted(repo: Tree, seeds: Tree, files: Tree, now: Tree, seen: set<Name>, unresolved: set<Name>)
    requires forall p :: p in files ==> p in now && now[p] == files[p]
    requires Noted(repo, seeds, files, seen, unresolved)
    ensures Noted(repo, seeds, now, seen, unresolved)
  {
    forall d | d in unresolved
      ensures exists p :: p in seen && p in now && d in now[p]
    {
      var p :| p in seen && p in files && d in files[p];
    }
  }

  lemma StillMet(files: Tree, now: Tree, unresolved: set<Name>, more: set<Name>, seen: set<Name>)
    requires forall q :: q in files ==> q in now && now[q] == files[q]
    requires forall p :: p in seen ==> p in files && ImportsMet(files, unresolved, p)
    requires unresolved <= more
    ensures forall p :: p in seen ==> ImportsMet(now, more, p)
  {
  }

  lemma AdvancedTwice(repo: Tree, a: Tree, q: seq<Name>, b: Tree, r: seq<Name>, c: Tree, s: seq<Name>)
    requires Advanced(repo, a, q, b, r) && Advanced(repo, b, r, c, s)
    ensures Advanced(repo, a, q, c, s)
  {
    if Grew(repo, b, c) {
      var f :| f in repo && f in c && f !in b;
      assert f !in a;
    }
  }

  ghost predicate Answered(files: Tree, unresolved: set<Name>, asked: set<Name>) {
    forall d :: d in asked ==> Present(files, d) || d in unresolved
  }

  lemma OneMoreAnswered(repo: Tree, files: Tree, q: seq<Name>, now: Tree, r: seq<Name>, unresolved: set<Name>,
                        more: set<Name>, all: set<Name>, left: set<Name>, d: Name)
    requires Advanced(repo, files, q, now, r) && unresolved <= more
    requires Answered(files, unresolved, all - left) && Answered(now, more, {d})
    ensures Answered(now, more, all - (left - {d}))
  {
    forall x | x in all - (left - {d})
      ensures Present(now, x) || x in more
    {
      assert x in all - left || x in {d};
    }
  }

  lemma Seeded(repo: Tree, files: Tree, queue: seq<Name>)
    requires forall p :: p in queue <==> p in files
    ensures Progress(repo, files, files, {}, queue, [], {})
  {
  }

  lemma TakeNext(repo: Tree, seeds: Tree, files: Tree, seen: set<Name>, queue: seq<Name>, added: seq<Name>,
                 unresolved: set<Name>)
    requires Progress(repo, seeds, files, seen, queue, added, unresolved) && queue != []
    ensures var py, rest := queue[|queue| - 1], queue[..|queue| - 1];
            py in files && Progress(repo, seeds, files, seen + {py}, rest, added, unresolved)
            && (py in seen ==> seen + {py} == seen)
  {
    var py, rest := queue[|queue| - 1], queue[..|queue| - 1];
    assert py in queue && forall p :: p in queue <==> p in rest || p == py;
  }

  lemma GrewShrinks(repo: Tree, before: Tree, now: Tree)
    requires forall q :: q in before ==> q in now
    ensures Grew(repo, before, now) ==> repo.Keys - now.Keys < repo.Keys - before.Keys
  {
    if Grew(repo, before, now) {
      var f :| f in repo && f in now && f !in before;
      assert f in repo.Keys - before.Keys && f !in repo.Keys - now.Keys;
    }
  }

  /** What expand_dependency_closure() leaves: `files` grew out of `seeds`, by `added` modules */
  ghost predicate Expanded(repo: Tree, seeds: Tree, files: Tree, added: seq<Name>, unresolved: set<Name>) {
    && Extends(repo, seeds, files)
    && (forall p :: p in files && Scanned(seeds, repo, added, p) ==> ImportsMet(files, unresolved, p))
    && SidesExplained(repo, seeds, files, added)
    && Accounted(repo, seeds, files, added)
    && (forall d :: d in unresolved ==>
          RepoFile(repo, d) == None && !Present(seeds, d) && exists p :: p in files && Asks(seeds, repo, added, p, d))
  }

  /** A file that was looked into imports `d`. */
  ghost predicate Asks(seeds: Tree, repo: Tree, added: seq<Name>, p: Name, d: Name) {
    Scanned(seeds, repo, added, p) && d in Imports(seeds, repo, p)
  }

  lemma AllDone(repo: Tree, seeds: Tree, files: Tree, seen: set<Name>, added: seq<Name>, unresolved: set<Name>)
    requires Progress(repo, seeds, files, seen, [], added, unresolved)
    requires forall p :: p in seen ==> ImportsMet(files, unresolved, p)
    ensures seen == set p | p in files && Scanned(seeds, repo, added, p)
    ensures Expanded(repo, seeds, files, added, unresolved)
  {
    forall d | d in unresolved
      ensures exists p :: p in files && Asks(seeds, repo, added, p, d)
    {
      var p :| p in seen && p in files && d in files[p];
      assert Asks(seeds, repo, added, p, d);
    }
  }

  // ---------------------------------------------------------------------------------
  // The result in plain terms
  // ---------------------------------------------------------------------------------

  /** A module's file is the one of its name, or else the `__init__` of the package of its name. */
  lemma RepoFileExactly(repo: Tree, m: Name)
    ensures RepoFile(repo, m) == None <==> m !in repo && m + ["__init__"] !in repo
    ensures forall f :: RepoFile(repo, m) == Some(f) <==>
              f in repo && (f == m || (m !in repo && f == m + ["__init__"]))
  {
  }

  /** One step of the import closure: from a file to the repository files of the modules it imports */
  lemma ImportsExactly(seeds: Tree, repo: Tree, p: Name, q: Name)
    ensures q in Succ(ImportGraph(seeds, repo), p) <==>
            exists d :: ((p in seeds && d in seeds[p]) || (p !in seeds && p in repo && d in repo[p]))
                        && q in repo && (q == d || (d !in repo && q == d + ["__init__"]))
  {
    forall d {
      RepoFileExactly(repo, d);
    }
  }

  /** When expand_dependency_closure() is done: the file of each added module is there, with every `__init__` the
      repository has on the way to it, and each module it imports is there, or is a package there, or is reported. */
  lemma AddedExactly(repo: Tree, seeds: Tree, files: Tree, added: seq<Name>, unresolved: set<Name>, m: Name, f: Name)
    requires Expanded(repo, seeds, files, added, unresolved)
    requires m in added && f in repo && (f == m || (m !in repo && f == m + ["__init__"]))
    ensures f in files && f !in seeds
    ensures forall i :: 1 <= i < |f| && f[..i] + ["__init__"] in repo ==> f[..i] + ["__init__"] in files
    ensures forall d :: d in files[f] ==> d in files || d + ["__init__"] in files || d in unresolved
  {
    RepoFileExactly(repo, m);
    assert Scanned(seeds, repo, added, f) && PackagesIn(repo, files, f);
    forall i | 1 <= i < |f| && f[..i] + ["__init__"] in repo
      ensures f[..i] + ["__init__"] in files
    {
      assert InitOnPath(f, f[..i] + ["__init__"]);
    }
  }

  /** Every other file was there before and is unchanged, or is a copy of an `__init__` on the way to an added one. */
  lemma WhereFilesComeFrom(repo: Tree, seeds: Tree, files: Tree, added: seq<Name>, unresolved: set<Name>, p: Name)
    returns (m: Name, f: Name)
    requires Expanded(repo, seeds, files, added, unresolved)
    ensures p in seeds ==> p in files && files[p] == seeds[p]
    ensures p in seeds ==> forall d :: d in seeds[p] ==> d in files || d + ["__init__"] in files || d in unresolved
    ensures p in files && p !in seeds ==>
      && p in repo && files[p] == repo[p] && m in added
      && f in repo && (f == m || (m !in repo && f == m + ["__init__"]))
      && (p == f || exists i :: 1 <= i < |f| && p == f[..i] + ["__init__"])
  {
    if p in files && p !in seeds {
      if Scanned(seeds, repo, added, p) {
        m :| m in added && RepoFile(repo, m) == Some(p);
      } else {
        m :| m in added && RepoFile(repo, m).Some? && InitOnPath(RepoFile(repo, m).value, p);
      }
      f := RepoFile(repo, m).value;
    } else {
      m, f := [], [];
    }
  }

  /** What is reported is in neither tree, and a file there asks for it. */
  lemma ReportedExactly(repo: Tree, seeds: Tree, files: Tree, added: seq<Name>, unresolved: set<Name>, d: Name)
    requires Expanded(repo, seeds, files, added, unresolved) && d in unresolved
    ensures d !in repo && d + ["__init__"] !in repo && d !in seeds && d + ["__init__"] !in seeds
    ensures exists p :: p in files && d in files[p]
  {
    var p :| p in files && Asks(seeds, repo, added, p, d);
    assert d in files[p];
  }

  class OutputTree {
    const repo: Tree
    var files: Tree

    constructor (repo: Tree, files: Tree)
      ensures this.repo == repo && this.files == files
    {
      this.repo := repo;
      this.files := files;
    }

    /** _copy_into(): the file, and every package __init__ on its path that is missing */
    method CopyInto(f: Name)
      requires f in repo
      modifies this`files
      ensures IsCopy(repo, old(files), f, files)
    {
      files := files[f := repo[f]];
      var i := 1;
      while i < |f|
        invariant 1 <= i
        invariant f in files && files[f] == repo[f]
        invariant forall p :: p in old(files) && p != f ==> p in files && files[p] == old(files)[p]
        invariant forall p :: p in files && p !in old(files) ==>
          p in repo && files[p] == repo[p] && (p == f || InitOnPath(f, p))
        invariant forall j :: 1 <= j < i && j < |f| && f[..j] + [INIT] in repo ==> f[..j] + [INIT] in files
      {
        var init := f[..i] + [INIT];
        if init in repo && init !in files {
          files := files[init := repo[init]];
        }
        i := i + 1;
      }
    }

    /** expand_dependency_closure(): scan what is there, copy what it imports, scan that too */
    method Expand() returns (added: seq<Name>, scanned: nat, unresolved: set<Name>)
      modifies this`files
      ensures Expanded(repo, old(files), files, added, unresolved)
      ensures scanned == |set p | p in files && Scanned(old(files), repo, added, p)|
    {
      ghost var seeds := files;
      var seen: set<Name> := {};
      added, scanned, unresolved := [], 0, {};
      var queue := Listing(files.Keys);
      Seeded(repo, files, queue);
      while queue != []
        invariant Progress(repo, seeds, files, seen, queue, added, unresolved)
        invariant forall p :: p in seen ==> ImportsMet(files, unresolved, p)
        invariant scanned == |seen|
        decreases repo.Keys - files.Keys, |queue|
      {
        TakeNext(repo, seeds, files, seen, queue, added, unresolved);
        var py := queue[|queue| - 1];
        ghost var before := files;
        queue := queue[..|queue| - 1];
        if py !in seen {
          seen := seen + {py};
          scanned := scanned + 1;
          ghost var open := unresolved;
          queue, added, unresolved := Scan(seeds, py, seen, queue, added, unresolved);
          GrewShrinks(repo, before, files);
          StillMet(before, files, open, unresolved, seen - {py});
        }
      }
      AllDone(repo, seeds, files, seen, added, unresolved);
    }

    /** The inner loop: every import of one file, in whatever order the set gives them */
    method Scan(ghost seeds: Tree, py: Name, seen: set<Name>, queue0: seq<Name>, added0: seq<Name>,
                unresolved0: set<Name>)
      returns (queue: seq<Name>, added: seq<Name>, unresolved: set<Name>)
      requires py in seen && Progress(repo, seeds, files, seen, queue0, added0, unresolved0)
      modifies this`files
      ensures Progress(repo, seeds, files, seen, queue, added, unresolved)
      ensures Advanced(repo, old(files), queue0, files, queue)
      ensures unresolved0 <= unresolved && ImportsMet(files, unresolved, py)
    {
      queue, added, unresolved := queue0, added0, unresolved0;
      var all := files[py];
      var left := all;
      while left != {}
        invariant Progress(repo, seeds, files, seen, queue, added, unresolved)
        invariant Advanced(repo, old(files), queue0, files, queue)
        invariant left <= all == old(files)[py] && unresolved0 <= unresolved
        invariant Answered(files, unresolved, all - left)
        decreases left
      {
        ghost var before, waiting, open, rest := files, queue, unresolved, left;
        var dep :| dep in left;
        left := left - {dep};
        if dep !in seen && !Present(files, dep) {
          queue, added, unresolved := Fetch(seeds, py, dep, seen, queue, added, unresolved);
          AdvancedTwice(repo, old(files), queue0, before, waiting, files, queue);
        }
        OneMoreAnswered(repo, before, waiting, files, queue, open, unresolved, all, rest, dep);
      }
      assert all - left == all;
    }

    /** One import that is not there yet: copied in, or reported */
    method Fetch(ghost seeds: Tree, ghost py: Name, dep: Name, ghost seen: set<Name>, queue0: seq<Name>,
                 added0: seq<Name>, unresolved0: set<Name>)
      returns (queue: seq<Name>, added: seq<Name>, unresolved: set<Name>)
      requires py in seen && Progress(repo, seeds, files, seen, queue0, added0, unresolved0)
      requires dep in files[py] && !Present(files, dep)
      modifies this`files
      ensures Progress(repo, seeds, files, seen, queue, added, unresolved)
      ensures Advanced(repo, old(files), queue0, files, queue)
      ensures unresolved0 <= unresolved && (Present(files, dep) || dep in unresolved)
    {
      queue, added, unresolved := queue0, added0, unresolved0;
      var found := RepoFile(repo, dep);
      if found == None {
        ReportOne(repo, seeds, files, seen, queue, added, unresolved, py, dep);
        unresolved := unresolved + {dep};
      } else {
        CopyInto(found.value);
        AddOne(repo, seeds, old(files), files, seen, queue, added, unresolved, py, dep);
        added := added + [dep];
        queue := queue + [found.value];
      }
    }
  }

  predicate IsInit(p: Name) {
    p != [] && p[|p| - 1] == INIT
  }

  lemma SideFilesArePackages(repo: Tree, added: seq<Name>, p: Name)
    ensures OnTheSide(repo, added, p) ==> IsInit(p)
  {
  }

  // ---------------------------------------------------------------------------------
  // When the copied tree is import-complete
  // ---------------------------------------------------------------------------------

  ghost predicate Complete(files: Tree, unresolved: set<Name>) {
    forall p :: p in files ==> ImportsMet(files, unresolved, p)
  }

  /** The tree that `added` makes of `seeds` */
  ghost predicate InTree(seeds: Tree, repo: Tree, added: seq<Name>, p: Name) {
    Scanned(seeds, repo, added, p) || (p in repo && OnTheSide(repo, added, p))
  }

  ghost predicate Provided(seeds: Tree, repo: Tree, added: seq<Name>, d: Name) {
    || InTree(seeds, repo, added, d)
    || InTree(seeds, repo, added, d + [INIT])
    || exists q :: Asks(seeds, repo, added, q, d)
  }

  lemma FilesExactly(repo: Tree, seeds: Tree, files: Tree, added: seq<Name>, unresolved: set<Name>, p: Name)
    requires Expanded(repo, seeds, files, added, unresolved)
    ensures p in files <==> InTree(seeds, repo, added, p)
    ensures p in files ==> files[p] == Imports(seeds, repo, p)
  {
  }

  lemma MetExactly(repo: Tree, seeds: Tree, files: Tree, added: seq<Name>, unresolved: set<Name>, d: Name)
    requires Expanded(repo, seeds, files, added, unresolved)
    ensures Present(files, d) || d in unresolved <==> Provided(seeds, repo, added, d)
  {
    FilesExactly(repo, seeds, files, added, unresolved, d);
    FilesExactly(repo, seeds, files, added, unresolved, d + [INIT]);
    if q :| Asks(seeds, repo, added, q, d) {
      FilesExactly(repo, seeds, files, added, unresolved, q);
      assert ImportsMet(files, unresolved, q);
    }
  }

  /** For each run: everything is met exactly when every package file that came along unscanned imports only
      what is in the tree or what a scanned file asked for too. */
  lemma CompleteExactly(repo: Tree, seeds: Tree, files: Tree, added: seq<Name>, unresolved: set<Name>)
    requires Expanded(repo, seeds, files, added, unresolved)
    ensures Complete(files, unresolved) <==>
            forall p, d :: p in repo && OnTheSide(repo, added, p) && !Scanned(seeds, repo, added, p) && d in repo[p] ==>
                             Provided(seeds, repo, added, d)
  {
    forall p, d | p in repo && OnTheSide(repo, added, p) && !Scanned(seeds, repo, added, p) && d in repo[p]
      ensures p in files && d in files[p]
      ensures Present(files, d) || d in unresolved <==> Provided(seeds, repo, added, d)
    {
      FilesExactly(repo, seeds, files, added, unresolved, p);
      MetExactly(repo, seeds, files, added, unresolved, d);
    }
    forall p | p in files && !Scanned(seeds, repo, added, p)
      ensures p in repo && OnTheSide(repo, added, p) && files[p] == repo[p]
    {
      FilesExactly(repo, seeds, files, added, unresolved, p);
    }
  }

  /** In particular when the package files that came along import nothing */
  lemma CompleteWhenPackagesImportNothing(repo: Tree, seeds: Tree, files: Tree, added: seq<Name>, unresolved: set<Name>)
    requires Expanded(repo, seeds, files, added, unresolved)
    requires forall p :: p in repo && p !in seeds && OnTheSide(repo, added, p) ==> repo[p] == {}
    ensures Complete(files, unresolved)
  {
    CompleteExactly(repo, seeds, files, added, unresolved);
  }

  // ---------------------------------------------------------------------------------
  // Before the run: by import reachability alone
  // ---------------------------------------------------------------------------------

  /** Only one file can stand for the module, and it can not come along as a package file. */
  predicate PlainModule(seeds: Tree, repo: Tree, d: Name) {
    d in repo && !IsInit(d) && d + [INIT] !in seeds && d + [INIT] !in repo
  }

  /** The imports that are followed in whatever order they come up */
  function SureGraph(seeds: Tree, repo: Tree): Graph<Name> {
    map p | p in seeds.Keys + repo.Keys :: set d | d in Imports(seeds, repo, p) && PlainModule(seeds, repo, d)
  }

  ghost predicate SurelyReached(seeds: Tree, repo: Tree, p: Name) {
    exists s :: s in seeds && Reaches(SureGraph(seeds, repo), s, p)
  }

  lemma SureEdge(repo: Tree, seeds: Tree, files: Tree, added: seq<Name>, unresolved: set<Name>, p: Name, d: Name)
    requires Expanded(repo, seeds, files, added, unresolved) && p in files && Scanned(seeds, repo, added, p)
    requires d in Succ(SureGraph(seeds, repo), p)
    ensures d in files && Scanned(seeds, repo, added, d)
  {
    assert d in files[p] && ImportsMet(files, unresolved, p);
    assert d + [INIT] !in files;
    SideFilesArePackages(repo, added, d);
  }

  lemma SurelyScanned(repo: Tree, seeds: Tree, files: Tree, added: seq<Name>, unresolved: set<Name>, p: Name)
    requires Expanded(repo, seeds, files, added, unresolved) && SurelyReached(seeds, repo, p)
    ensures p in files && Scanned(seeds, repo, added, p)
  {
    var g, done := SureGraph(seeds, repo), set q | q in files && Scanned(seeds, repo, added, q);
    var s :| s in seeds && Reaches(g, s, p);
    forall q | q in done
      ensures Succ(g, q) <= done
    {
      forall d | d in Succ(g, q)
        ensures d in done
      {
        SureEdge(repo, seeds, files, added, unresolved, q, d);
      }
    }
    ClosedContainsReachable(g, done, s, p);
  }

  lemma ScannedIsReached(repo: Tree, seeds: Tree, files: Tree, added: seq<Name>, unresolved: set<Name>, p: Name)
    requires Expanded(repo, seeds, files, added, unresolved) && Scanned(seeds, repo, added, p)
    ensures ReachedFromSeeds(seeds, repo, p)
  {
    if p in seeds {
      SeedReached(seeds, repo, p);
    }
  }

  /** What some run may bring into the tree */
  ghost predicate MayCome(seeds: Tree, repo: Tree, p: Name) {
    ReachedFromSeeds(seeds, repo, p) || MayComeAlong(seeds, repo, p)
  }

  ghost predicate MayComeAlong(seeds: Tree, repo: Tree, p: Name) {
    p in repo && exists q :: ReachedFromSeeds(seeds, repo, q) && q !in seeds && InitOnPath(q, p)
  }

  ghost predicate MayBeMet(seeds: Tree, repo: Tree, d: Name) {
    MayCome(seeds, repo, d) || MayCome(seeds, repo, d + [INIT]) || exists q :: MayAsk(seeds, repo, q, d)
  }

  ghost predicate MayAsk(seeds: Tree, repo: Tree, q: Name, d: Name) {
    ReachedFromSeeds(seeds, repo, q) && d in Imports(seeds, repo, q)
  }

  lemma InTreeMayCome(repo: Tree, seeds: Tree, files: Tree, added: seq<Name>, unresolved: set<Name>, p: Name)
    requires Expanded(repo, seeds, files, added, unresolved) && p in files
    ensures MayCome(seeds, repo, p)
  {
    if Scanned(seeds, repo, added, p) {
      ScannedIsReached(repo, seeds, files, added, unresolved, p);
    } else {
      var d :| d in added && RepoFile(repo, d).Some? && InitOnPath(RepoFile(repo, d).value, p);
      assert ReachedFromSeeds(seeds, repo, RepoFile(repo, d).value);
    }
  }

  /** In every run: what is met was there, may have come, or was asked for by a file that may be looked into. */
  lemma MetMayBeMet(repo: Tree, seeds: Tree, files: Tree, added: seq<Name>, unresolved: set<Name>, d: Name)
    requires Expanded(repo, seeds, files, added, unresolved) && (Present(files, d) || d in unresolved)
    ensures MayBeMet(seeds, repo, d)
  {
    if d in files {
      InTreeMayCome(repo, seeds, files, added, unresolved, d);
    } else if d + [INIT] in files {
      InTreeMayCome(repo, seeds, files, added, unresolved, d + [INIT]);
    } else {
      var q :| q in files && Asks(seeds, repo, added, q, d);
      ScannedIsReached(repo, seeds, files, added, unresolved, q);
      assert MayAsk(seeds, repo, q, d);
    }
  }

  lemma ComesAlong(repo: Tree, seeds: Tree, files: Tree, added: seq<Name>, unresolved: set<Name>, q: Name, p: Name)
    requires Expanded(repo, seeds, files, added, unresolved)
    requires SurelyReached(seeds, repo, q) && q !in seeds && InitOnPath(q, p) && p in repo
    ensures p in files
  {
    SurelyScanned(repo, seeds, files, added, unresolved, q);
    var d :| d in added && RepoFile(repo, d) == Some(q);
    assert PackagesIn(repo, files, q);
  }

  /** A package file on the path of a module that is surely copied, itself reached by no import, and importing
      what no reached or accompanying file is and no reached file asks for: missed by every run. */
  lemma MissedByEveryRun(repo: Tree, seeds: Tree, files: Tree, added: seq<Name>, unresolved: set<Name>,
                         q: Name, p: Name, d: Name)
    requires Expanded(repo, seeds, files, added, unresolved)
    requires SurelyReached(seeds, repo, q) && q !in seeds && InitOnPath(q, p) && p in repo
    requires !ReachedFromSeeds(seeds, repo, p) && d in repo[p] && !MayBeMet(seeds, repo, d)
    ensures p in files && d in files[p] && !Present(files, d) && d !in unresolved
  {
    ComesAlong(repo, seeds, files, added, unresolved, q, p);
    if p in seeds {
      SeedReached(seeds, repo, p);
    }
    if Present(files, d) || d in unresolved {
      MetMayBeMet(repo, seeds, files, added, unresolved, d);
    }
  }

  /** Imports lead to plain modules only: no file is reached as a package, or shadows another. */
  ghost predicate ByModules(seeds: Tree, repo: Tree) {
    forall p :: ReachedFromSeeds(seeds, repo, p) && p !in seeds ==> PlainModule(seeds, repo, p)
  }

  lemma SureIsReached(seeds: Tree, repo: Tree, s: Name, p: Name)
    requires s in seeds && Reaches(SureGraph(seeds, repo), s, p)
    ensures ReachedFromSeeds(seeds, repo, p)
  {
    var g, h := SureGraph(seeds, repo), ImportGraph(seeds, repo);
    var path :| PathFromTo(g, path, s, p);
    forall i: nat | i < |path| - 1
      ensures Hop(h, path, i)
    {
      assert Hop(g, path, i);
    }
    assert PathFromTo(h, path, s, p);
  }

  lemma ReachedIsSure(seeds: Tree, repo: Tree, p: Name)
    requires ByModules(seeds, repo) && ReachedFromSeeds(seeds, repo, p)
    ensures SurelyReached(seeds, repo, p)
  {
    var s :| s in seeds && Reaches(ImportGraph(seeds, repo), s, p);
    var sure := set q | q in seeds.Keys + repo.Keys && SurelyReached(seeds, repo, q);
    ReachesSelf(SureGraph(seeds, repo), s);
    forall a, b | a in sure && b in Succ(ImportGraph(seeds, repo), a)
      ensures b in sure
    {
      SureStep(seeds, repo, a, b);
    }
    ClosedContainsReachable(ImportGraph(seeds, repo), sure, s, p);
  }

  lemma SureStep(seeds: Tree, repo: Tree, a: Name, b: Name)
    requires ByModules(seeds, repo) && SurelyReached(seeds, repo, a)
    requires b in Succ(ImportGraph(seeds, repo), a)
    ensures b in seeds.Keys + repo.Keys && SurelyReached(seeds, repo, b)
  {
    var d :| d in Imports(seeds, repo, a) && RepoFile(repo, d) == Some(b);
    var s :| s in seeds && Reaches(SureGraph(seeds, repo), s, a);
    if b in seeds {
      ReachesSelf(SureGraph(seeds, repo), b);
    } else {
      SureIsReached(seeds, repo, s, a);
      ImportReached(seeds, repo, a, d);
      assert PlainModule(seeds, repo, b);
      assert IsInit(d + [INIT]);
      ReachesThenEdge(SureGraph(seeds, repo), s, a, b);
    }
  }

  /** When imports lead to plain modules, completeness is settled before the run, whatever order files and imports
      come in: every import is met exactly when each package file that comes along imports only what is reached,
      comes along too, or is asked for by a reached file. */
  lemma CompleteBeforehand(repo: Tree, seeds: Tree, files: Tree, added: seq<Name>, unresolved: set<Name>)
    requires Expanded(repo, seeds, files, added, unresolved) && ByModules(seeds, repo)
    ensures Complete(files, unresolved) <==>
            forall p, d :: MayComeAlong(seeds, repo, p) && !ReachedFromSeeds(seeds, repo, p) && d in repo[p] ==>
                             MayBeMet(seeds, repo, d)
  {
    forall p, d | MayComeAlong(seeds, repo, p) && !ReachedFromSeeds(seeds, repo, p) && d in repo[p]
      ensures Complete(files, unresolved) ==> MayBeMet(seeds, repo, d)
    {
      var q :| ReachedFromSeeds(seeds, repo, q) && q !in seeds && InitOnPath(q, p);
      ReachedIsSure(seeds, repo, q);
      if !MayBeMet(seeds, repo, d) {
        MissedByEveryRun(repo, seeds, files, added, unresolved, q, p, d);
        assert !ImportsMet(files, unresolved, p);
      }
    }
    forall p, d | p in files && !Scanned(seeds, repo, added, p) && d in files[p]
      ensures MayComeAlong(seeds, repo, p) && !ReachedFromSeeds(seeds, repo, p) && d in repo[p]
      ensures MayBeMet(seeds, repo, d) ==> Present(files, d) || d in unresolved
    {
      InTreeMayCome(repo, seeds, files, added, unresolved, p);
      if ReachedFromSeeds(seeds, repo, p) {
        ReachedIsSure(seeds, repo, p);
        SurelyScanned(repo, seeds, files, added, unresolved, p);
      }
      if MayBeMet(seeds, repo, d) {
        MetByAll(repo, seeds, files, added, unresolved, d);
      }
    }
  }

  lemma ComesByAll(repo: Tree, seeds: Tree, files: Tree, added: seq<Name>, unresolved: set<Name>, p: Name)
    requires Expanded(repo, seeds, files, added, unresolved) && ByModules(seeds, repo)
    requires MayCome(seeds, repo, p)
    ensures p in files
  {
    if ReachedFromSeeds(seeds, repo, p) {
      ReachedIsSure(seeds, repo, p);
      SurelyScanned(repo, seeds, files, added, unresolved, p);
    } else {
      var q :| ReachedFromSeeds(seeds, repo, q) && q !in seeds && InitOnPath(q, p);
      ReachedIsSure(seeds, repo, q);
      ComesAlong(repo, seeds, files, added, unresolved, q, p);
    }
  }

  lemma MetByAll(repo: Tree, seeds: Tree, files: Tree, added: seq<Name>, unresolved: set<Name>, d: Name)
    requires Expanded(repo, seeds, files, added, unresolved) && ByModules(seeds, repo)
    requires MayBeMet(seeds, repo, d)
    ensures Present(files, d) || d in unresolved
  {
    if MayCome(seeds, repo, d) {
      ComesByAll(repo, seeds, files, added, unresolved, d);
    } else if MayCome(seeds, repo, d + [INIT]) {
      ComesByAll(repo, seeds, files, added, unresolved, d + [INIT]);
    } else {
      var q :| MayAsk(seeds, repo, q, d);
      ReachedIsSure(seeds, repo, q);
      SurelyScanned(repo, seeds, files, added, unresolved, q);
      assert d in files[q] && ImportsMet(files, unresolved, q);
    }
  }

  // ---------------------------------------------------------------------------------
  // An instance
  // ---------------------------------------------------------------------------------

  const A: Name := ["scrapyard", "a"]
  const Z: Name := ["scrapyard", "z"]
  const MODULE: Name := ["scrapyard", "p", "m"]
  const PACKAGE: Name := ["scrapyard", "p", INIT]

  function SmallRepo(): Tree {
    map[A := {MODULE}, MODULE := {}, PACKAGE := {Z}, Z := {}]
  }

  function SmallSeeds(): Tree {
    map[A := {MODULE}]
  }

  /** A package file comes along, and what it imports is neither copied nor reported. */
  method PackageImportsAreMissed() returns (tree: OutputTree, unresolved: set<Name>)
    ensures fresh(tree) && PACKAGE in tree.files && !ImportsMet(tree.files, unresolved, PACKAGE)
  {
    var repo := SmallRepo();
    tree := new OutputTree(repo, SmallSeeds());
    var added, scanned;
    added, scanned, unresolved := tree.Expand();
    MissedImport(tree.files, added, unresolved);
  }

  lemma MissedImport(files: Tree, added: seq<Name>, unresolved: set<Name>)
    requires Expanded(SmallRepo(), SmallSeeds(), files, added, unresolved)
    ensures PACKAGE in files && !ImportsMet(files, unresolved, PACKAGE)
  {
    ModuleIsSure();
    NothingBringsZ();
    PackageOfModule();
    MissedByEveryRun(SmallRepo(), SmallSeeds(), files, added, unresolved, MODULE, PACKAGE, Z);
  }

  lemma SmallNames()
    ensures |A| == |Z| == 2 && |MODULE| == |PACKAGE| == 3
    ensures A != Z && MODULE != PACKAGE && !IsInit(A) && !IsInit(Z) && !IsInit(MODULE) && IsInit(PACKAGE)
    ensures Z + [INIT] != PACKAGE && A + [INIT] != PACKAGE
  {
    assert A[1] == "a" && Z[1] == "z" && MODULE[2] == "m" && PACKAGE[2] == INIT && |INIT| == 8;
    assert (Z + [INIT])[1] == "z" && (A + [INIT])[1] == "a" && PACKAGE[1] == "p";
  }

  lemma PackageOfModule()
    ensures InitOnPath(MODULE, PACKAGE) && PACKAGE in SmallRepo() && SmallRepo()[PACKAGE] == {Z}
  {
    SmallNames();
    assert PACKAGE == MODULE[..2] + [INIT];
  }

  lemma ModuleIsSure()
    ensures SurelyReached(SmallSeeds(), SmallRepo(), MODULE) && MODULE !in SmallSeeds()
  {
    SmallNames();
    assert |MODULE + [INIT]| == 4;
    assert PlainModule(SmallSeeds(), SmallRepo(), MODULE);
    ReachesSelf(SureGraph(SmallSeeds(), SmallRepo()), A);
    ReachesThenEdge(SureGraph(SmallSeeds(), SmallRepo()), A, A, MODULE);
  }

  lemma ReachedInSmall(p: Name)
    requires ReachedFromSeeds(SmallSeeds(), SmallRepo(), p)
    ensures p == A || p == MODULE
  {
    SmallNames();
    var g := ImportGraph(SmallSeeds(), SmallRepo());
    var s :| s in SmallSeeds() && Reaches(g, s, p);
    assert Succ(g, A) <= {A, MODULE} && Succ(g, MODULE) <= {A, MODULE};
    ClosedContainsReachable(g, {A, MODULE}, s, p);
  }

  lemma NothingBringsZ()
    ensures !MayBeMet(SmallSeeds(), SmallRepo(), Z) && !ReachedFromSeeds(SmallSeeds(), SmallRepo(), PACKAGE)
  {
    SmallNames();
    forall p | ReachedFromSeeds(SmallSeeds(), SmallRepo(), p)
      ensures p == A || p == MODULE
    {
      ReachedInSmall(p);
    }
    assert |Z + [INIT]| == 3 && (Z + [INIT])[2] == INIT;
    assert Z + [INIT] !in SmallRepo() && Z + [INIT] != MODULE;
    assert !MayComeAlong(SmallSeeds(), SmallRepo(), Z);
  }

  /** os.walk(): the files there, in some order */
  method Listing(files: set<Name>) returns (queue: seq<Name>)
    ensures forall p :: p in queue <==> p in files
  {
    queue := [];
    var left := files;
    while left != {}
      invariant left <= files && forall p :: p in queue <==> p in files && p !in left
      decreases left
    {
      var p :| p in left;
      queue, left := queue + [p], left - {p};
    }
  }
}
