/** The Spectre-based `prune` command (src/Commands/PruneCommand.cs):
    Validate enumerates the sync roots under the given directories, Execute
    walks them with a question before every step that changes the system. */
module PruneCommands {
  import opened Text
  import opened Effects
  import LegacyPrune

  // ---------------------------------------------------------------------------
  // Settings

  datatype PruneSettings = PruneSettings(
    syncRoots: seq<Path>, includes: seq<string>, recurse: bool, confirm: bool, whatIf: bool)

  const IncludeWithoutRecurse := "Include-filter cannot be used without Recurse."
  const NoSyncRootsSpecified := "No sync roots specified"

  /** PruneCommandSettings.Validate: Include needs Recurse. */
  function ValidateSettings(s: PruneSettings): (r: Validation)
    ensures r.Error? <==> |s.includes| > 0 && !s.recurse
    ensures r.Error? ==> r.message == IncludeWithoutRecurse
  {
    if s.recurse || |s.includes| == 0 then Success else Error(IncludeWithoutRecurse)
  }

  /** The include patterns of the matcher Validate builds: one exists only
      with Recurse and a non-empty Include. */
  function MatcherFor(s: PruneSettings): (m: Option<seq<string>>)
    ensures m.Some? <==> s.recurse && |s.includes| > 0
    ensures m.Some? ==> m.value == s.includes
  {
    if s.recurse && |s.includes| > 0 then Some(s.includes) else None
  }

  // ---------------------------------------------------------------------------
  // Enumeration

  /** A file-system entry: its full path, whether it is a directory, whether
      it carries the Hidden or System attribute (which the default
      EnumerationOptions skip) and, for a directory, its entries in the
      order the file system lists them. */
  datatype Node = Node(path: Path, isDirectory: bool, skipped: bool, children: seq<Node>)

  /** Matcher.Match(rootDirectory, fullPath).HasMatches for a matcher with
      the given include patterns; the globbing library is an input. */
  type PathGlob = (seq<string>, Path, Path) -> bool

  /** One FileSystemEnumerable: its root directory, RecurseSubdirectories,
      the matcher, and CfGetSyncRootInfoByPath succeeding for a path. */
  datatype Walk = Walk(root: Path, recurse: bool, matcher: Option<seq<string>>, glob: PathGlob,
                       isSyncRoot: Path -> bool)

  /** ShouldInclude, for an entry the options do not skip: a directory
      that is a sync root and, when there is a matcher, matches it. */
  function ShouldInclude(w: Walk, e: Node): (r: bool)
    ensures r ==> e.isDirectory && w.isSyncRoot(e.path)
    ensures w.matcher.None? ==> (r <==> e.isDirectory && w.isSyncRoot(e.path))
  {
    && e.isDirectory
    && (w.matcher.None? || w.glob(w.matcher.value, w.root, e.path))
    && w.isSyncRoot(e.path)
  }

  /** ShouldRecurse: the enumerator never descends into an entry it
      includes, and without a matcher a directory is either included or
      descended into. */
  function ShouldRecurse(w: Walk, e: Node): (r: bool)
    ensures r ==> !ShouldInclude(w, e)
    ensures e.isDirectory && w.matcher.None? ==> (r <==> !ShouldInclude(w, e))
  {
    !w.isSyncRoot(e.path)
  }

  /** Entries the enumerator yields. */
  predicate Yields(w: Walk, e: Node)
  {
    !e.skipped && ShouldInclude(w, e)
  }

  /** Directories the enumerator descends into. */
  predicate Descends(w: Walk, e: Node)
  {
    !e.skipped && e.isDirectory && w.recurse && ShouldRecurse(w, e)
  }

  function Size(n: Node): nat
    decreases n, 0
  {
    1 + SizeList(n.children)
  }

  function SizeList(ns: seq<Node>): nat
    decreases ns, 1
  {
    if ns == [] then 0 else Size(ns[0]) + SizeList(ns[1..])
  }

  lemma {:induction false} SizeListAppend(a: seq<Node>, b: seq<Node>)
    ensures SizeList(a + b) == SizeList(a) + SizeList(b)
    decreases |a|
  {
    if a != [] {
      assert (a + b)[0] == a[0] && (a + b)[1..] == a[1..] + b;
      SizeListAppend(a[1..], b);
    } else {
      AppendEmpty(b);
    }
  }

  /** The entries of one directory listing that are yielded, in order. */
  function Listed(w: Walk, es: seq<Node>): (r: seq<Node>)
    ensures forall i :: 0 <= i < |r| ==> Yields(w, r[i])
  {
    if es == [] then []
    else (if Yields(w, es[0]) then [es[0]] else []) + Listed(w, es[1..])
  }

  /** The entries of one directory listing that are queued for descent. */
  function Queued(w: Walk, es: seq<Node>): (r: seq<Node>)
    ensures SizeList(r) <= SizeList(es)
    ensures forall i :: 0 <= i < |r| ==> Descends(w, r[i])
  {
    if es == [] then []
    else
      var rest := Queued(w, es[1..]);
      if Descends(w, es[0]) then
        assert [es[0]] + rest == [es[0]] + rest;
        SizeListAppend([es[0]], rest);
        assert [es[0]][1..] == [];
        [es[0]] + rest
      else rest
  }

  /** Listing the head of the queue and queueing what it descends into
      leaves a smaller queue, which is why the walk ends. */
  lemma QueueShrinks(w: Walk, queue: seq<Node>)
    requires queue != []
    ensures SizeList(queue[1..] + Queued(w, queue[0].children)) < SizeList(queue)
  {
    var d := queue[0];
    assert SizeList(queue) == Size(d) + SizeList(queue[1..]) && Size(d) == 1 + SizeList(d.children);
    SizeListAppend(queue[1..], Queued(w, d.children));
  }

  /** The breadth-first walk of FileSystemEnumerator: list the directory at
      the head of the queue, yield its entries that pass, queue those it
      descends into, and go on with the rest of the queue. */
  function Bfs(w: Walk, queue: seq<Node>): seq<Node>
    decreases SizeList(queue)
  {
    if queue == [] then []
    else
      var d := queue[0];
      QueueShrinks(w, queue);
      Listed(w, d.children) + Bfs(w, queue[1..] + Queued(w, d.children))
  }

  /** The independent reference: a depth-first walk visiting the same
      entries. */
  function Dfs(w: Walk, es: seq<Node>): seq<Node>
    decreases SizeList(es), 1
  {
    if es == [] then []
    else Visit(w, es[0]) + Dfs(w, es[1..])
  }

  function Visit(w: Walk, e: Node): seq<Node>
    decreases Size(e), 0
  {
    (if Yields(w, e) then [e] else []) + (if Descends(w, e) then Dfs(w, e.children) else [])
  }

  /** The depth-first walks of the listings of several directories, one
      after the other. */
  function DfsAll(w: Walk, dirs: seq<Node>): seq<Node>
  {
    if dirs == [] then [] else Dfs(w, dirs[0].children) + DfsAll(w, dirs[1..])
  }

  lemma {:induction false} DfsAllAppend(w: Walk, a: seq<Node>, b: seq<Node>)
    ensures multiset(DfsAll(w, a + b)) == multiset(DfsAll(w, a)) + multiset(DfsAll(w, b))
    decreases |a|
  {
    if a != [] {
      assert (a + b)[0] == a[0] && (a + b)[1..] == a[1..] + b;
      DfsAllAppend(w, a[1..], b);
    } else {
      assert a + b == b;
    }
  }

  /** A depth-first listing is the listing's own yielded entries plus the
      depth-first walks of the directories it queues. */
  lemma {:induction false} DfsSplits(w: Walk, es: seq<Node>)
    ensures multiset(Dfs(w, es)) == multiset(Listed(w, es)) + multiset(DfsAll(w, Queued(w, es)))
    decreases |es|
  {
    if es != [] {
      DfsHead(w, es);
      DfsSplits(w, es[1..]);
    }
  }

  /** The first entry's share of each side of DfsSplits. */
  lemma DfsHead(w: Walk, es: seq<Node>)
    requires es != []
    ensures var e := es[0];
      var own: multiset<Node> := if Yields(w, e) then multiset{e} else multiset{};
      var below: multiset<Node> := if Descends(w, e) then multiset(Dfs(w, e.children)) else multiset{};
      && multiset(Dfs(w, es)) == own + below + multiset(Dfs(w, es[1..]))
      && multiset(Listed(w, es)) == own + multiset(Listed(w, es[1..]))
      && multiset(DfsAll(w, Queued(w, es))) == below + multiset(DfsAll(w, Queued(w, es[1..])))
  {
    var e := es[0];
    var q := Queued(w, es[1..]);
    ListingStep(w, es);
    if Descends(w, e) {
      assert ([e] + q)[0] == e && ([e] + q)[1..] == q;
    } else {
      AppendEmpty(q);
    }
  }

  /** The breadth-first enumeration yields the same entries, as many times
      each, as the depth-first reference. */
  lemma {:induction false} BfsIsDfs(w: Walk, queue: seq<Node>)
    ensures multiset(Bfs(w, queue)) == multiset(DfsAll(w, queue))
    decreases SizeList(queue)
  {
    if queue != [] {
      var d := queue[0];
      var next := queue[1..] + Queued(w, d.children);
      QueueShrinks(w, queue);
      BfsIsDfs(w, next);
      DfsAllAppend(w, queue[1..], Queued(w, d.children));
      DfsSplits(w, d.children);
    }
  }

  /** The directories whose listing the breadth-first walk reads, in order. */
  function Expanded(w: Walk, queue: seq<Node>): seq<Node>
    decreases SizeList(queue)
  {
    if queue == [] then []
    else
      var d := queue[0];
      QueueShrinks(w, queue);
      [d] + Expanded(w, queue[1..] + Queued(w, d.children))
  }

  /** Every yielded entry is a directory that passes the matcher, when
      there is one, and is a sync root; no skipped entry is yielded. */
  lemma {:induction false} BfsYields(w: Walk, queue: seq<Node>)
    ensures forall i :: 0 <= i < |Bfs(w, queue)| ==> Yields(w, Bfs(w, queue)[i])
    decreases SizeList(queue)
  {
    if queue != [] {
      var d := queue[0];
      var next := queue[1..] + Queued(w, d.children);
      QueueShrinks(w, queue);
      BfsYields(w, next);
      var l := Listed(w, d.children);
      forall i | 0 <= i < |Bfs(w, queue)| ensures Yields(w, Bfs(w, queue)[i]) {
        if i >= |l| {
          assert Bfs(w, queue)[i] == Bfs(w, next)[i - |l|];
        }
      }
    }
  }

  /** A queue of directories the walk may descend into stays so: every
      directory it reads is one it may descend into. */
  lemma {:induction false} ExpandedDescends(w: Walk, queue: seq<Node>)
    requires forall j :: 0 <= j < |queue| ==> Descends(w, queue[j])
    ensures forall i :: 0 <= i < |Expanded(w, queue)| ==> Descends(w, Expanded(w, queue)[i])
    decreases SizeList(queue)
  {
    if queue != [] {
      var d := queue[0];
      var next := queue[1..] + Queued(w, d.children);
      QueueShrinks(w, queue);
      forall j | 0 <= j < |next| ensures Descends(w, next[j]) {
        if j < |queue| - 1 {
          assert next[j] == queue[j + 1];
        } else {
          assert next[j] == Queued(w, d.children)[j - (|queue| - 1)];
        }
      }
      ExpandedDescends(w, next);
      forall i | 0 <= i < |Expanded(w, queue)| ensures Descends(w, Expanded(w, queue)[i]) {
        if i > 0 {
          assert Expanded(w, queue)[i] == Expanded(w, next)[i - 1];
        }
      }
    }
  }

  /** The walk from one root never reads the listing of a sync root, of a
      skipped entry or of anything but a directory, and reads no listing
      beyond the root's without Recurse. */
  lemma NeverDescendsIntoSyncRoot(w: Walk, root: Node)
    ensures var dirs := Expanded(w, [root]);
      |dirs| >= 1 && dirs[0] == root
      && forall i :: 1 <= i < |dirs| ==>
           !w.isSyncRoot(dirs[i].path) && dirs[i].isDirectory && !dirs[i].skipped && w.recurse
  {
    var q := Queued(w, root.children);
    assert [root][1..] + q == q;
    ExpandedDescends(w, q);
  }

  lemma {:induction false} ListedMembers(w: Walk, es: seq<Node>, x: Node)
    ensures x in Listed(w, es) <==> x in es && Yields(w, x)
    decreases |es|
  {
    if es != [] {
      ListedMembers(w, es[1..], x);
      assert es == [es[0]] + es[1..];
    }
  }

  /** An entry is yielded exactly when it passes and is listed in one of the
      directories the walk reads. */
  lemma {:induction false} BfsMembers(w: Walk, queue: seq<Node>, x: Node)
    ensures x in Bfs(w, queue) <==>
      Yields(w, x) && exists i :: 0 <= i < |Expanded(w, queue)| && x in Expanded(w, queue)[i].children
    decreases SizeList(queue)
  {
    if queue != [] {
      var d := queue[0];
      var next := queue[1..] + Queued(w, d.children);
      QueueShrinks(w, queue);
      BfsMembers(w, next, x);
      ListedMembers(w, d.children, x);
      var e := Expanded(w, queue);
      assert e[0] == d && e[1..] == Expanded(w, next);
      if exists i :: 0 <= i < |e| && x in e[i].children {
        var i :| 0 <= i < |e| && x in e[i].children;
        if i > 0 {
          assert x in Expanded(w, next)[i - 1].children;
        }
      }
      if exists i :: 0 <= i < |Expanded(w, next)| && x in Expanded(w, next)[i].children {
        var i :| 0 <= i < |Expanded(w, next)| && x in Expanded(w, next)[i].children;
        assert e[i + 1] == Expanded(w, next)[i];
      }
    }
  }

  /** Without Recurse only the root's own listing is read. */
  lemma WithoutRecurseOnlyTheRoot(w: Walk, root: Node)
    requires !w.recurse
    ensures Bfs(w, [root]) == Listed(w, root.children)
  {
    var q := Queued(w, root.children);
    assert q == [];
    assert [root][1..] + q == [];
    AppendEmpty(Listed(w, root.children));
  }

  // ---------------------------------------------------------------------------
  // Validate

  /** One FileSystemEnumerable: a queue of directories still to list; each
      entry of a listing that the options do not skip is queued when the
      walk descends into it, and yielded when ShouldInclude holds. */
  method Enumerate(w: Walk, root: Node) returns (found: seq<Node>)
    ensures found == Bfs(w, [root])
  {
    found := [];
    var queue := [root];
    while queue != []
      invariant found + Bfs(w, queue) == Bfs(w, [root])
      decreases SizeList(queue)
    {
      var yielded, pending := ListDirectory(w, queue[0]);
      BfsStep(w, queue);
      AppendAssoc(found, yielded, Bfs(w, queue[1..] + pending));
      found := found + yielded;
      queue := queue[1..] + pending;
    }
    AppendEmpty(found);
  }

  /** Bfs over a non-empty queue, one directory at a time. */
  lemma BfsStep(w: Walk, queue: seq<Node>)
    requires queue != []
    ensures var next := queue[1..] + Queued(w, queue[0].children);
      && Bfs(w, queue) == Listed(w, queue[0].children) + Bfs(w, next)
      && SizeList(next) < SizeList(queue)
  {
    QueueShrinks(w, queue);
  }

  lemma ListingStep(w: Walk, es: seq<Node>)
    requires es != []
    ensures Listed(w, es) == (if Yields(w, es[0]) then [es[0]] else []) + Listed(w, es[1..])
    ensures Queued(w, es) == (if Descends(w, es[0]) then [es[0]] else []) + Queued(w, es[1..])
  {
    if !Descends(w, es[0]) {
      AppendEmpty(Queued(w, es[1..]));
    }
  }

  /** The listing of one directory: the entries yielded and the directories
      queued, each in listing order. */
  method ListDirectory(w: Walk, d: Node) returns (yielded: seq<Node>, pending: seq<Node>)
    ensures yielded == Listed(w, d.children)
    ensures pending == Queued(w, d.children)
  {
    yielded := [];
    pending := [];
    var rest := d.children;
    while rest != []
      invariant Listed(w, d.children) == yielded + Listed(w, rest)
      invariant Queued(w, d.children) == pending + Queued(w, rest)
      decreases |rest|
    {
      var e := rest[0];
      var y: seq<Node> := if Yields(w, e) then [e] else [];
      var q: seq<Node> := if Descends(w, e) then [e] else [];
      ListingStep(w, rest);
      AppendAssoc(yielded, y, Listed(w, rest[1..]));
      AppendAssoc(pending, q, Queued(w, rest[1..]));
      yielded := yielded + y;
      pending := pending + q;
      rest := rest[1..];
    }
    AppendEmpty(yielded);
    AppendEmpty(pending);
  }

  function Paths(ns: seq<Node>): (r: seq<Path>)
    ensures |r| == |ns| && forall i :: 0 <= i < |r| ==> r[i] == ns[i].path
  {
    if ns == [] then [] else [ns[0].path] + Paths(ns[1..])
  }

  /** The walk over one SyncRoots argument. */
  function WalkFor(s: PruneSettings, root: Path, glob: PathGlob, isSyncRoot: Path -> bool): Walk
  {
    Walk(root, s.recurse, MatcherFor(s), glob, isSyncRoot)
  }

  /** What the arguments enumerate to: the sync roots found under each, in
      argument order, or the first argument the enumerator cannot list and
      throws on: one that names nothing, or one that names a file. */
  datatype Collection = Collected(paths: seq<Path>) | Missing(path: Path) | NotADirectory(path: Path)

  function Collect(s: PruneSettings, items: seq<Path>, fs: Path -> Option<Node>, glob: PathGlob,
                   isSyncRoot: Path -> bool): Collection
  {
    if items == [] then Collected([])
    else
      var item := items[|items| - 1];
      var prior := Collect(s, items[..|items| - 1], fs, glob, isSyncRoot);
      if !prior.Collected? then prior
      else match fs(item)
        case None => Missing(item)
        case Some(node) =>
          if !node.isDirectory then NotADirectory(item)
          else Collected(prior.paths + Paths(Bfs(WalkFor(s, item, glob, isSyncRoot), [node])))
  }

  /** How an argument the enumerator cannot list ends the collection. */
  function Unlistable(fs: Path -> Option<Node>, item: Path): Option<Collection>
  {
    match fs(item)
    case None => Some(Missing(item))
    case Some(node) => if node.isDirectory then None else Some(NotADirectory(item))
  }

  /** One more argument that names a directory: its sync roots follow
      those collected so far. */
  lemma CollectStep(s: PruneSettings, items: seq<Path>, i: nat, fs: Path -> Option<Node>, glob: PathGlob,
                    isSyncRoot: Path -> bool, ps: seq<Path>)
    requires i < |items| && fs(items[i]).Some? && fs(items[i]).value.isDirectory
    requires Collect(s, items[..i], fs, glob, isSyncRoot) == Collected(ps)
    ensures Collect(s, items[..i + 1], fs, glob, isSyncRoot)
      == Collected(ps + Paths(Bfs(WalkFor(s, items[i], glob, isSyncRoot), [fs(items[i]).value])))
  {
    PrefixStep(items, i);
  }

  /** Validate's result, or the exception the enumerator throws: for a
      missing directory, and for a path that names a file ("the directory
      name is invalid"). */
  datatype ValidateOutcome = Validated(result: Validation) | DirectoryNotFound(path: Path) | DirectoryNameInvalid(path: Path)

  class PruneCommand {
    var syncRoots: seq<Path>

    constructor ()
      ensures syncRoots == []
    {
      syncRoots := [];
    }

    /** Validate: enumerate each argument into the builder, store the
        result, and refuse an empty one. An argument that names no directory
        or names a file throws before the field is assigned. */
    method Validate(s: PruneSettings, fs: Path -> Option<Node>, glob: PathGlob, isSyncRoot: Path -> bool)
      returns (r: ValidateOutcome)
      modifies this
      ensures match Collect(s, s.syncRoots, fs, glob, isSyncRoot)
        case Missing(p) => r == DirectoryNotFound(p) && syncRoots == old(syncRoots)
        case NotADirectory(p) => r == DirectoryNameInvalid(p) && syncRoots == old(syncRoots)
        case Collected(ps) =>
          && syncRoots == ps
          && r == Validated(if ps == [] then Error(NoSyncRootsSpecified) else Success)
    {
      var builder: seq<Path> := [];
      var items := s.syncRoots;
      for i := 0 to |items|
        invariant Collect(s, items[..i], fs, glob, isSyncRoot) == Collected(builder)
        invariant syncRoots == old(syncRoots)
      {
        var item := items[i];
        match fs(item) {
          case None =>
            FailureStays(s, items, i + 1, fs, glob, isSyncRoot);
            return DirectoryNotFound(item);
          case Some(node) =>
            if !node.isDirectory {
              FailureStays(s, items, i + 1, fs, glob, isSyncRoot);
              return DirectoryNameInvalid(item);
            }
            var found := Enumerate(WalkFor(s, item, glob, isSyncRoot), node);
            CollectStep(s, items, i, fs, glob, isSyncRoot, builder);
            builder := builder + Paths(found);
        }
      }
      TakeAll(items);
      syncRoots := builder;
      r := Validated(if |builder| == 0 then Error(NoSyncRootsSpecified) else Success);
    }

    /** Execute: over the roots Validate stored, under Confirm one question
        before any root, then each root's steps with its questions numbered
        in order; the exit code is always 0. */
    method Execute(s: PruneSettings, host: Host, answers: Answers) returns (code: int, trace: seq<Event>)
      ensures code == 0
      ensures trace == ExecuteSpec(syncRoots, s.confirm, s.whatIf, host, answers)
    {
      var roots := syncRoots;
      var confirm, whatIf := s.confirm, s.whatIf;
      var head: seq<Event> := [];
      if confirm {
        if !answers(0) {
          return 0, [Asked(ContinueUnregistering, false)];
        }
        head := [Asked(ContinueUnregistering, true)];
      }
      var asked: nat := 1;
      var steps: seq<Event> := [];
      ghost var step := StepsOf(confirm, whatIf, host, answers);
      ghost var asks := AsksOf(confirm, host, answers);
      for i := 0 to |roots|
        invariant steps == InOrder(roots[..i], step, asks, 1)
        invariant asked == 1 + Questions(roots[..i], asks, 1)
      {
        var one, next := PruneOne(roots[i], confirm, whatIf, host, answers, asked);
        RootOf(roots[i], confirm, whatIf, host, answers, asked);
        InOrderStep(roots, i, step, asks, steps, asked, one, next);
        steps := steps + one;
        asked := next;
      }
      TakeAll(roots);
      return 0, head + steps;
    }
  }

  /** Once an argument names nothing or names a file, the collection ends
      there, whatever the later arguments are. */
  lemma {:induction false} FailureStays(s: PruneSettings, items: seq<Path>, k: nat, fs: Path -> Option<Node>,
                                        glob: PathGlob, isSyncRoot: Path -> bool)
    requires 0 < k <= |items| && Unlistable(fs, items[k - 1]).Some?
    requires Collect(s, items[..k - 1], fs, glob, isSyncRoot).Collected?
    ensures Collect(s, items, fs, glob, isSyncRoot) == Unlistable(fs, items[k - 1]).value
    decreases |items|
  {
    if k < |items| {
      var front := items[..|items| - 1];
      assert front[..k - 1] == items[..k - 1] && front[k - 1] == items[k - 1];
      FailureStays(s, front, k, fs, glob, isSyncRoot);
    } else {
      assert items[..|items| - 1] == items[..k - 1];
    }
  }

  /** The collection succeeds only when every argument names a directory. */
  lemma {:induction false} CollectedOnlyDirectories(s: PruneSettings, items: seq<Path>, fs: Path -> Option<Node>,
                                                    glob: PathGlob, isSyncRoot: Path -> bool, i: nat)
    requires i < |items| && Collect(s, items, fs, glob, isSyncRoot).Collected?
    ensures fs(items[i]).Some? && fs(items[i]).value.isDirectory
    decreases |items|
  {
    var front := items[..|items| - 1];
    if i < |front| {
      CollectedOnlyDirectories(s, front, fs, glob, isSyncRoot, i);
    }
  }

  /** `prune f.txt d`: a file argument ends Validate's collection with the
      enumerator's exception, so the sync roots under d are never pruned. */
  lemma FileArgumentThrows(s: PruneSettings, file: Path, dir: Path, fs: Path -> Option<Node>,
                           glob: PathGlob, isSyncRoot: Path -> bool)
    requires fs(file).Some? && !fs(file).value.isDirectory
    ensures Collect(s, [file, dir], fs, glob, isSyncRoot) == NotADirectory(file)
  {
    assert [file, dir][..0] == [];
    FailureStays(s, [file, dir], 1, fs, glob, isSyncRoot);
  }

  /** Every collected path is that of a directory that is a sync root. */
  lemma {:induction false} CollectedAreSyncRoots(s: PruneSettings, items: seq<Path>, fs: Path -> Option<Node>,
                                                 glob: PathGlob, isSyncRoot: Path -> bool)
    ensures var c := Collect(s, items, fs, glob, isSyncRoot);
      c.Collected? ==> forall i :: 0 <= i < |c.paths| ==> isSyncRoot(c.paths[i])
    decreases |items|
  {
    if items != [] {
      var item := items[|items| - 1];
      CollectedAreSyncRoots(s, items[..|items| - 1], fs, glob, isSyncRoot);
      var c := Collect(s, items[..|items| - 1], fs, glob, isSyncRoot);
      if c.Collected? && fs(item).Some? && fs(item).value.isDirectory {
        var w := WalkFor(s, item, glob, isSyncRoot);
        var found := Bfs(w, [fs(item).value]);
        BfsYields(w, [fs(item).value]);
        var all := c.paths + Paths(found);
        forall i | 0 <= i < |all| ensures isSyncRoot(all[i]) {
          if i >= |c.paths| {
            assert all[i] == found[i - |c.paths|].path;
          }
        }
      }
    }
  }

  // ---------------------------------------------------------------------------
  // Execute

  /** A question guarding one call that changes the system: under Confirm
      the question is asked and a no skips the call; under WhatIf the call
      is never made. */
  function Gate(prompt: Prompt, call: Event, confirm: bool, whatIf: bool, yes: bool): seq<Event>
  {
    (if confirm then [Asked(prompt, yes)] else [])
    + (if (!confirm || yes) && !whatIf then [call] else [])
  }

  /** The steps after the disconnect: the shell unregistration, for a
      folder the shell has registered, then the filesystem unregistration;
      a no to the shell question skips both. A shell lookup that throws is
      ignored. Under Confirm the first of these questions is number n. */
  function AfterDisconnect(path: Path, confirm: bool, whatIf: bool, host: Host, answers: Answers, n: nat): seq<Event>
  {
    var next := if confirm then n + 1 else n;
    match host.shell(path)
    case Registered(id) =>
      Gate(RemoveShellNamespace, ShellUnregistered(id), confirm, whatIf, answers(n))
      + (if confirm && !answers(n) then []
         else Gate(UnregisterFromFilesystem, FsUnregistered(path), confirm, whatIf, answers(next)))
    case _ => Gate(UnregisterFromFilesystem, FsUnregistered(path), confirm, whatIf, answers(n))
  }

  /** The calls for one root whose first question, under Confirm, is
      number n: a missing root and a failed connect are skipped; otherwise
      the placeholder update is made between connect and disconnect, and a
      no to its question ends the root right after the disconnect. */
  function RootSteps(path: Path, confirm: bool, whatIf: bool, host: Host, answers: Answers, n: nat): seq<Event>
  {
    if !host.present(path) then [SkippedMissing(path)]
    else if !host.connects(path) then [ConnectFailed(path)]
    else
      [Connected(path)] + Gate(ChangeFlags, PlaceholderUpdated(path), confirm, whatIf, answers(n)) + [Disconnected(path)]
      + (if confirm && !answers(n) then []
         else AfterDisconnect(path, confirm, whatIf, host, answers, if confirm then n + 1 else n))
  }

  /** How many questions one root asks. */
  function RootAsks(path: Path, confirm: bool, host: Host, answers: Answers, n: nat): nat
  {
    if !confirm || !host.present(path) || !host.connects(path) then 0
    else if !answers(n) then 1
    else if host.shell(path).Registered? then (if answers(n + 1) then 3 else 2)
    else 2
  }

  /** What one root does and how many questions it asks, given the number
      of its first question. */
  type RootStep = (Path, nat) -> seq<Event>
  type RootCount = (Path, nat) -> nat

  /** How many questions the roots ask, from question number n on. */
  function Questions(roots: seq<Path>, asks: RootCount, n: nat): nat
  {
    if roots == [] then 0
    else
      var k := Questions(roots[..|roots| - 1], asks, n);
      k + asks(roots[|roots| - 1], n + k)
  }

  /** The roots' steps in order, each root's questions numbered after the
      ones before it. */
  function InOrder(roots: seq<Path>, step: RootStep, asks: RootCount, n: nat): seq<Event>
  {
    if roots == [] then []
    else
      var front := roots[..|roots| - 1];
      InOrder(front, step, asks, n) + step(roots[|roots| - 1], n + Questions(front, asks, n))
  }

  function StepsOf(confirm: bool, whatIf: bool, host: Host, answers: Answers): RootStep
  {
    (path: Path, n: nat) => RootSteps(path, confirm, whatIf, host, answers, n)
  }

  function AsksOf(confirm: bool, host: Host, answers: Answers): RootCount
  {
    (path: Path, n: nat) => RootAsks(path, confirm, host, answers, n)
  }


  /** Execute: under Confirm one question first, whose no ends the command
      before any root. */
  function ExecuteSpec(roots: seq<Path>, confirm: bool, whatIf: bool, host: Host, answers: Answers): seq<Event>
  {
    if confirm && !answers(0) then [Asked(ContinueUnregistering, false)]
    else (if confirm then [Asked(ContinueUnregistering, true)] else [])
         + InOrder(roots, StepsOf(confirm, whatIf, host, answers), AsksOf(confirm, host, answers), 1)
  }

  /** Ask question number `asked` when Confirm is on, then make the call
      unless told no or WhatIf is on. */
  method AskThenCall(prompt: Prompt, call: Event, confirm: bool, whatIf: bool, answers: Answers, asked: nat)
    returns (events: seq<Event>, go: bool, next: nat)
    ensures events == Gate(prompt, call, confirm, whatIf, answers(asked))
    ensures go == (!confirm || answers(asked))
    ensures next == if confirm then asked + 1 else asked
  {
    events := [];
    go := true;
    next := asked;
    if confirm {
      go := answers(asked);
      next := asked + 1;
      events := [Asked(prompt, go)];
    }
    if go && !whatIf {
      events := events + [call];
    } else {
      AppendEmpty(events);
    }
  }

  /** The body of Execute's loop for one root; the disconnect is issued
      whatever the flag question gets, as the finally block does. */
  method PruneOne(path: Path, confirm: bool, whatIf: bool, host: Host, answers: Answers, asked: nat)
    returns (step: seq<Event>, next: nat)
    ensures step == RootSteps(path, confirm, whatIf, host, answers, asked)
    ensures next == asked + RootAsks(path, confirm, host, answers, asked)
  {
    if !host.present(path) {
      return [SkippedMissing(path)], asked;
    }
    if !host.connects(path) {
      return [ConnectFailed(path)], asked;
    }
    var flags, go, n1 := AskThenCall(ChangeFlags, PlaceholderUpdated(path), confirm, whatIf, answers, asked);
    var head := [Connected(path)] + flags + [Disconnected(path)];
    if !go {
      AppendEmpty(head);
      return head, n1;
    }
    var after: seq<Event>;
    match host.shell(path) {
      case Registered(id) =>
        var shell, goShell, n2 := AskThenCall(RemoveShellNamespace, ShellUnregistered(id), confirm, whatIf, answers, n1);
        if !goShell {
          AppendEmpty(shell);
          after := shell;
          next := n2;
        } else {
          var fs, _, n3 := AskThenCall(UnregisterFromFilesystem, FsUnregistered(path), confirm, whatIf, answers, n2);
          after := shell + fs;
          next := n3;
        }
      case _ =>
        var fs, _, n3 := AskThenCall(UnregisterFromFilesystem, FsUnregistered(path), confirm, whatIf, answers, n1);
        after := fs;
        next := n3;
    }
    step := head + after;
  }

  /** InOrder and Questions over one more root. */
  lemma InOrderSnoc(roots: seq<Path>, i: nat, step: RootStep, asks: RootCount, n: nat)
    requires i < |roots|
    ensures var k := Questions(roots[..i], asks, n);
      && Questions(roots[..i + 1], asks, n) == k + asks(roots[i], n + k)
      && InOrder(roots[..i + 1], step, asks, n) == InOrder(roots[..i], step, asks, n) + step(roots[i], n + k)
  {
    PrefixStep(roots, i);
  }

  /** StepsOf and AsksOf applied to one root. */
  lemma RootOf(path: Path, confirm: bool, whatIf: bool, host: Host, answers: Answers, n: nat)
    ensures StepsOf(confirm, whatIf, host, answers)(path, n) == RootSteps(path, confirm, whatIf, host, answers, n)
    ensures AsksOf(confirm, host, answers)(path, n) == RootAsks(path, confirm, host, answers, n)
  {
  }

  /** One more root done by Execute's loop. */
  lemma InOrderStep(roots: seq<Path>, i: nat, step: RootStep, asks: RootCount,
                    steps: seq<Event>, asked: nat, one: seq<Event>, next: nat)
    requires i < |roots|
    requires steps == InOrder(roots[..i], step, asks, 1) && asked == 1 + Questions(roots[..i], asks, 1)
    requires one == step(roots[i], asked) && next == asked + asks(roots[i], asked)
    ensures steps + one == InOrder(roots[..i + 1], step, asks, 1)
    ensures next == 1 + Questions(roots[..i + 1], asks, 1)
  {
    InOrderSnoc(roots, i, step, asks, 1);
  }

  // ---------------------------------------------------------------------------
  // Properties of any root-by-root sequence, given per-root facts

  lemma {:induction false} InOrderPaired(roots: seq<Path>, step: RootStep, asks: RootCount, n: nat)
    requires forall p, m :: Paired(step(p, m))
    ensures Paired(InOrder(roots, step, asks, n))
    decreases |roots|
  {
    if roots == [] {
      NoConnectionPaired([]);
    } else {
      var front := roots[..|roots| - 1];
      assert InOrder(roots, step, asks, n)
          == InOrder(front, step, asks, n) + step(roots[|roots| - 1], n + Questions(front, asks, n));
      InOrderPaired(front, step, asks, n);
      PairedConcat(InOrder(front, step, asks, n), step(roots[|roots| - 1], n + Questions(front, asks, n)));
    }
  }

  lemma {:induction false} InOrderNoMutation(roots: seq<Path>, step: RootStep, asks: RootCount, n: nat)
    requires forall p, m :: NoMutation(step(p, m))
    ensures NoMutation(InOrder(roots, step, asks, n))
    decreases |roots|
  {
    if roots != [] {
      var front := roots[..|roots| - 1];
      assert InOrder(roots, step, asks, n)
          == InOrder(front, step, asks, n) + step(roots[|roots| - 1], n + Questions(front, asks, n));
      InOrderNoMutation(front, step, asks, n);
      NoMutationAppend(InOrder(front, step, asks, n), step(roots[|roots| - 1], n + Questions(front, asks, n)));
    }
  }

  lemma {:induction false} InOrderGuarded(roots: seq<Path>, step: RootStep, asks: RootCount, n: nat)
    requires forall p, m :: Guarded(step(p, m))
    ensures Guarded(InOrder(roots, step, asks, n))
    decreases |roots|
  {
    if roots != [] {
      var front := roots[..|roots| - 1];
      assert InOrder(roots, step, asks, n)
          == InOrder(front, step, asks, n) + step(roots[|roots| - 1], n + Questions(front, asks, n));
      InOrderGuarded(front, step, asks, n);
      GuardedConcat(InOrder(front, step, asks, n), step(roots[|roots| - 1], n + Questions(front, asks, n)));
    }
  }

  /** When every root consumes as many answers as it counts, in order, so
      do the roots together. */
  lemma {:induction false} InOrderReplies(roots: seq<Path>, step: RootStep, asks: RootCount, answers: Answers, n: nat)
    requires forall p, m :: |Pick(step(p, m), ReplyOf)| == asks(p, m) && Consumes(Pick(step(p, m), ReplyOf), answers, m)
    ensures |Pick(InOrder(roots, step, asks, n), ReplyOf)| == Questions(roots, asks, n)
    ensures Consumes(Pick(InOrder(roots, step, asks, n), ReplyOf), answers, n)
    decreases |roots|
  {
    if roots != [] {
      var front := roots[..|roots| - 1];
      var k := Questions(front, asks, n);
      var a := InOrder(front, step, asks, n);
      var b := step(roots[|roots| - 1], n + k);
      assert InOrder(roots, step, asks, n) == a + b;
      assert Questions(roots, asks, n) == k + asks(roots[|roots| - 1], n + k);
      InOrderReplies(front, step, asks, answers, n);
      PickConcat(a, b, ReplyOf);
      ConsumesConcat(Pick(a, ReplyOf), Pick(b, ReplyOf), answers, n);
    }
  }

  lemma {:induction false} QuestionsNone(roots: seq<Path>, asks: RootCount, n: nat)
    requires forall p, m :: asks(p, m) == 0
    ensures Questions(roots, asks, n) == 0
    decreases |roots|
  {
    if roots != [] {
      QuestionsNone(roots[..|roots| - 1], asks, n);
    }
  }

  /** A step that does for each root what the legacy command does gives the
      legacy command's calls. */
  lemma {:induction false} InOrderAsLegacy(roots: seq<Path>, step: RootStep, asks: RootCount, host: Host, n: nat)
    requires forall p, m :: step(p, m) == LegacyPrune.PruneRoot(p, host)
    ensures InOrder(roots, step, asks, n) == LegacyPrune.PruneAll(roots, host)
    decreases |roots|
  {
    if roots != [] {
      var front := roots[..|roots| - 1];
      assert InOrder(roots, step, asks, n)
          == InOrder(front, step, asks, n) + step(roots[|roots| - 1], n + Questions(front, asks, n));
      assert LegacyPrune.PruneAll(roots, host)
          == LegacyPrune.PruneAll(front, host) + LegacyPrune.PruneRoot(roots[|roots| - 1], host);
      InOrderAsLegacy(front, step, asks, host, n);
    }
  }

  // ---------------------------------------------------------------------------
  // Properties of Execute

  /** A gate holds at most its question and its call, and makes the call
      exactly when it is not told no and WhatIf is off. */
  lemma GateEvents(prompt: Prompt, call: Event, confirm: bool, whatIf: bool, yes: bool)
    requires !call.Asked?
    ensures var g := Gate(prompt, call, confirm, whatIf, yes);
      && (forall i :: 0 <= i < |g| ==> g[i] == Asked(prompt, yes) || g[i] == call)
      && (call in g <==> (!confirm || yes) && !whatIf)
  {
  }

  /** A gate shows the answer to its question, when it asks one. */
  lemma GateReplies(prompt: Prompt, call: Event, confirm: bool, whatIf: bool, yes: bool)
    requires !call.Asked?
    ensures Pick(Gate(prompt, call, confirm, whatIf, yes), ReplyOf) == if confirm then [yes] else []
  {
    var q: seq<Event> := if confirm then [Asked(prompt, yes)] else [];
    var c: seq<Event> := if (!confirm || yes) && !whatIf then [call] else [];
    assert Gate(prompt, call, confirm, whatIf, yes) == q + c;
    PickConcat(q, c, ReplyOf);
    if c != [] { PickOne(call, ReplyOf); }
    if confirm { PickOne(Asked(prompt, yes), ReplyOf); }
    AppendEmpty(Pick(q, ReplyOf));
  }

  /** A gate asking question number m consumes answer m. */
  lemma GateConsumes(prompt: Prompt, call: Event, confirm: bool, whatIf: bool, answers: Answers, m: nat)
    requires !call.Asked?
    ensures var r := Pick(Gate(prompt, call, confirm, whatIf, answers(m)), ReplyOf);
      |r| == (if confirm then 1 else 0) && Consumes(r, answers, m)
  {
    GateReplies(prompt, call, confirm, whatIf, answers(m));
    ConsumesNext(answers, m);
  }

  /** Under Confirm a gate's call comes right after a yes. */
  lemma GateGuarded(prompt: Prompt, call: Event, whatIf: bool, yes: bool)
    requires !call.Asked?
    ensures Guarded(Gate(prompt, call, true, whatIf, yes))
  {
  }

  /** A gate whose call is not part of a connection holds no connection
      event. */
  lemma GateNoConnection(prompt: Prompt, call: Event, confirm: bool, whatIf: bool, yes: bool)
    requires !call.Asked? && !call.Connected? && !call.Disconnected? && !call.PlaceholderUpdated?
    ensures NoConnection(Gate(prompt, call, confirm, whatIf, yes))
  {
    GateEvents(prompt, call, confirm, whatIf, yes);
  }

  lemma AfterDisconnectNoConnection(path: Path, confirm: bool, whatIf: bool, host: Host, answers: Answers, n: nat)
    ensures NoConnection(AfterDisconnect(path, confirm, whatIf, host, answers, n))
  {
    var next := if confirm then n + 1 else n;
    match host.shell(path)
    case Registered(id) =>
      var sh := Gate(RemoveShellNamespace, ShellUnregistered(id), confirm, whatIf, answers(n));
      var fs := Gate(UnregisterFromFilesystem, FsUnregistered(path), confirm, whatIf, answers(next));
      GateNoConnection(RemoveShellNamespace, ShellUnregistered(id), confirm, whatIf, answers(n));
      GateNoConnection(UnregisterFromFilesystem, FsUnregistered(path), confirm, whatIf, answers(next));
      var tail: seq<Event> := if confirm && !answers(n) then [] else fs;
      NoConnectionAppend(sh, tail);
    case _ =>
      GateNoConnection(UnregisterFromFilesystem, FsUnregistered(path), confirm, whatIf, answers(n));
  }

  /** Each root's calls keep the connection discipline: the placeholder
      update happens only while the root is connected, and a connect is
      always closed by a disconnect of the same root. */
  lemma RootStepsPaired(path: Path, confirm: bool, whatIf: bool, host: Host, answers: Answers, n: nat)
    ensures Paired(RootSteps(path, confirm, whatIf, host, answers, n))
  {
    if !host.present(path) || !host.connects(path) {
      var t := RootSteps(path, confirm, whatIf, host, answers, n);
      assert |t| == 1 && !t[0].Connected? && !t[0].Disconnected? && !t[0].PlaceholderUpdated?;
      NoConnectionPaired(t);
    } else {
      var mid := Gate(ChangeFlags, PlaceholderUpdated(path), confirm, whatIf, answers(n));
      GateEvents(ChangeFlags, PlaceholderUpdated(path), confirm, whatIf, answers(n));
      var after := if confirm && !answers(n) then []
                   else AfterDisconnect(path, confirm, whatIf, host, answers, if confirm then n + 1 else n);
      AfterDisconnectNoConnection(path, confirm, whatIf, host, answers, if confirm then n + 1 else n);
      NoConnectionPaired(after);
      ConnectedBlockPaired(path, mid, after);
    }
  }

  /** Execute never leaves a root connected and never updates a placeholder
      outside a connection, whatever the answers. */
  lemma ExecutePaired(roots: seq<Path>, confirm: bool, whatIf: bool, host: Host, answers: Answers)
    ensures Paired(ExecuteSpec(roots, confirm, whatIf, host, answers))
  {
    var q := [Asked(ContinueUnregistering, answers(0))];
    assert NoConnection(q);
    NoConnectionPaired(q);
    NoConnectionPaired([]);
    var step := StepsOf(confirm, whatIf, host, answers);
    forall p, m ensures Paired(step(p, m)) {
      RootStepsPaired(p, confirm, whatIf, host, answers, m);
    }
    InOrderPaired(roots, step, AsksOf(confirm, host, answers), 1);
    if !confirm {
      AppendEmpty(InOrder(roots, StepsOf(confirm, whatIf, host, answers), AsksOf(confirm, host, answers), 1));
    } else if answers(0) {
      PairedConcat(q, InOrder(roots, StepsOf(confirm, whatIf, host, answers), AsksOf(confirm, host, answers), 1));
    }
  }

  /** The answers of a connected root's block are those of its two parts. */
  lemma BlockReplies(path: Path, mid: seq<Event>, after: seq<Event>)
    ensures Pick([Connected(path)] + mid + [Disconnected(path)] + after, ReplyOf)
         == Pick(mid, ReplyOf) + Pick(after, ReplyOf)
  {
    var c: seq<Event> := [Connected(path)];
    var d: seq<Event> := [Disconnected(path)];
    PickConcat(c + mid + d, after, ReplyOf);
    PickConcat(c + mid, d, ReplyOf);
    PickConcat(c, mid, ReplyOf);
    PickOne(Connected(path), ReplyOf);
    PickOne(Disconnected(path), ReplyOf);
    AppendEmpty(Pick(mid, ReplyOf));
  }

  /** The shell question and, unless it is declined, the filesystem
      question, for a folder the shell has registered. */
  lemma RegisteredReplies(path: Path, id: SyncRootId, confirm: bool, whatIf: bool, answers: Answers, m: nat)
    ensures var next := if confirm then m + 1 else m;
      var sh := Gate(RemoveShellNamespace, ShellUnregistered(id), confirm, whatIf, answers(m));
      var tail: seq<Event> := if confirm && !answers(m) then []
                              else Gate(UnregisterFromFilesystem, FsUnregistered(path), confirm, whatIf, answers(next));
      var r := Pick(sh + tail, ReplyOf);
      && |r| == (if !confirm then 0 else if answers(m) then 2 else 1)
      && Consumes(r, answers, m)
  {
    var next := if confirm then m + 1 else m;
    var sh := Gate(RemoveShellNamespace, ShellUnregistered(id), confirm, whatIf, answers(m));
    var fs := Gate(UnregisterFromFilesystem, FsUnregistered(path), confirm, whatIf, answers(next));
    var tail: seq<Event> := if confirm && !answers(m) then [] else fs;
    GateConsumes(RemoveShellNamespace, ShellUnregistered(id), confirm, whatIf, answers, m);
    var a := Pick(sh, ReplyOf);
    assert |a| == (if confirm then 1 else 0);
    if confirm && !answers(m) {
      ConsumesNext(answers, next);
    } else {
      GateConsumes(UnregisterFromFilesystem, FsUnregistered(path), confirm, whatIf, answers, next);
    }
    var b := Pick(tail, ReplyOf);
    assert |b| == (if confirm && !answers(m) then 0 else if confirm then 1 else 0);
    assert Consumes(b, answers, m + |a|);
    PickConcat(sh, tail, ReplyOf);
    ConsumesConcat(a, b, answers, m);
  }

  /** After the disconnect, the shell question (for a registered folder)
      and the filesystem question take the next answers, and a no to the
      first leaves the second unasked. */
  lemma AfterDisconnectReplies(path: Path, confirm: bool, whatIf: bool, host: Host, answers: Answers, m: nat)
    ensures var r := Pick(AfterDisconnect(path, confirm, whatIf, host, answers, m), ReplyOf);
      && |r| == (if !confirm then 0 else if host.shell(path).Registered? && answers(m) then 2 else 1)
      && Consumes(r, answers, m)
  {
    match host.shell(path)
    case Registered(id) =>
      RegisteredReplies(path, id, confirm, whatIf, answers, m);
    case _ =>
      GateConsumes(UnregisterFromFilesystem, FsUnregistered(path), confirm, whatIf, answers, m);
  }

  /** A root consumes RootAsks answers, in order from question number n. */
  lemma RootStepsReplies(path: Path, confirm: bool, whatIf: bool, host: Host, answers: Answers, n: nat)
    ensures var r := Pick(RootSteps(path, confirm, whatIf, host, answers, n), ReplyOf);
      |r| == RootAsks(path, confirm, host, answers, n) && Consumes(r, answers, n)
  {
    if !host.present(path) {
      PickOne(SkippedMissing(path), ReplyOf);
      ConsumesNext(answers, n);
    } else if !host.connects(path) {
      PickOne(ConnectFailed(path), ReplyOf);
      ConsumesNext(answers, n);
    } else {
      var m := if confirm then n + 1 else n;
      var mid := Gate(ChangeFlags, PlaceholderUpdated(path), confirm, whatIf, answers(n));
      var after := if confirm && !answers(n) then []
                   else AfterDisconnect(path, confirm, whatIf, host, answers, m);
      BlockSplit(path, confirm, whatIf, host, answers, n);
      GateConsumes(ChangeFlags, PlaceholderUpdated(path), confirm, whatIf, answers, n);
      if confirm && !answers(n) {
        ConsumesNext(answers, m);
      } else {
        AfterDisconnectReplies(path, confirm, whatIf, host, answers, m);
      }
      BlockReplies(path, mid, after);
      ConsumesConcat(Pick(mid, ReplyOf), Pick(after, ReplyOf), answers, n);
    }
  }

  /** The answers Execute acts on are the console's answers in the order the
      questions are asked, with none skipped; without Confirm it asks
      nothing. */
  lemma ExecuteConsumesAnswers(roots: seq<Path>, confirm: bool, whatIf: bool, host: Host, answers: Answers)
    ensures Consumes(Pick(ExecuteSpec(roots, confirm, whatIf, host, answers), ReplyOf), answers, 0)
    ensures !confirm ==> NoPrompt(ExecuteSpec(roots, confirm, whatIf, host, answers))
  {
    if !confirm {
      WithoutConfirmNoPrompt(roots, whatIf, host, answers);
      ConsumesNext(answers, 0);
    } else if answers(0) {
      ConfirmedConsumes(roots, whatIf, host, answers);
    } else {
      PickOne(Asked(ContinueUnregistering, false), ReplyOf);
      ConsumesNext(answers, 0);
    }
  }

  lemma WithoutConfirmNoPrompt(roots: seq<Path>, whatIf: bool, host: Host, answers: Answers)
    ensures Pick(ExecuteSpec(roots, false, whatIf, host, answers), ReplyOf) == []
    ensures NoPrompt(ExecuteSpec(roots, false, whatIf, host, answers))
  {
    var steps := InOrder(roots, StepsOf(false, whatIf, host, answers), AsksOf(false, host, answers), 1);
    assert ExecuteSpec(roots, false, whatIf, host, answers) == [] + steps;
    AppendEmpty(steps);
    StepsReplies(false, whatIf, host, answers);
    InOrderReplies(roots, StepsOf(false, whatIf, host, answers), AsksOf(false, host, answers), answers, 1);
    QuestionsNone(roots, AsksOf(false, host, answers), 1);
    NoRepliesNoPrompt(steps);
  }

  lemma ConfirmedConsumes(roots: seq<Path>, whatIf: bool, host: Host, answers: Answers)
    requires answers(0)
    ensures Consumes(Pick(ExecuteSpec(roots, true, whatIf, host, answers), ReplyOf), answers, 0)
  {
    var steps := InOrder(roots, StepsOf(true, whatIf, host, answers), AsksOf(true, host, answers), 1);
    assert ExecuteSpec(roots, true, whatIf, host, answers) == [Asked(ContinueUnregistering, answers(0))] + steps;
    StepsConsume(roots, true, whatIf, host, answers, 1);
    ConsumesAfterAsked(ContinueUnregistering, answers, 0, steps);
  }

  /** The roots consume the answers from question number n on. */
  lemma StepsConsume(roots: seq<Path>, confirm: bool, whatIf: bool, host: Host, answers: Answers, n: nat)
    ensures Consumes(Pick(InOrder(roots, StepsOf(confirm, whatIf, host, answers), AsksOf(confirm, host, answers), n), ReplyOf), answers, n)
  {
    StepsReplies(confirm, whatIf, host, answers);
    InOrderReplies(roots, StepsOf(confirm, whatIf, host, answers), AsksOf(confirm, host, answers), answers, n);
  }

  /** Every root's answers, as the premise of InOrderReplies. */
  lemma StepsReplies(confirm: bool, whatIf: bool, host: Host, answers: Answers)
    ensures var step := StepsOf(confirm, whatIf, host, answers);
      var asks := AsksOf(confirm, host, answers);
      forall p, m :: |Pick(step(p, m), ReplyOf)| == asks(p, m) && Consumes(Pick(step(p, m), ReplyOf), answers, m)
  {
    forall p, m
      ensures |Pick(RootSteps(p, confirm, whatIf, host, answers, m), ReplyOf)| == RootAsks(p, confirm, host, answers, m)
      ensures Consumes(Pick(RootSteps(p, confirm, whatIf, host, answers, m), ReplyOf), answers, m)
    {
      RootStepsReplies(p, confirm, whatIf, host, answers, m);
    }
  }

  /** The three parts of a connected root's block, under one property. */
  lemma BlockSplit(path: Path, confirm: bool, whatIf: bool, host: Host, answers: Answers, n: nat)
    requires host.present(path) && host.connects(path)
    ensures RootSteps(path, confirm, whatIf, host, answers, n)
         == [Connected(path)] + Gate(ChangeFlags, PlaceholderUpdated(path), confirm, whatIf, answers(n))
            + [Disconnected(path)]
            + (if confirm && !answers(n) then []
               else AfterDisconnect(path, confirm, whatIf, host, answers, if confirm then n + 1 else n))
  {
  }

  lemma AfterDisconnectWhatIf(path: Path, confirm: bool, host: Host, answers: Answers, m: nat)
    ensures NoMutation(AfterDisconnect(path, confirm, true, host, answers, m))
  {
    var next := if confirm then m + 1 else m;
    match host.shell(path)
    case Registered(id) =>
      var sh := Gate(RemoveShellNamespace, ShellUnregistered(id), confirm, true, answers(m));
      var fs := Gate(UnregisterFromFilesystem, FsUnregistered(path), confirm, true, answers(next));
      var tail: seq<Event> := if confirm && !answers(m) then [] else fs;
      assert AfterDisconnect(path, confirm, true, host, answers, m) == sh + tail;
      NoMutationAppend(sh, tail);
    case _ =>
  }

  lemma RootStepsWhatIf(path: Path, confirm: bool, host: Host, answers: Answers, n: nat)
    ensures NoMutation(RootSteps(path, confirm, true, host, answers, n))
  {
    if host.present(path) && host.connects(path) {
      var mid := Gate(ChangeFlags, PlaceholderUpdated(path), confirm, true, answers(n));
      var after := if confirm && !answers(n) then []
                   else AfterDisconnect(path, confirm, true, host, answers, if confirm then n + 1 else n);
      BlockSplit(path, confirm, true, host, answers, n);
      AfterDisconnectWhatIf(path, confirm, host, answers, if confirm then n + 1 else n);
      NoMutationAppend([Connected(path)], mid);
      NoMutationAppend([Connected(path)] + mid, [Disconnected(path)]);
      NoMutationAppend([Connected(path)] + mid + [Disconnected(path)], after);
    }
  }


  /** Under WhatIf no placeholder is updated and nothing is unregistered,
      whatever the answers. */
  lemma ExecuteWhatIfNoMutation(roots: seq<Path>, confirm: bool, host: Host, answers: Answers)
    ensures NoMutation(ExecuteSpec(roots, confirm, true, host, answers))
  {
    var q: seq<Event> := if confirm then [Asked(ContinueUnregistering, true)] else [];
    var step := StepsOf(confirm, true, host, answers);
    forall p, m ensures NoMutation(step(p, m)) {
      RootStepsWhatIf(p, confirm, host, answers, m);
    }
    InOrderNoMutation(roots, step, AsksOf(confirm, host, answers), 1);
    NoMutationAppend(q, InOrder(roots, StepsOf(confirm, true, host, answers), AsksOf(confirm, host, answers), 1));
  }

  lemma AfterDisconnectGuarded(path: Path, whatIf: bool, host: Host, answers: Answers, m: nat)
    ensures Guarded(AfterDisconnect(path, true, whatIf, host, answers, m))
  {
    match host.shell(path)
    case Registered(id) =>
      var sh := Gate(RemoveShellNamespace, ShellUnregistered(id), true, whatIf, answers(m));
      var fs := Gate(UnregisterFromFilesystem, FsUnregistered(path), true, whatIf, answers(m + 1));
      var tail: seq<Event> := if !answers(m) then [] else fs;
      assert AfterDisconnect(path, true, whatIf, host, answers, m) == sh + tail;
      GateGuarded(RemoveShellNamespace, ShellUnregistered(id), whatIf, answers(m));
      GateGuarded(UnregisterFromFilesystem, FsUnregistered(path), whatIf, answers(m + 1));
      GuardedConcat(sh, tail);
    case _ =>
      GateGuarded(UnregisterFromFilesystem, FsUnregistered(path), whatIf, answers(m));
  }

  lemma RootStepsGuarded(path: Path, whatIf: bool, host: Host, answers: Answers, n: nat)
    ensures Guarded(RootSteps(path, true, whatIf, host, answers, n))
  {
    if host.present(path) && host.connects(path) {
      var mid := Gate(ChangeFlags, PlaceholderUpdated(path), true, whatIf, answers(n));
      var after := if !answers(n) then [] else AfterDisconnect(path, true, whatIf, host, answers, n + 1);
      BlockSplit(path, true, whatIf, host, answers, n);
      GateGuarded(ChangeFlags, PlaceholderUpdated(path), whatIf, answers(n));
      AfterDisconnectGuarded(path, whatIf, host, answers, n + 1);
      GuardedConcat([Connected(path)], mid);
      GuardedConcat([Connected(path)] + mid, [Disconnected(path)]);
      GuardedConcat([Connected(path)] + mid + [Disconnected(path)], after);
    }
  }


  /** Under Confirm every placeholder update and every unregistration comes
      right after a question answered yes. */
  lemma ExecuteConfirmGuarded(roots: seq<Path>, whatIf: bool, host: Host, answers: Answers)
    ensures Guarded(ExecuteSpec(roots, true, whatIf, host, answers))
  {
    var step := StepsOf(true, whatIf, host, answers);
    forall p, m ensures Guarded(step(p, m)) {
      RootStepsGuarded(p, whatIf, host, answers, m);
    }
    InOrderGuarded(roots, step, AsksOf(true, host, answers), 1);
    if answers(0) {
      GuardedConcat([Asked(ContinueUnregistering, true)], InOrder(roots, StepsOf(true, whatIf, host, answers), AsksOf(true, host, answers), 1));
    }
  }

  lemma RootStepsAsLegacy(path: Path, host: Host, answers: Answers, n: nat)
    ensures RootSteps(path, false, false, host, answers, n) == LegacyPrune.PruneRoot(path, host)
  {
    if host.present(path) && host.connects(path) {
      BlockSplit(path, false, false, host, answers, n);
      assert Gate(ChangeFlags, PlaceholderUpdated(path), false, false, answers(n)) == [PlaceholderUpdated(path)];
      assert AfterDisconnect(path, false, false, host, answers, n)
          == LegacyPrune.ShellStep(host.shell(path)) + [FsUnregistered(path)];
      AppendAssoc([Connected(path), PlaceholderUpdated(path), Disconnected(path)],
                  LegacyPrune.ShellStep(host.shell(path)), [FsUnregistered(path)]);
    }
  }


  /** With neither Confirm nor WhatIf the newer Execute makes the same calls
      as the legacy one, root by root. */
  lemma ExecuteAsLegacy(roots: seq<Path>, host: Host, answers: Answers)
    ensures ExecuteSpec(roots, false, false, host, answers) == LegacyPrune.PruneAll(roots, host)
  {
    var step := StepsOf(false, false, host, answers);
    forall p, m ensures step(p, m) == LegacyPrune.PruneRoot(p, host) {
      RootStepsAsLegacy(p, host, answers, m);
    }
    InOrderAsLegacy(roots, step, AsksOf(false, host, answers), host, 1);
    AppendEmpty(InOrder(roots, StepsOf(false, false, host, answers), AsksOf(false, host, answers), 1));
  }

  /** A no to the first question ends Execute before any root is touched. */
  lemma PruneDeclinedAtStart(roots: seq<Path>, whatIf: bool, host: Host, answers: Answers)
    requires !answers(0)
    ensures var t := ExecuteSpec(roots, true, whatIf, host, answers);
      NoMutation(t) && NoConnection(t) && Pick(t, ReplyOf) == [false]
  {
    var t := ExecuteSpec(roots, true, whatIf, host, answers);
    assert t == [Asked(ContinueUnregistering, false)];
    PickOne(Asked(ContinueUnregistering, false), ReplyOf);
  }

  /** A no to the flags question: the root is still disconnected, and
      nothing else happens to it. */
  lemma FlagsDeclinedEndsRoot(path: Path, whatIf: bool, host: Host, answers: Answers, n: nat)
    requires host.present(path) && host.connects(path) && !answers(n)
    ensures RootSteps(path, true, whatIf, host, answers, n)
         == [Connected(path), Asked(ChangeFlags, false), Disconnected(path)]
    ensures RootAsks(path, true, host, answers, n) == 1
  {
    var g := Gate(ChangeFlags, PlaceholderUpdated(path), true, whatIf, answers(n));
    assert g == [Asked(ChangeFlags, false)];
    assert RootSteps(path, true, whatIf, host, answers, n) == [Connected(path)] + g + [Disconnected(path)] + [];
  }

  /** A no to the shell question skips the filesystem unregistration too. */
  lemma ShellDeclinedSkipsFilesystem(path: Path, whatIf: bool, host: Host, answers: Answers, m: nat)
    requires host.shell(path).Registered? && !answers(m)
    ensures AfterDisconnect(path, true, whatIf, host, answers, m) == [Asked(RemoveShellNamespace, false)]
    ensures FsUnregistered(path) !in AfterDisconnect(path, true, whatIf, host, answers, m)
  {
    var g := Gate(RemoveShellNamespace, ShellUnregistered(host.shell(path).id), true, whatIf, answers(m));
    assert g == [Asked(RemoveShellNamespace, false)];
    assert AfterDisconnect(path, true, whatIf, host, answers, m) == g + [];
  }
}
