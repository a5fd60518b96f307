/**
 The create/update planner: `checkoutBranches` (Gitphull.php:434-445) and
 `updateOrClone` with its helpers `klone` and `update`
 (Gitphull.php:451-482, 559-606), as transitions of the abstract
 filesystem that append the git commands and hooks they issue.
 */
module Checkout {
  import opened Strings
  import opened Sanitizer
  import opened Settings
  import opened Workspace

  /**
   `$this->current['gitPath']`: the master directory for the master branch,
   otherwise the directory derived from the sanitized name
   (Gitphull.php:561-570).
   */
  function GitPath(cfg: Config, branch: string): string {
    if branch != cfg.master then BranchDir(cfg, Sanitize(cfg.invalid, branch)) else MasterDir(cfg)
  }

  /** Where `klone` touches the marker: built from the UNSANITIZED name (Gitphull.php:480). */
  function CloneMarkerPath(cfg: Config, branch: string): string {
    cfg.location + cfg.prefix + branch
  }

  /**
   `klone`: `git clone` into the existing directory gives it a working copy;
   then the marker is touched at the unsanitized path (Gitphull.php:475-482).
   */
  function Klone(w: World, cfg: Config, branch: string, dir: string): (r: World)
    requires dir in w.fs
    ensures HasGit(r.fs, dir)
    ensures Grows(w.fs, r.fs) && r.fs.Keys == w.fs.Keys
    ensures forall p | p in w.fs && p != dir && p != CloneMarkerPath(cfg, branch) :: r.fs[p] == w.fs[p]
    ensures Marked(r.fs, dir) <==> Marked(w.fs, dir) || dir == CloneMarkerPath(cfg, branch)
    ensures CloneMarkerPath(cfg, branch) in w.fs ==> Marked(r.fs, CloneMarkerPath(cfg, branch))
    ensures r.trace == w.trace + [Clone(branch, dir), Touch(CloneMarkerPath(cfg, branch))]
  {
    var cloned := w.fs[dir := w.fs[dir].(hasGit := true)];
    World(TouchMarker(cloned, CloneMarkerPath(cfg, branch)),
          w.trace + [Clone(branch, dir), Touch(CloneMarkerPath(cfg, branch))])
  }

  /**
   `update`: a second `beforeBranchUpdate`, hard reset, checkout, pull, and
   the marker touched inside the working copy (Gitphull.php:451-468).
   */
  function Update(w: World, branch: string, dir: string): (r: World)
    requires dir in w.fs
    ensures Marked(r.fs, dir)
    ensures Grows(w.fs, r.fs) && r.fs.Keys == w.fs.Keys
    ensures r.fs[dir].hasGit == w.fs[dir].hasGit
    ensures forall p | p in w.fs && p != dir :: r.fs[p] == w.fs[p]
    ensures r.trace == w.trace + [BeforeBranchUpdate(branch), Reset(dir), Checkout(dir, branch), Pull(dir), Touch(dir)]
  {
    World(TouchMarker(w.fs, dir),
          w.trace + [BeforeBranchUpdate(branch), Reset(dir), Checkout(dir, branch), Pull(dir), Touch(dir)])
  }

  /** For the master branch only: `git remote prune origin` and `git fetch` (Gitphull.php:571-579). */
  function PruneAndFetch(w: World, cfg: Config, branch: string): (r: World)
    ensures r.fs == w.fs && Extends(w, r)
    ensures branch == cfg.master ==> Issued(w, r) == [Prune(MasterDir(cfg)), Fetch(MasterDir(cfg))]
    ensures branch != cfg.master ==> Issued(w, r) == []
  {
    if branch == cfg.master then w.(trace := w.trace + [Prune(MasterDir(cfg)), Fetch(MasterDir(cfg))]) else w
  }

  /** The branch each terminal hook (`afterBranchClone`, `afterBranchUpdate`) reports, in order. */
  function Finished(t: seq<Event>): (r: seq<string>)
    ensures |r| <= |t|
  {
    if |t| == 0 then []
    else (if t[0].AfterBranchClone? || t[0].AfterBranchUpdate? then [t[0].branch] else []) + Finished(t[1..])
  }

  lemma {:induction false} FinishedAppend(a: seq<Event>, b: seq<Event>)
    ensures Finished(a + b) == Finished(a) + Finished(b)
    decreases |a|
  {
    if |a| > 0 {
      assert (a + b)[1..] == a[1..] + b;
      FinishedAppend(a[1..], b);
    } else {
      assert a + b == b;
    }
  }

  lemma {:induction false} FinishedQuiet(t: seq<Event>)
    requires forall i | 0 <= i < |t| :: !t[i].AfterBranchClone? && !t[i].AfterBranchUpdate?
    ensures Finished(t) == []
    decreases |t|
  {
    if |t| > 0 {
      FinishedQuiet(t[1..]);
    }
  }

  /** A trace whose only terminal hook is its last event finishes that event's branch. */
  lemma FinishedLast(t: seq<Event>, e: Event)
    requires forall i | 0 <= i < |t| :: !t[i].AfterBranchClone? && !t[i].AfterBranchUpdate?
    requires e.AfterBranchClone? || e.AfterBranchUpdate?
    ensures Finished(t + [e]) == [e.branch]
  {
    FinishedAppend(t, [e]);
    FinishedQuiet(t);
  }

  /** The number of `beforeBranchUpdate` hooks for `branch` in a trace. */
  function BeforeUpdates(t: seq<Event>, branch: string): nat {
    multiset(t)[BeforeBranchUpdate(branch)]
  }

  /** The events of the clone path: the clone, the marker touch, then `afterBranchClone`. */
  function CloneEvents(cfg: Config, branch: string, dir: string): seq<Event> {
    [Clone(branch, dir), Touch(CloneMarkerPath(cfg, branch)), AfterBranchClone(branch)]
  }

  lemma CloneEventsFacts(cfg: Config, branch: string, dir: string)
    ensures Finished(CloneEvents(cfg, branch, dir)) == [branch]
    ensures Clone(branch, dir) in CloneEvents(cfg, branch, dir) && AfterBranchClone(branch) in CloneEvents(cfg, branch, dir)
    ensures forall e | e in CloneEvents(cfg, branch, dir) :: !e.AfterBranchUpdate? && !e.BeforeBranchUpdate? && !e.Prune?
  {
    var body := [Clone(branch, dir), Touch(CloneMarkerPath(cfg, branch))];
    assert CloneEvents(cfg, branch, dir) == body + [AfterBranchClone(branch)];
    FinishedLast(body, AfterBranchClone(branch));
  }

  /** The clone path of `updateOrClone`: `klone`, then `afterBranchClone` (Gitphull.php:593-597). */
  function CloneBranch(w: World, cfg: Config, branch: string, dir: string): (r: World)
    requires dir in w.fs
    ensures Extends(w, r) && Issued(w, r) == CloneEvents(cfg, branch, dir)
    ensures HasGit(r.fs, dir)
    ensures Marked(r.fs, dir) <==> Marked(w.fs, dir) || dir == CloneMarkerPath(cfg, branch)
    ensures Grows(w.fs, r.fs) && r.fs.Keys == w.fs.Keys
    ensures forall p | p in w.fs && p != dir && p != CloneMarkerPath(cfg, branch) :: r.fs[p] == w.fs[p]
  {
    var w1 := Klone(w, cfg, branch, dir);
    var r := w1.(trace := w1.trace + [AfterBranchClone(branch)]);
    assert r.trace == w.trace + CloneEvents(cfg, branch, dir);
    r
  }

  /** The events of the update path, both `beforeBranchUpdate` hooks included. */
  function UpdateEvents(branch: string, dir: string): seq<Event> {
    [BeforeBranchUpdate(branch), BeforeBranchUpdate(branch), Reset(dir), Checkout(dir, branch), Pull(dir), Touch(dir),
     AfterBranchUpdate(branch)]
  }

  lemma UpdateEventsFinish(branch: string, dir: string)
    ensures Finished(UpdateEvents(branch, dir)) == [branch]
  {
    var body := [BeforeBranchUpdate(branch), BeforeBranchUpdate(branch), Reset(dir), Checkout(dir, branch), Pull(dir), Touch(dir)];
    assert UpdateEvents(branch, dir) == body + [AfterBranchUpdate(branch)];
    FinishedLast(body, AfterBranchUpdate(branch));
  }

  /** `beforeBranchUpdate` fires twice on the update path. */
  lemma UpdateEventsCount(branch: string, dir: string)
    ensures BeforeUpdates(UpdateEvents(branch, dir), branch) == 2
  {
    var b := BeforeBranchUpdate(branch);
    var rest := [Reset(dir), Checkout(dir, branch), Pull(dir), Touch(dir), AfterBranchUpdate(branch)];
    assert UpdateEvents(branch, dir) == [b, b] + rest;
    assert b !in rest;
    assert multiset(rest)[b] == 0;
    assert multiset([b, b])[b] == 2;
  }

  lemma UpdateEventsKinds(branch: string, dir: string)
    ensures AfterBranchUpdate(branch) in UpdateEvents(branch, dir)
    ensures forall e | e in UpdateEvents(branch, dir) :: !e.Clone? && !e.AfterBranchClone? && !e.Prune?
  {
  }

  /**
   The update path of `updateOrClone`: `beforeBranchUpdate`, `update` (which
   fires it again), then `afterBranchUpdate` (Gitphull.php:598-604).
   */
  function UpdateBranch(w: World, branch: string, dir: string): (r: World)
    requires dir in w.fs
    ensures Extends(w, r) && Issued(w, r) == UpdateEvents(branch, dir)
    ensures Marked(r.fs, dir) && r.fs[dir].hasGit == w.fs[dir].hasGit
    ensures Grows(w.fs, r.fs) && r.fs.Keys == w.fs.Keys
    ensures forall p | p in w.fs && p != dir :: r.fs[p] == w.fs[p]
  {
    var w1 := Update(w.(trace := w.trace + [BeforeBranchUpdate(branch)]), branch, dir);
    var r := w1.(trace := w1.trace + [AfterBranchUpdate(branch)]);
    assert r.trace == w.trace + UpdateEvents(branch, dir);
    r
  }

  /**
   `updateOrClone`: create the directory if missing (failing when it cannot
   be created), then clone when it holds no working copy, else update. The
   directory afterwards holds a working copy; nothing else is created and
   nothing is lost.
   */
  function UpdateOrClone(w: World, cfg: Config, branch: string, unwritable: set<string>): (o: Outcome)
    ensures o.Aborted? <==> GitPath(cfg, branch) !in w.fs && GitPath(cfg, branch) in unwritable
    ensures o.Aborted? ==> o.error == DirectoryCreateError(GitPath(cfg, branch)) && o.world.fs == w.fs
    ensures Extends(w, o.world)
    ensures o.Done? ==> HasGit(o.world.fs, GitPath(cfg, branch))
    ensures o.Done? ==> o.world.fs.Keys == w.fs.Keys + {GitPath(cfg, branch)}
    ensures Grows(w.fs, o.world.fs)
    ensures forall p | p in w.fs && p != GitPath(cfg, branch) && p != CloneMarkerPath(cfg, branch) :: o.world.fs[p] == w.fs[p]
  {
    var dir := GitPath(cfg, branch);
    var w0 := PruneAndFetch(w, cfg, branch);
    match EnsureDir(w0, dir, unwritable)
    case Aborted(w1, e) => Aborted(w1, e)
    case Done(w1) =>
      if !w1.fs[dir].hasGit then Done(CloneBranch(w1, cfg, branch, dir))
      else Done(UpdateBranch(w1, branch, dir))
  }

  /** The events issued before the directory is examined. */
  function PreludeEvents(cfg: Config, branch: string): seq<Event> {
    if branch == cfg.master then [Prune(MasterDir(cfg)), Fetch(MasterDir(cfg))] else []
  }

  /** The events of the path taken once the directory exists. */
  function PathEvents(fs: Fs, cfg: Config, branch: string): seq<Event> {
    if HasGit(fs, GitPath(cfg, branch)) then UpdateEvents(branch, GitPath(cfg, branch))
    else CloneEvents(cfg, branch, GitPath(cfg, branch))
  }

  lemma UpdateOrCloneShape(w: World, cfg: Config, branch: string, unwritable: set<string>)
    ensures var o := UpdateOrClone(w, cfg, branch, unwritable);
      && (o.Aborted? ==> Issued(w, o.world) == PreludeEvents(cfg, branch))
      && (o.Done? ==> Issued(w, o.world) == PreludeEvents(cfg, branch) + PathEvents(w.fs, cfg, branch))
  {
    var dir := GitPath(cfg, branch);
    var w0 := PruneAndFetch(w, cfg, branch);
    var o := UpdateOrClone(w, cfg, branch, unwritable);
    if o.Done? {
      var w1 := EnsureDir(w0, dir, unwritable).world;
      IssuedChain(w, w1, o.world);
    }
  }

  lemma PreludeFacts(cfg: Config, branch: string)
    ensures Finished(PreludeEvents(cfg, branch)) == []
    ensures Prune(MasterDir(cfg)) in PreludeEvents(cfg, branch) <==> branch == cfg.master
    ensures BeforeUpdates(PreludeEvents(cfg, branch), branch) == 0
  {
    FinishedQuiet(PreludeEvents(cfg, branch));
  }

  lemma PathFacts(fs: Fs, cfg: Config, branch: string)
    ensures Clone(branch, GitPath(cfg, branch)) in PathEvents(fs, cfg, branch) <==> !HasGit(fs, GitPath(cfg, branch))
    ensures AfterBranchClone(branch) in PathEvents(fs, cfg, branch) <==> !HasGit(fs, GitPath(cfg, branch))
    ensures AfterBranchUpdate(branch) in PathEvents(fs, cfg, branch) <==> HasGit(fs, GitPath(cfg, branch))
    ensures Prune(MasterDir(cfg)) !in PathEvents(fs, cfg, branch)
    ensures Finished(PathEvents(fs, cfg, branch)) == [branch]
  {
    var dir := GitPath(cfg, branch);
    if HasGit(fs, dir) {
      UpdateEventsFinish(branch, dir);
      UpdateEventsKinds(branch, dir);
    } else {
      CloneEventsFacts(cfg, branch, dir);
    }
  }

  lemma PreludeQuiet(cfg: Config, branch: string)
    ensures forall e | e in PreludeEvents(cfg, branch) :: e.Prune? || e.Fetch?
  {
  }

  /** Which hooks and commands the events of a completed `updateOrClone` contain. */
  lemma CompletedEventsMembers(fs: Fs, cfg: Config, branch: string)
    ensures var t := PreludeEvents(cfg, branch) + PathEvents(fs, cfg, branch);
      && (Prune(MasterDir(cfg)) in t <==> branch == cfg.master)
      && (Clone(branch, GitPath(cfg, branch)) in t <==> !HasGit(fs, GitPath(cfg, branch)))
      && (AfterBranchClone(branch) in t <==> !HasGit(fs, GitPath(cfg, branch)))
      && (AfterBranchUpdate(branch) in t <==> HasGit(fs, GitPath(cfg, branch)))
  {
    var pre := PreludeEvents(cfg, branch);
    var ev := PathEvents(fs, cfg, branch);
    PreludeFacts(cfg, branch);
    PreludeQuiet(cfg, branch);
    PathFacts(fs, cfg, branch);
    assert Clone(branch, GitPath(cfg, branch)) !in pre;
    assert AfterBranchClone(branch) !in pre;
    assert AfterBranchUpdate(branch) !in pre;
  }

  /** The terminal hooks and update hooks of a completed `updateOrClone`. */
  lemma CompletedEventsCounts(fs: Fs, cfg: Config, branch: string)
    ensures var t := PreludeEvents(cfg, branch) + PathEvents(fs, cfg, branch);
      && Finished(t) == [branch]
      && (HasGit(fs, GitPath(cfg, branch)) ==> BeforeUpdates(t, branch) == 2)
  {
    var dir := GitPath(cfg, branch);
    var pre := PreludeEvents(cfg, branch);
    var ev := PathEvents(fs, cfg, branch);
    PreludeFacts(cfg, branch);
    FinishedAppend(pre, ev);
    PathFacts(fs, cfg, branch);
    if HasGit(fs, dir) {
      UpdateEventsCount(branch, dir);
      assert multiset(pre + ev) == multiset(pre) + multiset(ev);
    }
  }

  /**
   The commands and hooks `updateOrClone` issues: prune and fetch exactly
   for the master branch; exactly one terminal hook, for the branch; a
   clone and `afterBranchClone` exactly when the directory held no working
   copy, `afterBranchUpdate` and two `beforeBranchUpdate` otherwise.
   */
  lemma UpdateOrCloneTrace(w: World, cfg: Config, branch: string, unwritable: set<string>)
    ensures var o := UpdateOrClone(w, cfg, branch, unwritable);
      && (Prune(MasterDir(cfg)) in Issued(w, o.world) <==> branch == cfg.master)
      && (o.Aborted? ==> Finished(Issued(w, o.world)) == [])
      && (o.Done? ==> Finished(Issued(w, o.world)) == [branch])
      && (o.Done? ==> (Clone(branch, GitPath(cfg, branch)) in Issued(w, o.world) <==> !HasGit(w.fs, GitPath(cfg, branch))))
      && (o.Done? ==> (AfterBranchClone(branch) in Issued(w, o.world) <==> !HasGit(w.fs, GitPath(cfg, branch))))
      && (o.Done? ==> (AfterBranchUpdate(branch) in Issued(w, o.world) <==> HasGit(w.fs, GitPath(cfg, branch))))
      && (o.Done? && HasGit(w.fs, GitPath(cfg, branch)) ==> BeforeUpdates(Issued(w, o.world), branch) == 2)
  {
    UpdateOrCloneShape(w, cfg, branch, unwritable);
    PreludeFacts(cfg, branch);
    CompletedEventsMembers(w.fs, cfg, branch);
    CompletedEventsCounts(w.fs, cfg, branch);
  }

  /**
   The marker after `updateOrClone`: an updated working copy is always
   marked; a fresh clone is marked only when its directory IS the
   unsanitized path `klone` touches (or was marked before).
   */
  lemma UpdateOrCloneMarker(w: World, cfg: Config, branch: string, unwritable: set<string>)
    ensures var o := UpdateOrClone(w, cfg, branch, unwritable);
      && (o.Done? && HasGit(w.fs, GitPath(cfg, branch)) ==> Marked(o.world.fs, GitPath(cfg, branch)))
      && (o.Done? && !HasGit(w.fs, GitPath(cfg, branch)) ==>
            (Marked(o.world.fs, GitPath(cfg, branch)) <==>
               Marked(w.fs, GitPath(cfg, branch)) || GitPath(cfg, branch) == CloneMarkerPath(cfg, branch)))
  {
  }

  /**
   A branch whose name the sanitizer changes is not marked by its first
   clone: the clone goes to the sanitized directory while the marker is
   touched at the unsanitized path. Only its next update marks it.
   */
  lemma FirstCloneOfSanitizedNameUnmarked(w: World, cfg: Config, branch: string, unwritable: set<string>)
    requires branch != cfg.master && |cfg.master| > 0
    requires forall i | 0 <= i < |cfg.location + cfg.prefix| :: !MatchesAt(MasterDir(cfg), i, cfg.master)
    requires Sanitize(cfg.invalid, branch) != branch
    requires GitPath(cfg, branch) !in w.fs && GitPath(cfg, branch) !in unwritable
    ensures var o := UpdateOrClone(w, cfg, branch, unwritable);
      o.Done? && HasGit(o.world.fs, GitPath(cfg, branch)) && !Marked(o.world.fs, GitPath(cfg, branch))
  {
    var base := cfg.location + cfg.prefix;
    BranchDirWhenMasterOccursOnce(cfg, Sanitize(cfg.invalid, branch));
    assert GitPath(cfg, branch) == base + Sanitize(cfg.invalid, branch);
    assert (base + Sanitize(cfg.invalid, branch))[|base|..] == Sanitize(cfg.invalid, branch);
    assert (base + branch)[|base|..] == branch;
    UpdateOrCloneMarker(w, cfg, branch, unwritable);
  }

  /**
   The remotes `checkoutBranches` hands to `updateOrClone`: not ignored, and
   in the allow list when one is set (Gitphull.php:435-441).
   */
  predicate Selected(cfg: Config, b: string) {
    b !in cfg.ignore && (|cfg.only| == 0 || b in cfg.only)
  }

  /** The selected remotes, in remote-list order: the reference for `checkoutBranches`. */
  function Selection(cfg: Config, bs: seq<string>): (r: seq<string>)
    ensures |r| <= |bs|
    ensures forall b :: b in r <==> b in bs && Selected(cfg, b)
  {
    if |bs| == 0 then []
    else (if Selected(cfg, bs[0]) then [bs[0]] else []) + Selection(cfg, bs[1..])
  }

  /** `checkoutBranches`: `updateOrClone` on every selected remote, in order, until one fails. */
  function CheckoutBranches(w: World, cfg: Config, branches: seq<string>, unwritable: set<string>): (o: Outcome)
    ensures Extends(w, o.world)
    ensures Grows(w.fs, o.world.fs)
    decreases |branches|
  {
    if |branches| == 0 then Done(w)
    else if !Selected(cfg, branches[0]) then CheckoutBranches(w, cfg, branches[1..], unwritable)
    else
      match UpdateOrClone(w, cfg, branches[0], unwritable)
      case Aborted(w1, e) => Aborted(w1, e)
      case Done(w1) =>
        var o := CheckoutBranches(w1, cfg, branches[1..], unwritable);
        IssuedChain(w, w1, o.world);
        GrowsTrans(w.fs, w1.fs, o.world.fs);
        o
  }

  /** The terminal hooks of one `updateOrClone`. */
  lemma UpdateOrCloneFinished(w: World, cfg: Config, branch: string, unwritable: set<string>)
    ensures var o := UpdateOrClone(w, cfg, branch, unwritable);
      && (o.Done? ==> Finished(Issued(w, o.world)) == [branch])
      && (o.Aborted? ==> Finished(Issued(w, o.world)) == [])
  {
    UpdateOrCloneTrace(w, cfg, branch, unwritable);
  }

  /** The terminal hooks of a complete `checkoutBranches` report exactly the selected remotes, in order. */
  lemma {:induction false} CheckoutOrder(w: World, cfg: Config, branches: seq<string>, unwritable: set<string>)
    ensures var o := CheckoutBranches(w, cfg, branches, unwritable);
      o.Done? ==> Finished(Issued(w, o.world)) == Selection(cfg, branches)
    decreases |branches|
  {
    if |branches| > 0 {
      var b := branches[0];
      var rest := branches[1..];
      if !Selected(cfg, b) {
        CheckoutOrder(w, cfg, rest, unwritable);
      } else {
        var o1 := UpdateOrClone(w, cfg, b, unwritable);
        if o1.Done? {
          UpdateOrCloneFinished(w, cfg, b, unwritable);
          var w1 := o1.world;
          var o := CheckoutBranches(w1, cfg, rest, unwritable);
          CheckoutOrder(w1, cfg, rest, unwritable);
          IssuedChain(w, w1, o.world);
          FinishedAppend(Issued(w, w1), Issued(w1, o.world));
        }
      }
    }
  }

  /** Putting the same element in front keeps a proper prefix a proper prefix. */
  lemma ConsPrefix(b: string, done: seq<string>, sel: seq<string>)
    requires |done| < |sel| && done == sel[..|done|]
    ensures |[b] + done| < |[b] + sel| && [b] + done == ([b] + sel)[..|[b] + done|]
    ensures ([b] + sel)[|[b] + done|] == sel[|done|]
  {
  }

  /**
   When a directory cannot be created, the terminal hooks report a proper
   prefix of the selected remotes and the error names the directory of
   the next one.
   */
  lemma {:induction false} CheckoutAbortsAtNext(w: World, cfg: Config, branches: seq<string>, unwritable: set<string>)
    ensures var o := CheckoutBranches(w, cfg, branches, unwritable);
      var done := Finished(Issued(w, o.world));
      var sel := Selection(cfg, branches);
      o.Aborted? ==> |done| < |sel| && done == sel[..|done|] && o.error == DirectoryCreateError(GitPath(cfg, sel[|done|]))
    decreases |branches|
  {
    if |branches| > 0 {
      var b := branches[0];
      var rest := branches[1..];
      if !Selected(cfg, b) {
        CheckoutAbortsAtNext(w, cfg, rest, unwritable);
      } else {
        var o1 := UpdateOrClone(w, cfg, b, unwritable);
        UpdateOrCloneFinished(w, cfg, b, unwritable);
        assert Selection(cfg, branches) == [b] + Selection(cfg, rest);
        if o1.Done? {
          AbortAfterHead(w, cfg, branches, unwritable);
        }
      }
    }
  }

  /** The step of `CheckoutAbortsAtNext` where the first selected remote completed. */
  lemma {:induction false} AbortAfterHead(w: World, cfg: Config, branches: seq<string>, unwritable: set<string>)
    requires |branches| > 0 && Selected(cfg, branches[0])
    requires UpdateOrClone(w, cfg, branches[0], unwritable).Done?
    ensures var o := CheckoutBranches(w, cfg, branches, unwritable);
      var done := Finished(Issued(w, o.world));
      var sel := Selection(cfg, branches);
      o.Aborted? ==> |done| < |sel| && done == sel[..|done|] && o.error == DirectoryCreateError(GitPath(cfg, sel[|done|]))
    decreases |branches|, 0
  {
    var b := branches[0];
    var rest := branches[1..];
    var w1 := UpdateOrClone(w, cfg, b, unwritable).world;
    UpdateOrCloneFinished(w, cfg, b, unwritable);
    var o := CheckoutBranches(w1, cfg, rest, unwritable);
    assert CheckoutBranches(w, cfg, branches, unwritable) == o;
    assert Selection(cfg, branches) == [b] + Selection(cfg, rest);
    if o.Aborted? {
      CheckoutAbortsAtNext(w1, cfg, rest, unwritable);
      IssuedChain(w, w1, o.world);
      FinishedAppend(Issued(w, w1), Issued(w1, o.world));
      ConsPrefix(b, Finished(Issued(w1, o.world)), Selection(cfg, rest));
    }
  }

  /**
   Only the directories of selected remotes are created: an ignored branch,
   or one outside the allow list, gets no directory.
   */
  lemma {:induction false} CheckoutCreatesOnlySelected(w: World, cfg: Config, branches: seq<string>, unwritable: set<string>)
    ensures var o := CheckoutBranches(w, cfg, branches, unwritable);
      forall p | p in o.world.fs && p !in w.fs :: exists b | b in branches && Selected(cfg, b) :: p == GitPath(cfg, b)
    decreases |branches|
  {
    if |branches| > 0 {
      var b := branches[0];
      var rest := branches[1..];
      CheckoutCreatesOnlySelected(w, cfg, rest, unwritable);
      var o1 := UpdateOrClone(w, cfg, b, unwritable);
      if Selected(cfg, b) && o1.Done? {
        var w1 := o1.world;
        var o := CheckoutBranches(w1, cfg, rest, unwritable);
        CheckoutCreatesOnlySelected(w1, cfg, rest, unwritable);
        forall p | p in o.world.fs && p !in w.fs
          ensures exists c | c in branches && Selected(cfg, c) :: p == GitPath(cfg, c)
        {
          if p in w1.fs {
            assert b in branches && p == GitPath(cfg, b);
          } else {
            var c :| c in rest && Selected(cfg, c) && p == GitPath(cfg, c);
            assert c in branches;
          }
        }
      }
    }
  }

  /** After a complete `checkoutBranches`, every selected remote has a working copy. */
  lemma {:induction false} CheckoutProvidesWorkingCopies(w: World, cfg: Config, branches: seq<string>, unwritable: set<string>)
    ensures var o := CheckoutBranches(w, cfg, branches, unwritable);
      o.Done? ==> forall b | b in branches && Selected(cfg, b) :: HasGit(o.world.fs, GitPath(cfg, b))
    decreases |branches|
  {
    if |branches| > 0 {
      var b := branches[0];
      var rest := branches[1..];
      CheckoutProvidesWorkingCopies(w, cfg, rest, unwritable);
      var o1 := UpdateOrClone(w, cfg, b, unwritable);
      if Selected(cfg, b) && o1.Done? {
        var w1 := o1.world;
        var o := CheckoutBranches(w1, cfg, rest, unwritable);
        CheckoutProvidesWorkingCopies(w1, cfg, rest, unwritable);
        assert HasGit(w1.fs, GitPath(cfg, b));
        forall c | c in branches && Selected(cfg, c)
          ensures o.Done? ==> HasGit(o.world.fs, GitPath(cfg, c))
        {
          if c != b {
            assert c in rest;
          }
        }
      }
    }
  }
}
