/**
 One reconciliation pass, `run()` (Gitphull.php:143-197): scan the base
 location, make sure the master working copy exists and is current, read
 the remote branch list from it, delete the directories of branches gone
 from the remote, clone or update every remaining selected branch, and fire
 `afterRun`. Any directory that cannot be created ends the pass.
 */
module Reconcile {
  import opened Strings
  import opened Sanitizer
  import opened Settings
  import opened Workspace
  import opened LocalScan
  import opened Remotes
  import opened Deletion
  import opened Checkout

  /** The configuration once `run()` has added the master to the ignore list (Gitphull.php:154). */
  function RunConfig(cfg: Config): (rc: Config)
    ensures rc.master in rc.ignore && forall b | b in cfg.ignore :: b in rc.ignore
    ensures MasterDir(rc) == MasterDir(cfg) && rc.only == cfg.only && rc.invalid == cfg.invalid
  {
    cfg.(ignore := cfg.ignore + [cfg.master])
  }

  /**
   The scanned names with a leading empty name dropped
   (`if($this->currentBranches[0] == '') unset(...)`, Gitphull.php:149-151);
   an empty scan stays empty.
   */
  function CurrentBranches(scanned: seq<string>): (r: seq<string>)
    ensures |scanned| > 0 && scanned[0] == "" ==> r == scanned[1..]
    ensures |scanned| == 0 || scanned[0] != "" ==> r == scanned
  {
    if |scanned| > 0 && scanned[0] == "" then scanned[1..] else scanned
  }

  /**
   The first half of `run()` after the scan: create the master directory if
   missing, then clone or update the master branch in it
   (Gitphull.php:156-168). On success the master working copy exists and
   carries the marker, since `klone` touches the master directory itself.
   */
  function MasterStage(rc: Config, w: World, unwritable: set<string>): (o: Outcome)
    ensures Extends(w, o.world) && Grows(w.fs, o.world.fs)
    ensures o.Aborted? <==> MasterDir(rc) !in w.fs && MasterDir(rc) in unwritable
    ensures o.Aborted? ==> o.error == DirectoryCreateError(MasterDir(rc))
    ensures o.Done? ==> HasGit(o.world.fs, MasterDir(rc)) && Marked(o.world.fs, MasterDir(rc))
    ensures forall p | p in o.world.fs && p !in w.fs :: p == MasterDir(rc)
  {
    match EnsureDir(w, MasterDir(rc), unwritable)
    case Aborted(w1, e) => Aborted(w1, e)
    case Done(w1) =>
      UpdateOrCloneMarker(w1, rc, rc.master, unwritable);
      var o := UpdateOrClone(w1, rc, rc.master, unwritable);
      IssuedChain(w, w1, o.world);
      GrowsTrans(w.fs, w1.fs, o.world.fs);
      o
  }

  /**
   The deletion step of the pass: `deleteOldBranches` as written, or the
   corrected version that spares the master working copy.
   */
  function DeleteStage(rc: Config, w: World, current: seq<string>, remotes: seq<string>, corrected: bool): (r: World)
    ensures Extends(w, r) && r.fs.Keys <= w.fs.Keys
    ensures corrected && MasterDir(rc) in w.fs ==> MasterDir(rc) in r.fs && r.fs[MasterDir(rc)] == w.fs[MasterDir(rc)]
  {
    if corrected then DeleteOldBranches(w, rc, current, remotes, rc.ignore)
    else DeleteOldBranchesAsWritten(w, rc, current, remotes, rc.ignore)
  }

  /**
   The second half: delete the directories of vanished branches, clone or
   update every selected remote, then fire `afterRun` (Gitphull.php:170-191).
   */
  function BranchStage(rc: Config, w: World, current: seq<string>, remotes: seq<string>, unwritable: set<string>, corrected: bool): (o: Outcome)
    ensures Extends(w, o.world)
    ensures o.Done? ==> |o.world.trace| > 0 && o.world.trace[|o.world.trace| - 1] == AfterRun
  {
    var w1 := DeleteStage(rc, w, current, remotes, corrected);
    match CheckoutBranches(w1, rc, remotes, unwritable)
    case Aborted(w2, e) =>
      IssuedChain(w, w1, w2);
      Aborted(w2, e)
    case Done(w2) =>
      var w3 := w2.(trace := w2.trace + [AfterRun]);
      IssuedChain(w, w1, w2);
      IssuedChain(w, w2, w3);
      Done(w3)
  }

  /**
   A pass over the remote list `remotes`. The listing of the base location
   is an input. Branch diffs and the live log are not part of this pass.
   */
  function Pass(cfg: Config, w: World, unwritable: set<string>, listing: seq<DirEntry>, remotes: seq<string>, corrected: bool): (o: Outcome)
    ensures Extends(w, o.world)
    ensures o.Done? ==> |o.world.trace| > 0 && o.world.trace[|o.world.trace| - 1] == AfterRun
  {
    var current := CurrentBranches(CheckedOutBranches(listing, cfg.prefix, cfg.ignore, cfg.only));
    var rc := RunConfig(cfg);
    match MasterStage(rc, w, unwritable)
    case Aborted(w1, e) => Aborted(w1, e)
    case Done(w1) =>
      var o := BranchStage(rc, w1, current, remotes, unwritable, corrected);
      IssuedChain(w, w1, o.world);
      o
  }

  /**
   `run()` as written: the remote list is the output of `git branch -r` in
   the master working copy, read by `getBranches`, and deletion is
   `deleteOldBranches` as written.
   */
  function RunAsWritten(cfg: Config, w: World, unwritable: set<string>, listing: seq<DirEntry>, remoteOutput: string): (o: Outcome)
    ensures Extends(w, o.world)
    ensures o.Done? ==> |o.world.trace| > 0 && o.world.trace[|o.world.trace| - 1] == AfterRun
  {
    Pass(cfg, w, unwritable, listing, ParseRemoteListing(remoteOutput), false)
  }

  /**
   The corrected pass: the remote list is read with the corrected parser
   and deletion spares the master working copy (see the findings on
   `ParseRemoteListing` and `DeleteOldBranchesAsWritten`).
   */
  function Run(cfg: Config, w: World, unwritable: set<string>, listing: seq<DirEntry>, remoteOutput: string): (o: Outcome)
    ensures Extends(w, o.world)
    ensures o.Done? ==> |o.world.trace| > 0 && o.world.trace[|o.world.trace| - 1] == AfterRun
  {
    Pass(cfg, w, unwritable, listing, RemoteBranches(remoteOutput), true)
  }

  /**
   The corrected pass is `run()` as written whenever neither finding
   applies: `getBranches` reads no empty name, and no checked-out name
   derives a directory holding the master working copy.
   */
  lemma RunMatchesAsWritten(cfg: Config, w: World, unwritable: set<string>, listing: seq<DirEntry>, remoteOutput: string)
    requires "" !in ParseRemoteListing(remoteOutput)
    requires forall co | co in CurrentBranches(CheckedOutBranches(listing, cfg.prefix, cfg.ignore, cfg.only)) ::
               !CoversMaster(RunConfig(cfg), DeletionDir(RunConfig(cfg), co))
    ensures Run(cfg, w, unwritable, listing, remoteOutput) == RunAsWritten(cfg, w, unwritable, listing, remoteOutput)
  {
    var rc := RunConfig(cfg);
    var current := CurrentBranches(CheckedOutBranches(listing, cfg.prefix, cfg.ignore, cfg.only));
    var remotes := ParseRemoteListing(remoteOutput);
    RemoteBranchesAgree(remoteOutput);
    var m := MasterStage(rc, w, unwritable);
    if m.Done? {
      DeleteOldBranchesAgree(m.world, rc, current, remotes, rc.ignore);
      assert BranchStage(rc, m.world, current, remotes, unwritable, true) == BranchStage(rc, m.world, current, remotes, unwritable, false);
    }
  }

  /** The corrected deletion step keeps the master working copy exactly as it was. */
  lemma DeletionKeepsMaster(rc: Config, w: World, current: seq<string>, remotes: seq<string>)
    requires MasterDir(rc) in w.fs
    ensures var r := DeleteOldBranches(w, rc, current, remotes, rc.ignore);
      MasterDir(rc) in r.fs && r.fs[MasterDir(rc)] == w.fs[MasterDir(rc)]
  {
  }

  lemma BranchStageKeepsMaster(rc: Config, w: World, current: seq<string>, remotes: seq<string>, unwritable: set<string>)
    requires HasGit(w.fs, MasterDir(rc)) && Marked(w.fs, MasterDir(rc))
    ensures var o := BranchStage(rc, w, current, remotes, unwritable, true);
      HasGit(o.world.fs, MasterDir(rc)) && Marked(o.world.fs, MasterDir(rc))
  {
  }

  /** A completed corrected pass leaves the master working copy in place, with its marker. */
  lemma RunKeepsMasterCopy(cfg: Config, w: World, unwritable: set<string>, listing: seq<DirEntry>, remoteOutput: string)
    ensures var o := Run(cfg, w, unwritable, listing, remoteOutput);
      o.Done? ==> HasGit(o.world.fs, MasterDir(cfg)) && Marked(o.world.fs, MasterDir(cfg))
  {
    var rc := RunConfig(cfg);
    var m := MasterStage(rc, w, unwritable);
    if m.Done? {
      var current := CurrentBranches(CheckedOutBranches(listing, cfg.prefix, cfg.ignore, cfg.only));
      BranchStageKeepsMaster(rc, m.world, current, RemoteBranches(remoteOutput), unwritable);
    }
  }

  /**
   As written, the branch stage loses the master working copy when a
   checked-out name that is gone from the remote sanitizes to the master's
   name, unless a selected remote clones it back.
   */
  lemma BranchStageAsWrittenLosesMaster(rc: Config, w: World, co: string, remotes: seq<string>, unwritable: set<string>)
    requires Sanitize(rc.invalid, co) == rc.master && |remotes| > 0
    requires co !in SanitizeAll(rc.invalid, rc.ignore) && co !in SanitizeAll(rc.invalid, remotes)
    requires Marked(w.fs, MasterDir(rc))
    requires forall b | b in remotes && Selected(rc, b) :: GitPath(rc, b) != MasterDir(rc)
    ensures MasterDir(rc) !in BranchStage(rc, w, [co], remotes, unwritable, false).world.fs
  {
    var w1 := DeleteStage(rc, w, [co], remotes, false);
    ReferenceCopyDeletedAsWritten(w, rc, co, remotes, rc.ignore);
    CheckoutCreatesOnlySelected(w1, rc, remotes, unwritable);
  }

  lemma BranchStageProvides(rc: Config, w: World, current: seq<string>, remotes: seq<string>, unwritable: set<string>, corrected: bool)
    ensures var o := BranchStage(rc, w, current, remotes, unwritable, corrected);
      o.Done? ==> forall b | b in remotes && Selected(rc, b) :: HasGit(o.world.fs, GitPath(rc, b))
  {
    var w1 := DeleteStage(rc, w, current, remotes, corrected);
    CheckoutProvidesWorkingCopies(w1, rc, remotes, unwritable);
  }

  /**
   A completed pass leaves a working copy for every remote branch on its
   list that is neither ignored (the master included) nor outside the
   allow list.
   */
  lemma PassChecksOutSelected(cfg: Config, w: World, unwritable: set<string>, listing: seq<DirEntry>, remotes: seq<string>, corrected: bool)
    ensures var o := Pass(cfg, w, unwritable, listing, remotes, corrected);
      o.Done? ==> forall b | b in remotes && Selected(RunConfig(cfg), b) :: HasGit(o.world.fs, GitPath(RunConfig(cfg), b))
  {
    var rc := RunConfig(cfg);
    var m := MasterStage(rc, w, unwritable);
    if m.Done? {
      var current := CurrentBranches(CheckedOutBranches(listing, cfg.prefix, cfg.ignore, cfg.only));
      BranchStageProvides(rc, m.world, current, remotes, unwritable, corrected);
    }
  }

  /** `run()` as written checks out every selected name `getBranches` reads, the empty name included. */
  lemma RunAsWrittenChecksOutSelected(cfg: Config, w: World, unwritable: set<string>, listing: seq<DirEntry>, remoteOutput: string)
    ensures var o := RunAsWritten(cfg, w, unwritable, listing, remoteOutput);
      o.Done? ==> forall b | b in ParseRemoteListing(remoteOutput) && Selected(RunConfig(cfg), b) ::
                    HasGit(o.world.fs, GitPath(RunConfig(cfg), b))
  {
    PassChecksOutSelected(cfg, w, unwritable, listing, ParseRemoteListing(remoteOutput), false);
  }

  /** The corrected pass checks out every selected non-empty remote branch. */
  lemma RunChecksOutSelected(cfg: Config, w: World, unwritable: set<string>, listing: seq<DirEntry>, remoteOutput: string)
    ensures var o := Run(cfg, w, unwritable, listing, remoteOutput);
      o.Done? ==> forall b | b in RemoteBranches(remoteOutput) && Selected(RunConfig(cfg), b) ::
                    HasGit(o.world.fs, GitPath(RunConfig(cfg), b))
  {
    PassChecksOutSelected(cfg, w, unwritable, listing, RemoteBranches(remoteOutput), true);
  }

  lemma BranchStageCreatesOnlySelected(rc: Config, w: World, current: seq<string>, remotes: seq<string>, unwritable: set<string>, corrected: bool)
    ensures var o := BranchStage(rc, w, current, remotes, unwritable, corrected);
      forall p | p in o.world.fs && p !in w.fs :: exists b | b in remotes && Selected(rc, b) :: p == GitPath(rc, b)
  {
    var w1 := DeleteStage(rc, w, current, remotes, corrected);
    CheckoutCreatesOnlySelected(w1, rc, remotes, unwritable);
  }

  /**
   A pass creates no directory but the master's and those of selected
   branches on its remote list: an ignored branch gets no directory.
   */
  lemma PassCreatesOnlySelected(cfg: Config, w: World, unwritable: set<string>, listing: seq<DirEntry>, remotes: seq<string>, corrected: bool)
    ensures var o := Pass(cfg, w, unwritable, listing, remotes, corrected);
      forall p | p in o.world.fs && p !in w.fs ::
        p == MasterDir(cfg) || exists b | b in remotes && Selected(RunConfig(cfg), b) :: p == GitPath(RunConfig(cfg), b)
  {
    var rc := RunConfig(cfg);
    var m := MasterStage(rc, w, unwritable);
    if m.Done? {
      var current := CurrentBranches(CheckedOutBranches(listing, cfg.prefix, cfg.ignore, cfg.only));
      BranchStageCreatesOnlySelected(rc, m.world, current, remotes, unwritable, corrected);
    }
  }

  /**
   `run()` as written creates no directory but the master's and those of
   the selected names `getBranches` reads; blank output makes that the
   directory of the empty name.
   */
  lemma RunAsWrittenCreatesOnlySelected(cfg: Config, w: World, unwritable: set<string>, listing: seq<DirEntry>, remoteOutput: string)
    ensures var o := RunAsWritten(cfg, w, unwritable, listing, remoteOutput);
      forall p | p in o.world.fs && p !in w.fs ::
        p == MasterDir(cfg)
        || exists b | b in ParseRemoteListing(remoteOutput) && Selected(RunConfig(cfg), b) :: p == GitPath(RunConfig(cfg), b)
  {
    PassCreatesOnlySelected(cfg, w, unwritable, listing, ParseRemoteListing(remoteOutput), false);
  }

  /** The corrected pass creates no directory but the master's and those of selected non-empty remote branches. */
  lemma RunCreatesOnlySelected(cfg: Config, w: World, unwritable: set<string>, listing: seq<DirEntry>, remoteOutput: string)
    ensures var o := Run(cfg, w, unwritable, listing, remoteOutput);
      forall p | p in o.world.fs && p !in w.fs ::
        p == MasterDir(cfg)
        || exists b | b in RemoteBranches(remoteOutput) && Selected(RunConfig(cfg), b) :: p == GitPath(RunConfig(cfg), b)
  {
    PassCreatesOnlySelected(cfg, w, unwritable, listing, RemoteBranches(remoteOutput), true);
  }

  /**
   As written, blank `git branch -r` output reads as the list [""], so the
   empty-remote guard does not hold and every marked checked-out name that
   is neither empty nor ignored loses its directory: a transient failure of
   the listing wipes the managed branches.
   */
  lemma BlankListingDefeatsGuard(w: World, cfg: Config, checkedOut: seq<string>, notManaged: seq<string>, output: string, co: string)
    requires Trim(output) == ""
    requires co in checkedOut && co != "" && co !in SanitizeAll(cfg.invalid, notManaged)
    requires Marked(w.fs, DeletionDir(cfg, co))
    ensures DeletionDir(cfg, co) !in DeleteOldBranchesAsWritten(w, cfg, checkedOut, ParseRemoteListing(output), notManaged).fs
  {
    BlankListingDooms(w, cfg, notManaged, output, co);
    DoomedRemovedAsWritten(w, cfg, checkedOut, ParseRemoteListing(output), notManaged, co);
  }

  /** The one name a blank listing yields is empty, so every non-empty name is stale. */
  lemma BlankListingDooms(w: World, cfg: Config, notManaged: seq<string>, output: string, co: string)
    requires Trim(output) == ""
    requires co != "" && co !in SanitizeAll(cfg.invalid, notManaged)
    requires Marked(w.fs, DeletionDir(cfg, co))
    ensures |ParseRemoteListing(output)| > 0
    ensures Doomed(w.fs, cfg, co, SanitizeAll(cfg.invalid, notManaged), SanitizeAll(cfg.invalid, ParseRemoteListing(output)), false)
  {
    BlankListingYieldsEmptyName(output);
    OnlyEmptyName(cfg.invalid, ParseRemoteListing(output), co);
  }

  lemma OnlyEmptyName(invalid: seq<string>, remotes: seq<string>, co: string)
    requires remotes == [""] && co != ""
    ensures co !in SanitizeAll(invalid, remotes)
  {
    SanitizeEmpty(invalid);
    assert SanitizeAll(invalid, remotes)[0] == "";
  }

  /** With the corrected parser, blank output means no remotes, and nothing is deleted. */
  lemma BlankListingDeletesNothing(w: World, cfg: Config, checkedOut: seq<string>, notManaged: seq<string>, output: string)
    requires Trim(output) == ""
    ensures DeleteOldBranches(w, cfg, checkedOut, RemoteBranches(output), notManaged) == w
  {
  }
}
