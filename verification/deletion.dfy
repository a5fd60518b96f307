/**
 The deletion planner, `deleteOldBranches` (Gitphull.php:515-553): every
 checked-out name that is neither ignored nor still on the remote loses its
 directory, provided that directory carries the `managedbranch.txt` marker.
 */
module Deletion {
  import opened Strings
  import opened Sanitizer
  import opened Settings
  import opened Workspace

  /**
   The directory the loop derives for a checked-out name: the master
   directory with every occurrence of the master's name replaced by the
   sanitized name (Gitphull.php:535-540).
   */
  function DeletionDir(cfg: Config, co: string): string {
    BranchDir(cfg, Sanitize(cfg.invalid, co))
  }

  /**
   The loop goes on to inspect a name only when the RAW name is absent from
   both lists, which by then hold sanitized names (Gitphull.php:527-533).
   */
  predicate Stale(co: string, ignored: seq<string>, remotes: seq<string>) {
    co !in ignored && co !in remotes
  }

  /** Removing `dir` would take the master working copy with it. */
  predicate CoversMaster(cfg: Config, dir: string) {
    InTree(MasterDir(cfg), dir)
  }

  /**
   The names whose directory is removed when the loop reaches them: stale,
   marked, and, when `guarded`, not covering the master working copy.
   */
  predicate Doomed(fs: Fs, cfg: Config, co: string, ignored: seq<string>, remotes: seq<string>, guarded: bool) {
    Stale(co, ignored, remotes)
    && Marked(fs, DeletionDir(cfg, co))
    && !(guarded && CoversMaster(cfg, DeletionDir(cfg, co)))
  }

  /** One iteration: `rm -Rf $dir`, then `afterBranchDelete($co)`. */
  function DeleteStep(w: World, cfg: Config, co: string, ignored: seq<string>, remotes: seq<string>, guarded: bool): World {
    if Doomed(w.fs, cfg, co, ignored, remotes, guarded) then
      var dir := DeletionDir(cfg, co);
      World(RemoveTree(w.fs, dir), w.trace + [Remove(dir), AfterBranchDelete(co)])
    else w
  }

  /** The loop over the checked-out names, in order. */
  function DeleteEach(w: World, cfg: Config, names: seq<string>, ignored: seq<string>, remotes: seq<string>, guarded: bool): World
    decreases |names|
  {
    if |names| == 0 then w
    else DeleteEach(DeleteStep(w, cfg, names[0], ignored, remotes, guarded), cfg, names[1..], ignored, remotes, guarded)
  }

  /** `r` is `w` with some paths gone, nothing altered, and events appended. */
  predicate Shrinks(w: World, r: World) {
    && r.fs.Keys <= w.fs.Keys
    && (forall p | p in r.fs :: r.fs[p] == w.fs[p])
    && |w.trace| <= |r.trace|
    && r.trace[..|w.trace|] == w.trace
  }

  /**
   A deletion trace: every `rm -Rf` is immediately followed by the hook for
   the name its directory was derived from.
   */
  predicate DeletePairs(cfg: Config, t: seq<Event>)
    decreases |t|
  {
    |t| == 0
    || (|t| >= 2 && t[1].AfterBranchDelete? && t[0] == Remove(DeletionDir(cfg, t[1].branch))
        && DeletePairs(cfg, t[2..]))
  }

  /** Every hook fired between `w` and `r` is for a doomed name whose directory is now gone. */
  predicate HooksSound(w: World, r: World, cfg: Config, names: seq<string>, ignored: seq<string>, remotes: seq<string>, guarded: bool)
    requires |w.trace| <= |r.trace|
  {
    forall k | |w.trace| <= k < |r.trace| && r.trace[k].AfterBranchDelete? ::
      r.trace[k].branch in names
      && Doomed(w.fs, cfg, r.trace[k].branch, ignored, remotes, guarded)
      && DeletionDir(cfg, r.trace[k].branch) !in r.fs
  }

  /** No name has its hook fired twice. */
  predicate HooksDistinct(w: World, r: World)
    requires |w.trace| <= |r.trace|
  {
    forall i, j | |w.trace| <= i < j < |r.trace| && r.trace[i].AfterBranchDelete? && r.trace[j].AfterBranchDelete? ::
      r.trace[i].branch != r.trace[j].branch
  }

  /**
   The `i`-th name is doomed, and no earlier doomed name's directory holds
   its directory, so its marker is still there when the loop reaches it.
   */
  predicate Reached(fs: Fs, cfg: Config, names: seq<string>, i: int, ignored: seq<string>, remotes: seq<string>, guarded: bool) {
    && 0 <= i < |names|
    && Doomed(fs, cfg, names[i], ignored, remotes, guarded)
    && forall j | 0 <= j < i ::
         !(Doomed(fs, cfg, names[j], ignored, remotes, guarded) && InTree(DeletionDir(cfg, names[i]), DeletionDir(cfg, names[j])))
  }

  /** Every doomed name that the loop reaches with its marker intact has its hook fired. */
  predicate HooksComplete(w: World, r: World, cfg: Config, names: seq<string>, ignored: seq<string>, remotes: seq<string>, guarded: bool)
    requires |w.trace| <= |r.trace|
  {
    forall i | 0 <= i < |names| && Reached(w.fs, cfg, names, i, ignored, remotes, guarded) ::
      AfterBranchDelete(names[i]) in r.trace[|w.trace|..]
  }

  /** Every path removed lies under the directory of a doomed name. */
  predicate RemovesOnlyDoomed(w: World, r: World, cfg: Config, names: seq<string>, ignored: seq<string>, remotes: seq<string>, guarded: bool) {
    forall p | p in w.fs && p !in r.fs ::
      exists co | co in names :: Doomed(w.fs, cfg, co, ignored, remotes, guarded) && InTree(p, DeletionDir(cfg, co))
  }

  /** The directory of every doomed name is gone. */
  predicate RemovesAllDoomed(w: World, r: World, cfg: Config, names: seq<string>, ignored: seq<string>, remotes: seq<string>, guarded: bool) {
    forall co | co in names && Doomed(w.fs, cfg, co, ignored, remotes, guarded) :: DeletionDir(cfg, co) !in r.fs
  }

  /** Everything a pass over `names` from `w` to `r` guarantees. */
  predicate DeletionPass(w: World, r: World, cfg: Config, names: seq<string>, ignored: seq<string>, remotes: seq<string>, guarded: bool) {
    && Shrinks(w, r)
    && DeletePairs(cfg, r.trace[|w.trace|..])
    && HooksSound(w, r, cfg, names, ignored, remotes, guarded)
    && HooksDistinct(w, r)
    && HooksComplete(w, r, cfg, names, ignored, remotes, guarded)
    && RemovesOnlyDoomed(w, r, cfg, names, ignored, remotes, guarded)
    && RemovesAllDoomed(w, r, cfg, names, ignored, remotes, guarded)
  }

  lemma ShrinksTrans(a: World, b: World, c: World)
    requires Shrinks(a, b) && Shrinks(b, c)
    ensures Shrinks(a, c)
  {
    assert c.trace[..|a.trace|] == c.trace[..|b.trace|][..|a.trace|];
  }

  /** Being doomed depends on the filesystem only through the marker, which removal never adds. */
  lemma DoomedInLarger(w: World, r: World, cfg: Config, co: string, ignored: seq<string>, remotes: seq<string>, guarded: bool)
    requires Shrinks(w, r)
    requires Doomed(r.fs, cfg, co, ignored, remotes, guarded)
    ensures Doomed(w.fs, cfg, co, ignored, remotes, guarded)
  {
  }

  lemma DeleteStepShrinks(w: World, cfg: Config, co: string, ignored: seq<string>, remotes: seq<string>, guarded: bool)
    ensures Shrinks(w, DeleteStep(w, cfg, co, ignored, remotes, guarded))
  {
  }

  lemma {:induction false} DeleteEachShrinks(w: World, cfg: Config, names: seq<string>, ignored: seq<string>, remotes: seq<string>, guarded: bool)
    ensures Shrinks(w, DeleteEach(w, cfg, names, ignored, remotes, guarded))
    decreases |names|
  {
    if |names| > 0 {
      var w1 := DeleteStep(w, cfg, names[0], ignored, remotes, guarded);
      DeleteStepShrinks(w, cfg, names[0], ignored, remotes, guarded);
      DeleteEachShrinks(w1, cfg, names[1..], ignored, remotes, guarded);
      ShrinksTrans(w, w1, DeleteEach(w1, cfg, names[1..], ignored, remotes, guarded));
    }
  }

  lemma {:induction false} DeleteEachPairs(w: World, cfg: Config, names: seq<string>, ignored: seq<string>, remotes: seq<string>, guarded: bool)
    ensures Shrinks(w, DeleteEach(w, cfg, names, ignored, remotes, guarded))
    ensures DeletePairs(cfg, DeleteEach(w, cfg, names, ignored, remotes, guarded).trace[|w.trace|..])
    decreases |names|
  {
    DeleteEachShrinks(w, cfg, names, ignored, remotes, guarded);
    if |names| > 0 {
      var co := names[0];
      var w1 := DeleteStep(w, cfg, co, ignored, remotes, guarded);
      var r := DeleteEach(w1, cfg, names[1..], ignored, remotes, guarded);
      DeleteEachPairs(w1, cfg, names[1..], ignored, remotes, guarded);
      var rest := r.trace[|w1.trace|..];
      if Doomed(w.fs, cfg, co, ignored, remotes, guarded) {
        var pair := [Remove(DeletionDir(cfg, co)), AfterBranchDelete(co)];
        assert r.trace[..|w1.trace|] == w.trace + pair;
        assert r.trace[|w.trace|..] == pair + rest;
        assert (pair + rest)[2..] == rest;
      }
    }
  }

  lemma {:induction false} DeleteEachHooksSound(w: World, cfg: Config, names: seq<string>, ignored: seq<string>, remotes: seq<string>, guarded: bool)
    ensures Shrinks(w, DeleteEach(w, cfg, names, ignored, remotes, guarded))
    ensures HooksSound(w, DeleteEach(w, cfg, names, ignored, remotes, guarded), cfg, names, ignored, remotes, guarded)
    decreases |names|
  {
    DeleteEachShrinks(w, cfg, names, ignored, remotes, guarded);
    if |names| > 0 {
      var co := names[0];
      var w1 := DeleteStep(w, cfg, co, ignored, remotes, guarded);
      var r := DeleteEach(w1, cfg, names[1..], ignored, remotes, guarded);
      DeleteStepShrinks(w, cfg, co, ignored, remotes, guarded);
      DeleteEachHooksSound(w1, cfg, names[1..], ignored, remotes, guarded);
      forall k | |w1.trace| <= k < |r.trace| && r.trace[k].AfterBranchDelete?
        ensures Doomed(w.fs, cfg, r.trace[k].branch, ignored, remotes, guarded)
      {
        DoomedInLarger(w, w1, cfg, r.trace[k].branch, ignored, remotes, guarded);
      }
      if Doomed(w.fs, cfg, co, ignored, remotes, guarded) {
        assert r.trace[..|w1.trace|] == w1.trace;
        assert r.trace[|w.trace| + 1] == AfterBranchDelete(co);
        assert r.trace[|w.trace|].Remove?;
      }
    }
  }

  lemma {:induction false} DeleteEachHooksDistinct(w: World, cfg: Config, names: seq<string>, ignored: seq<string>, remotes: seq<string>, guarded: bool)
    ensures Shrinks(w, DeleteEach(w, cfg, names, ignored, remotes, guarded))
    ensures HooksDistinct(w, DeleteEach(w, cfg, names, ignored, remotes, guarded))
    decreases |names|
  {
    DeleteEachShrinks(w, cfg, names, ignored, remotes, guarded);
    if |names| > 0 {
      var co := names[0];
      var w1 := DeleteStep(w, cfg, co, ignored, remotes, guarded);
      var r := DeleteEach(w1, cfg, names[1..], ignored, remotes, guarded);
      DeleteStepShrinks(w, cfg, co, ignored, remotes, guarded);
      DeleteEachHooksDistinct(w1, cfg, names[1..], ignored, remotes, guarded);
      DeleteEachHooksSound(w1, cfg, names[1..], ignored, remotes, guarded);
      if Doomed(w.fs, cfg, co, ignored, remotes, guarded) {
        assert r.trace[..|w1.trace|] == w1.trace;
        assert r.trace[|w.trace| + 1] == AfterBranchDelete(co);
        assert r.trace[|w.trace|].Remove?;
        assert DeletionDir(cfg, co) !in w1.fs;
      }
    }
  }

  /** After the first step, a name reached from `w` is still reached, one place earlier. */
  lemma ReachedAfterStep(w: World, cfg: Config, names: seq<string>, i: int, ignored: seq<string>, remotes: seq<string>, guarded: bool)
    requires Reached(w.fs, cfg, names, i, ignored, remotes, guarded) && i > 0
    ensures Reached(DeleteStep(w, cfg, names[0], ignored, remotes, guarded).fs, cfg, names[1..], i - 1, ignored, remotes, guarded)
  {
    var w1 := DeleteStep(w, cfg, names[0], ignored, remotes, guarded);
    DeleteStepShrinks(w, cfg, names[0], ignored, remotes, guarded);
    assert DeletionDir(cfg, names[i]) in w1.fs;
    forall j | 0 <= j < i - 1
      ensures !(Doomed(w1.fs, cfg, names[1..][j], ignored, remotes, guarded)
                && InTree(DeletionDir(cfg, names[1..][i - 1]), DeletionDir(cfg, names[1..][j])))
    {
      if Doomed(w1.fs, cfg, names[j + 1], ignored, remotes, guarded) {
        DoomedInLarger(w, w1, cfg, names[j + 1], ignored, remotes, guarded);
      }
    }
  }

  lemma {:induction false} DeleteEachHooksComplete(w: World, cfg: Config, names: seq<string>, ignored: seq<string>, remotes: seq<string>, guarded: bool)
    ensures Shrinks(w, DeleteEach(w, cfg, names, ignored, remotes, guarded))
    ensures HooksComplete(w, DeleteEach(w, cfg, names, ignored, remotes, guarded), cfg, names, ignored, remotes, guarded)
    decreases |names|
  {
    DeleteEachShrinks(w, cfg, names, ignored, remotes, guarded);
    if |names| > 0 {
      var co := names[0];
      var w1 := DeleteStep(w, cfg, co, ignored, remotes, guarded);
      var r := DeleteEach(w1, cfg, names[1..], ignored, remotes, guarded);
      DeleteStepShrinks(w, cfg, co, ignored, remotes, guarded);
      DeleteEachHooksComplete(w1, cfg, names[1..], ignored, remotes, guarded);
      assert r.trace[..|w1.trace|] == w1.trace;
      forall i | 0 <= i < |names| && Reached(w.fs, cfg, names, i, ignored, remotes, guarded)
        ensures AfterBranchDelete(names[i]) in r.trace[|w.trace|..]
      {
        if i == 0 {
          assert r.trace[|w.trace|..][1] == r.trace[|w.trace| + 1] == AfterBranchDelete(co);
        } else {
          ReachedAfterStep(w, cfg, names, i, ignored, remotes, guarded);
          assert names[1..][i - 1] == names[i];
          InLongerSuffix(r.trace, |w.trace|, |w1.trace|, AfterBranchDelete(names[i]));
        }
      }
    }
  }

  lemma {:induction false} DeleteEachRemovesOnlyDoomed(w: World, cfg: Config, names: seq<string>, ignored: seq<string>, remotes: seq<string>, guarded: bool)
    ensures RemovesOnlyDoomed(w, DeleteEach(w, cfg, names, ignored, remotes, guarded), cfg, names, ignored, remotes, guarded)
    decreases |names|
  {
    if |names| > 0 {
      var co := names[0];
      var w1 := DeleteStep(w, cfg, co, ignored, remotes, guarded);
      var r := DeleteEach(w1, cfg, names[1..], ignored, remotes, guarded);
      DeleteStepShrinks(w, cfg, co, ignored, remotes, guarded);
      DeleteEachRemovesOnlyDoomed(w1, cfg, names[1..], ignored, remotes, guarded);
      forall p | p in w.fs && p !in r.fs
        ensures exists c | c in names :: Doomed(w.fs, cfg, c, ignored, remotes, guarded) && InTree(p, DeletionDir(cfg, c))
      {
        if p !in w1.fs {
          assert co in names;
        } else {
          var c :| c in names[1..] && Doomed(w1.fs, cfg, c, ignored, remotes, guarded) && InTree(p, DeletionDir(cfg, c));
          DoomedInLarger(w, w1, cfg, c, ignored, remotes, guarded);
          assert c in names;
        }
      }
    }
  }

  lemma {:induction false} DeleteEachRemovesAllDoomed(w: World, cfg: Config, names: seq<string>, ignored: seq<string>, remotes: seq<string>, guarded: bool)
    ensures RemovesAllDoomed(w, DeleteEach(w, cfg, names, ignored, remotes, guarded), cfg, names, ignored, remotes, guarded)
    decreases |names|
  {
    if |names| > 0 {
      var co := names[0];
      var w1 := DeleteStep(w, cfg, co, ignored, remotes, guarded);
      var r := DeleteEach(w1, cfg, names[1..], ignored, remotes, guarded);
      DeleteStepShrinks(w, cfg, co, ignored, remotes, guarded);
      DeleteEachShrinks(w1, cfg, names[1..], ignored, remotes, guarded);
      DeleteEachRemovesAllDoomed(w1, cfg, names[1..], ignored, remotes, guarded);
      forall c | c in names && Doomed(w.fs, cfg, c, ignored, remotes, guarded)
        ensures DeletionDir(cfg, c) !in r.fs
      {
        var dir := DeletionDir(cfg, c);
        if c == co || dir !in w1.fs {
          assert dir !in w1.fs;
        } else {
          assert c in names[1..];
          assert Doomed(w1.fs, cfg, c, ignored, remotes, guarded);
        }
      }
    }
  }

  lemma DeleteEachPass(w: World, cfg: Config, names: seq<string>, ignored: seq<string>, remotes: seq<string>, guarded: bool)
    ensures DeletionPass(w, DeleteEach(w, cfg, names, ignored, remotes, guarded), cfg, names, ignored, remotes, guarded)
  {
    DeleteEachPairs(w, cfg, names, ignored, remotes, guarded);
    DeleteEachHooksSound(w, cfg, names, ignored, remotes, guarded);
    DeleteEachHooksDistinct(w, cfg, names, ignored, remotes, guarded);
    DeleteEachHooksComplete(w, cfg, names, ignored, remotes, guarded);
    DeleteEachRemovesOnlyDoomed(w, cfg, names, ignored, remotes, guarded);
    DeleteEachRemovesAllDoomed(w, cfg, names, ignored, remotes, guarded);
  }

  /** The early return: nothing checked out, or no remote known (Gitphull.php:517-519). */
  predicate GuardHolds(checkedOut: seq<string>, remotes: seq<string>) {
    |checkedOut| == 0 || |remotes| == 0
  }

  /** The loop with the ignore and remote lists sanitized first (Gitphull.php:520-525). */
  function Sweep(w: World, cfg: Config, checkedOut: seq<string>, remotes: seq<string>, notManaged: seq<string>, guarded: bool): (r: World)
    ensures GuardHolds(checkedOut, remotes) ==> r == w
    ensures !GuardHolds(checkedOut, remotes) ==>
              DeletionPass(w, r, cfg, checkedOut, SanitizeAll(cfg.invalid, notManaged), SanitizeAll(cfg.invalid, remotes), guarded)
  {
    if GuardHolds(checkedOut, remotes) then w
    else
      var ignored := SanitizeAll(cfg.invalid, notManaged);
      var remotesS := SanitizeAll(cfg.invalid, remotes);
      DeleteEachPass(w, cfg, checkedOut, ignored, remotesS, guarded);
      DeleteEach(w, cfg, checkedOut, ignored, remotesS, guarded)
  }

  /** `deleteOldBranches` as written. */
  function DeleteOldBranchesAsWritten(w: World, cfg: Config, checkedOut: seq<string>, remotes: seq<string>, notManaged: seq<string>): (r: World)
    ensures GuardHolds(checkedOut, remotes) ==> r == w
    ensures !GuardHolds(checkedOut, remotes) ==>
              DeletionPass(w, r, cfg, checkedOut, SanitizeAll(cfg.invalid, notManaged), SanitizeAll(cfg.invalid, remotes), false)
  {
    Sweep(w, cfg, checkedOut, remotes, notManaged, false)
  }

  /**
   `deleteOldBranches` with the directory derived for a stale name skipped
   when removing it would remove the master working copy; the master
   working copy then always survives.
   */
  function DeleteOldBranches(w: World, cfg: Config, checkedOut: seq<string>, remotes: seq<string>, notManaged: seq<string>): (r: World)
    ensures GuardHolds(checkedOut, remotes) ==> r == w
    ensures !GuardHolds(checkedOut, remotes) ==>
              DeletionPass(w, r, cfg, checkedOut, SanitizeAll(cfg.invalid, notManaged), SanitizeAll(cfg.invalid, remotes), true)
    ensures MasterDir(cfg) in w.fs ==> MasterDir(cfg) in r.fs
  {
    Sweep(w, cfg, checkedOut, remotes, notManaged, true)
  }

  /** Past the guard, a doomed name's directory is removed. */
  lemma DoomedRemoved(w: World, cfg: Config, checkedOut: seq<string>, remotes: seq<string>, notManaged: seq<string>, co: string)
    requires |remotes| > 0 && co in checkedOut
    requires Doomed(w.fs, cfg, co, SanitizeAll(cfg.invalid, notManaged), SanitizeAll(cfg.invalid, remotes), true)
    ensures DeletionDir(cfg, co) !in DeleteOldBranches(w, cfg, checkedOut, remotes, notManaged).fs
  {
    DeleteEachRemovesAllDoomed(w, cfg, checkedOut, SanitizeAll(cfg.invalid, notManaged), SanitizeAll(cfg.invalid, remotes), true);
  }

  /** As written, too, past the guard a doomed name's directory is removed. */
  lemma DoomedRemovedAsWritten(w: World, cfg: Config, checkedOut: seq<string>, remotes: seq<string>, notManaged: seq<string>, co: string)
    requires |remotes| > 0 && co in checkedOut
    requires Doomed(w.fs, cfg, co, SanitizeAll(cfg.invalid, notManaged), SanitizeAll(cfg.invalid, remotes), false)
    ensures DeletionDir(cfg, co) !in DeleteOldBranchesAsWritten(w, cfg, checkedOut, remotes, notManaged).fs
  {
    DeleteEachRemovesAllDoomed(w, cfg, checkedOut, SanitizeAll(cfg.invalid, notManaged), SanitizeAll(cfg.invalid, remotes), false);
  }

  /**
   As written, a checked-out name that is not the master's but sanitizes
   to it (a foreign directory "ma-in" next to master "main") derives the
   master directory itself, which carries the marker, and removes it.
   */
  lemma ReferenceCopyDeletedAsWritten(w: World, cfg: Config, co: string, remotes: seq<string>, notManaged: seq<string>)
    requires Sanitize(cfg.invalid, co) == cfg.master
    requires |remotes| > 0
    requires co !in SanitizeAll(cfg.invalid, notManaged) && co !in SanitizeAll(cfg.invalid, remotes)
    requires Marked(w.fs, MasterDir(cfg))
    ensures MasterDir(cfg) !in DeleteOldBranchesAsWritten(w, cfg, [co], remotes, notManaged).fs
    ensures AfterBranchDelete(co) in DeleteOldBranchesAsWritten(w, cfg, [co], remotes, notManaged).trace
  {
    var ignored := SanitizeAll(cfg.invalid, notManaged);
    var remotesS := SanitizeAll(cfg.invalid, remotes);
    ReplaceAllSelf(MasterDir(cfg), cfg.master);
    assert DeletionDir(cfg, co) == MasterDir(cfg);
    assert Doomed(w.fs, cfg, co, ignored, remotesS, false);
    EachSingle(w, cfg, co, ignored, remotesS, false);
    assert DeleteOldBranchesAsWritten(w, cfg, [co], remotes, notManaged)
        == DeleteEach(w, cfg, [co], ignored, remotesS, false);
  }

  /**
   With an empty prefix, a stale name that sanitizes to the empty string (a
   scanned `-` with the default invalid characters) derives the location
   itself, spelled with its trailing slash. Unless the location is the root,
   which `rm` refuses to remove, that directory holds the master
   working copy: as written, its removal takes the master copy with it, and
   the corrected deletion leaves everything as it was.
   */
  lemma EmptyNameRemovesMasterAsWritten(w: World, cfg: Config, co: string, remotes: seq<string>, notManaged: seq<string>)
    requires Sanitize(cfg.invalid, co) == "" && cfg.prefix == "" && |cfg.master| > 0
    requires |cfg.location| > 0 && cfg.location[|cfg.location| - 1] == '/' && Unslashed(cfg.location) != ""
    requires forall i | 0 <= i < |cfg.location + cfg.prefix| :: !MatchesAt(MasterDir(cfg), i, cfg.master)
    requires |remotes| > 0
    requires co !in SanitizeAll(cfg.invalid, notManaged) && co !in SanitizeAll(cfg.invalid, remotes)
    requires Marked(w.fs, cfg.location) && MasterDir(cfg) in w.fs
    ensures MasterDir(cfg) !in DeleteOldBranchesAsWritten(w, cfg, [co], remotes, notManaged).fs
    ensures DeleteOldBranches(w, cfg, [co], remotes, notManaged) == w
  {
    var ignored := SanitizeAll(cfg.invalid, notManaged);
    var remotesS := SanitizeAll(cfg.invalid, remotes);
    BranchDirWhenMasterOccursOnce(cfg, "");
    assert DeletionDir(cfg, co) == cfg.location;
    assert MasterDir(cfg)[..|cfg.location|] == cfg.location;
    SlashedDirHoldsExtensions(MasterDir(cfg), cfg.location);
    EachSingle(w, cfg, co, ignored, remotesS, false);
    EachSingle(w, cfg, co, ignored, remotesS, true);
  }

  /** When no checked-out name derives a directory holding the master copy, the guard changes nothing. */
  lemma {:induction false} DeleteEachGuardIrrelevant(w: World, cfg: Config, names: seq<string>, ignored: seq<string>, remotes: seq<string>)
    requires forall co | co in names :: !CoversMaster(cfg, DeletionDir(cfg, co))
    ensures DeleteEach(w, cfg, names, ignored, remotes, true) == DeleteEach(w, cfg, names, ignored, remotes, false)
    decreases |names|
  {
    if |names| > 0 {
      var w1 := DeleteStep(w, cfg, names[0], ignored, remotes, true);
      assert w1 == DeleteStep(w, cfg, names[0], ignored, remotes, false);
      DeleteEachGuardIrrelevant(w1, cfg, names[1..], ignored, remotes);
    }
  }

  /**
   The corrected deletion differs from the one as written only when a
   checked-out name derives a directory holding the master working copy.
   */
  lemma DeleteOldBranchesAgree(w: World, cfg: Config, checkedOut: seq<string>, remotes: seq<string>, notManaged: seq<string>)
    requires forall co | co in checkedOut :: !CoversMaster(cfg, DeletionDir(cfg, co))
    ensures DeleteOldBranches(w, cfg, checkedOut, remotes, notManaged) == DeleteOldBranchesAsWritten(w, cfg, checkedOut, remotes, notManaged)
  {
    if !GuardHolds(checkedOut, remotes) {
      DeleteEachGuardIrrelevant(w, cfg, checkedOut, SanitizeAll(cfg.invalid, notManaged), SanitizeAll(cfg.invalid, remotes));
    }
  }

  /** A pass over one name is one step. */
  lemma EachSingle(w: World, cfg: Config, co: string, ignored: seq<string>, remotes: seq<string>, guarded: bool)
    ensures DeleteEach(w, cfg, [co], ignored, remotes, guarded) == DeleteStep(w, cfg, co, ignored, remotes, guarded)
  {
    assert [co][1..] == [];
  }
}
