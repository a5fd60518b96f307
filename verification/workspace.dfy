/**
 The abstract filesystem the reconciler acts on and the trace of what it
 does. A directory is observed only through two facts: whether it holds a
 `.git` working copy and whether it holds the `managedbranch.txt` marker.
 Git commands and the overridable hooks are recorded as events; their
 effect on the two facts is applied by the operations that issue them.
 */
module Workspace {
  import opened Strings

  datatype Dir = Dir(hasGit: bool, hasMarker: bool)

  type Fs = map<string, Dir>

  datatype Event =
    | Prune(dir: string)                      // git remote prune origin
    | Fetch(dir: string)                      // git fetch
    | Clone(branch: string, dir: string)      // git clone --branch=<branch> <repo> <dir>
    | Reset(dir: string)                      // git reset --hard
    | Checkout(dir: string, branch: string)   // git checkout <branch>
    | Pull(dir: string)                       // cd <dir> ; git pull
    | Touch(dir: string)                      // touch <dir>/managedbranch.txt
    | Remove(dir: string)                     // rm -Rf <dir>
    | AfterRun
    | BeforeBranchUpdate(branch: string)
    | AfterBranchUpdate(branch: string)
    | AfterBranchClone(branch: string)
    | AfterBranchDelete(branch: string)

  datatype World = World(fs: Fs, trace: seq<Event>)

  /** The exception `run()` catches: a directory that `mkdir` could not create. */
  datatype Error = DirectoryCreateError(dir: string)

  /**
   The result of a step that may throw: the world reached, and the error
   when the step threw (commands already issued keep their effect).
   */
  datatype Outcome = Done(world: World) | Aborted(world: World, error: Error)

  /** `file_exists($dir . "/managedbranch.txt")` */
  predicate Marked(fs: Fs, dir: string) {
    dir in fs && fs[dir].hasMarker
  }

  /**
   `p` without its trailing slashes: `/srv/` and `/srv` name the same
   directory.
   */
  function Unslashed(p: string): (r: string)
    ensures |r| <= |p| && p[..|r|] == r
    ensures forall i | |r| <= i < |p| :: p[i] == '/'
    ensures |r| == 0 || r[|r| - 1] != '/'
    decreases |p|
  {
    if |p| > 0 && p[|p| - 1] == '/' then Unslashed(p[..|p| - 1]) else p
  }

  /**
   `p` is `dir` itself or lies below it, as `rm -Rf` resolves `dir`:
   trailing slashes do not matter, so `/srv/` is the same tree as `/srv`
   and holds `/srv/main`. Other spellings (`.`, `..`, doubled slashes) are
   not resolved.
   */
  predicate InTree(p: string, dir: string) {
    p == dir || (|dir| > 0 && (Unslashed(p) == Unslashed(dir) || StartsWith(p, Unslashed(dir) + "/")))
  }

  /** A directory spelled with a trailing slash holds every path it is a prefix of. */
  lemma SlashedDirHoldsExtensions(p: string, dir: string)
    requires |dir| > 0 && dir[|dir| - 1] == '/' && StartsWith(p, dir)
    ensures InTree(p, dir)
  {
    var u := Unslashed(dir);
    assert dir[..|u| + 1] == u + "/";
    assert p[..|u| + 1] == dir[..|u| + 1];
  }

  /** `rm -Rf $dir`: the directory and everything below it disappear. */
  function RemoveTree(fs: Fs, dir: string): (r: Fs)
    ensures forall p :: p in r <==> p in fs && !InTree(p, dir)
    ensures forall p | p in r :: r[p] == fs[p]
  {
    map p | p in fs && !InTree(p, dir) :: fs[p]
  }

  /**
   `if(!file_exists($dir)) mkdir($dir)` with the failure turned into the
   error the source throws: creation fails exactly for the paths in
   `unwritable`. A new directory holds neither `.git` nor the marker.
   */
  function EnsureDir(w: World, dir: string, unwritable: set<string>): (o: Outcome)
    ensures o.Done? <==> dir in w.fs || dir !in unwritable
    ensures o.Aborted? ==> o.world == w && o.error == DirectoryCreateError(dir)
    ensures o.world.trace == w.trace
    ensures o.Done? ==> o.world.fs.Keys == w.fs.Keys + {dir}
    ensures forall p | p in w.fs :: p in o.world.fs && o.world.fs[p] == w.fs[p]
    ensures dir !in w.fs && o.Done? ==> o.world.fs[dir] == Dir(false, false)
  {
    if dir in w.fs then Done(w)
    else if dir in unwritable then Aborted(w, DirectoryCreateError(dir))
    else Done(w.(fs := w.fs[dir := Dir(false, false)]))
  }

  /**
   `touch $dir/managedbranch.txt`: the marker appears when the directory
   exists; when it does not, touch fails and nothing changes.
   */
  function TouchMarker(fs: Fs, dir: string): (r: Fs)
    ensures r.Keys == fs.Keys
    ensures dir in fs ==> r[dir] == fs[dir].(hasMarker := true)
    ensures forall p | p in fs && p != dir :: r[p] == fs[p]
  {
    if dir in fs then fs[dir := fs[dir].(hasMarker := true)] else fs
  }

  /** The trace of `r` continues the trace of `w`. */
  predicate Extends(w: World, r: World) {
    |w.trace| <= |r.trace| && r.trace[..|w.trace|] == w.trace
  }

  /** The events issued between `w` and `r`. */
  function Issued(w: World, r: World): (t: seq<Event>)
    requires Extends(w, r)
    ensures r.trace == w.trace + t
  {
    r.trace[|w.trace|..]
  }

  lemma IssuedChain(a: World, b: World, c: World)
    requires Extends(a, b) && Extends(b, c)
    ensures Extends(a, c) && Issued(a, c) == Issued(a, b) + Issued(b, c)
  {
    assert c.trace[..|a.trace|] == c.trace[..|b.trace|][..|a.trace|];
  }

  /**
   Commands only ever add: no directory disappears and neither a working
   copy nor a marker is ever lost.
   */
  predicate Grows(a: Fs, b: Fs) {
    forall p | p in a ::
      p in b && (a[p].hasGit ==> b[p].hasGit) && (a[p].hasMarker ==> b[p].hasMarker)
  }

  lemma GrowsTrans(a: Fs, b: Fs, c: Fs)
    requires Grows(a, b) && Grows(b, c)
    ensures Grows(a, c)
  {
  }

  /** `file_exists($dir . '/.git')` */
  predicate HasGit(fs: Fs, dir: string) {
    dir in fs && fs[dir].hasGit
  }
}
