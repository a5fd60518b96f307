/**
 The reconciler's configuration (Gitphull.php:41-96) and the setters that
 normalise it, plus the two path derivations every operation shares: the
 reference ("master") working copy and the directory of any other branch.
 */
module Settings {
  import opened Strings
  import opened Optional

  datatype Config = Config(
    repo: string,             // remote repository URL
    location: string,         // base directory, ending in '/' after SetLocation
    master: string,           // name of the reference branch
    prefix: string,           // prefix of every branch directory name
    ignore: seq<string>,      // branch names never checked out
    only: seq<string>,        // when non-empty, the only branch names checked out
    invalid: seq<string>)     // entries stripped from names to make paths

  /** `setLocation`: append '/' unless the directory already ends with one. */
  function SetLocation(dir: string): (r: string)
    ensures |r| > 0 && r[|r| - 1] == '/'
    ensures |dir| > 0 && dir[|dir| - 1] == '/' ==> r == dir
    ensures (|dir| == 0 || dir[|dir| - 1] != '/') ==> r == dir + "/"
  {
    if |dir| > 0 && dir[|dir| - 1] == '/' then dir else dir + "/"
  }

  /** Normalising a location a second time changes nothing. */
  lemma SetLocationIdempotent(dir: string)
    ensures SetLocation(SetLocation(dir)) == SetLocation(dir)
  {
  }

  /** A setter argument: PHP accepts either one name or an array of names. */
  datatype BranchList = One(name: string) | Many(names: seq<string>)

  /** `if(!is_array($branches)) $branches = array($branches);` */
  function AsList(arg: BranchList): (r: seq<string>)
    ensures arg.One? ==> r == [arg.name]
    ensures arg.Many? ==> r == arg.names
  {
    match arg
    case One(n) => [n]
    case Many(ns) => ns
  }

  /** `setIgnoreBranches`: the ignore list becomes the argument, as a list. */
  function SetIgnoreBranches(arg: BranchList): (r: seq<string>)
    ensures forall b :: b in r <==> (arg.One? && b == arg.name) || (arg.Many? && b in arg.names)
  {
    AsList(arg)
  }

  /**
   The integer array key PHP makes of a string used as a key: only a
   canonical decimal ("0", or digits without a leading zero) becomes an
   integer; any other string stays a string key and names no list slot.
   (A canonical negative number also names no slot of a list.)
   */
  function ListKey(s: string): (k: Option<nat>)
    ensures k.Some? ==> |s| > 0 && AllDigits(s)
    ensures k.None? ==> |s| == 0 || !AllDigits(s) || (s[0] == '0' && |s| > 1)
  {
    if |s| > 0 && AllDigits(s) && (s[0] != '0' || |s| == 1) then Some(DecimalValue(s)) else None
  }

  /**
   `setOnlyBranches`: `unset($this->onlyBranches[$this->masterBranch])`
   removes by KEY, so the master's name is dropped only when it happens to be
   a canonical list index; a name like "master" stays in the allow list.
   */
  function SetOnlyBranches(arg: BranchList, master: string): (r: seq<string>)
    ensures ListKey(master).None? ==> r == AsList(arg)
    ensures ListKey(master).Some? && ListKey(master).value >= |AsList(arg)| ==> r == AsList(arg)
    ensures ListKey(master).Some? && ListKey(master).value < |AsList(arg)| ==>
              |r| == |AsList(arg)| - 1
              && r[..ListKey(master).value] == AsList(arg)[..ListKey(master).value]
              && r[ListKey(master).value..] == AsList(arg)[ListKey(master).value + 1..]
  {
    var names := AsList(arg);
    match ListKey(master)
    case Some(k) =>
      if k < |names| then names[..k] + names[k + 1..] else names
    case None => names
  }

  /** A master name holding any non-digit is never removed from the allow list. */
  lemma MasterStaysInAllowList(names: seq<string>, master: string)
    requires master in names
    requires exists i | 0 <= i < |master| :: !IsDigit(master[i])
    ensures master in SetOnlyBranches(Many(names), master)
  {
  }

  /** The master working copy: `$this->location . $this->prefix . $this->masterBranch`. */
  function MasterDir(cfg: Config): string {
    cfg.location + cfg.prefix + cfg.master
  }

  /**
   The directory of a branch whose sanitized name is `branchPath`:
   `str_replace($this->masterBranch, $branchPath, $this->masterDir)`, which
   substitutes EVERY occurrence of the master's name in the master directory
   (Gitphull.php:540, 568, 676).
   */
  function BranchDir(cfg: Config, branchPath: string): string {
    ReplaceAll(MasterDir(cfg), cfg.master, branchPath)
  }

  /**
   When the master's name occurs in the master directory only as its last
   component, a branch directory is the location, prefix and branch path.
   */
  lemma BranchDirWhenMasterOccursOnce(cfg: Config, branchPath: string)
    requires |cfg.master| > 0
    requires forall i | 0 <= i < |cfg.location + cfg.prefix| :: !MatchesAt(MasterDir(cfg), i, cfg.master)
    ensures BranchDir(cfg, branchPath) == cfg.location + cfg.prefix + branchPath
  {
    var base := cfg.location + cfg.prefix;
    var md := MasterDir(cfg);
    ReplaceAllCopiesPrefix(md, cfg.master, branchPath, |base|);
    assert md[..|base|] == base;
    assert md[|base|..] == cfg.master;
    ReplaceAllLeadingMatch(cfg.master, cfg.master, branchPath, "");
    assert cfg.master + "" == cfg.master;
  }

  /**
   When the master's name is also a component of the location, that
   occurrence is replaced too: with location "/srv/master/" and master
   "master", branch path "feature" lands in "/srv/feature/feature", not in
   "/srv/master/feature".
   */
  lemma BranchDirReplacesEveryOccurrence(cfg: Config, root: string, branchPath: string)
    requires |cfg.master| > 0 && '/' !in cfg.master && !Occurs(root, cfg.master)
    requires cfg.location == root + "/" + cfg.master + "/" && cfg.prefix == ""
    ensures BranchDir(cfg, branchPath) == root + "/" + branchPath + "/" + branchPath
  {
    ReplaceComponentsAfterRoot(root, cfg.master, branchPath);
    assert MasterDir(cfg) == root + "/" + (cfg.master + "/" + cfg.master);
  }

  lemma ReplaceComponentsAfterRoot(root: string, n: string, rep: string)
    requires |n| > 0 && '/' !in n && !Occurs(root, n)
    ensures ReplaceAll(root + "/" + (n + "/" + n), n, rep) == root + "/" + rep + "/" + rep
  {
    var tail := n + "/" + n;
    var md := root + "/" + tail;
    var k := |root|;
    assert md[k] == '/';
    assert md[..k] == root;
    assert md[k + 1..] == tail;
    ReplaceAllSplitsAt(md, n, rep, k);
    ReplaceTwoComponents(n, rep);
    ReplaceAllAbsent(root, n, rep);
    assert ReplaceAll(md, n, rep) == root + ['/'] + (rep + "/" + rep);
  }

  lemma ReplaceTwoComponents(n: string, rep: string)
    requires |n| > 0 && '/' !in n
    ensures ReplaceAll(n + "/" + n, n, rep) == rep + "/" + rep
  {
    assert ReplaceAll(n, n, rep) == rep by {
      ReplaceAllLeadingMatch(n, n, rep, "");
      assert n + "" == n;
    }
    var tail := n + "/" + n;
    assert tail[|n|] == '/';
    ReplaceAllSplitsAt(tail, n, rep, |n|);
    assert tail[..|n|] == n && tail[|n| + 1..] == n;
  }
}
