/**
 The local scan: `getCheckedOutBranches` (Gitphull.php:408-428) reads the
 directory listing of the base location and returns the branch names that
 the directories stand for. The listing (what `scandir` and `is_dir` would
 report, "." and ".." included) is an input.
 */
module LocalScan {
  import opened Strings

  /** One entry of the base location: its name and whether it is a directory. */
  datatype DirEntry = DirEntry(name: string, isDir: bool)

  /** `str_replace($this->prefix, '', $t)`: every occurrence of the prefix is removed, not just the leading one. */
  function BranchOfDir(prefix: string, name: string): string {
    ReplaceAll(name, prefix, "")
  }

  /**
   The tests an entry passes to be reported (lines 412-424): a directory,
   whose name starts with the prefix, whose prefix-stripped name is not
   ignored, and, when an allow list is set, whose FULL directory name (not
   the stripped name) is in the allow list.
   */
  predicate Candidate(e: DirEntry, prefix: string, ignore: seq<string>, only: seq<string>) {
    && e.isDir
    && StartsWith(e.name, prefix)
    && BranchOfDir(prefix, e.name) !in ignore
    && (|only| == 0 || e.name in only)
  }

  /**
   `getCheckedOutBranches`: the trimmed branch name of every candidate
   entry, in listing order. A name is reported exactly when some candidate
   entry yields it.
   */
  function CheckedOutBranches(listing: seq<DirEntry>, prefix: string, ignore: seq<string>, only: seq<string>): (r: seq<string>)
    ensures |r| <= |listing|
    ensures forall b :: b in r <==>
              exists e :: e in listing && Candidate(e, prefix, ignore, only) && b == Trim(BranchOfDir(prefix, e.name))
  {
    if |listing| == 0 then []
    else
      HeadTail(listing);
      assert forall x :: x in listing <==> x == listing[0] || x in listing[1..];
      Report(listing[0], prefix, ignore, only) + CheckedOutBranches(listing[1..], prefix, ignore, only)
  }

  /** What one entry contributes to the scan. */
  function Report(e: DirEntry, prefix: string, ignore: seq<string>, only: seq<string>): seq<string> {
    if Candidate(e, prefix, ignore, only) then [Trim(BranchOfDir(prefix, e.name))] else []
  }

  /** The scan keeps listing order: scanning two listings one after the other is scanning their concatenation. */
  lemma {:induction false} CheckedOutBranchesAppend(l1: seq<DirEntry>, l2: seq<DirEntry>, prefix: string, ignore: seq<string>, only: seq<string>)
    ensures CheckedOutBranches(l1 + l2, prefix, ignore, only)
         == CheckedOutBranches(l1, prefix, ignore, only) + CheckedOutBranches(l2, prefix, ignore, only)
  {
    if |l1| == 0 {
      assert l1 + l2 == l2;
      assert CheckedOutBranches(l1, prefix, ignore, only) == [];
    } else {
      CheckedOutBranchesAppend(l1[1..], l2, prefix, ignore, only);
      AppendTail(l1, l2);
      var head := Report(l1[0], prefix, ignore, only);
      assert CheckedOutBranches(l1 + l2, prefix, ignore, only)
          == head + CheckedOutBranches(l1[1..] + l2, prefix, ignore, only);
      assert CheckedOutBranches(l1, prefix, ignore, only) == head + CheckedOutBranches(l1[1..], prefix, ignore, only);
      Assoc(head, CheckedOutBranches(l1[1..], prefix, ignore, only), CheckedOutBranches(l2, prefix, ignore, only));
    }
  }

  /**
   The allow list is compared with the full directory name: with a non-empty
   prefix, allowing the branch name itself hides its directory, and only the
   prefixed directory name lets it through.
   */
  lemma AllowListMatchesDirectoryName(prefix: string, b: string)
    requires |prefix| > 0
    ensures CheckedOutBranches([DirEntry(prefix + b, true)], prefix, [], [b]) == []
    ensures Trim(BranchOfDir(prefix, prefix + b)) in CheckedOutBranches([DirEntry(prefix + b, true)], prefix, [], [prefix + b])
  {
    var e := DirEntry(prefix + b, true);
    assert |prefix + b| != |b|;
    assert !Candidate(e, prefix, [], [b]);
    assert StartsWith(e.name, prefix) by {
      assert e.name[..|prefix|] == prefix;
    }
    assert Candidate(e, prefix, [], [prefix + b]);
  }
}
