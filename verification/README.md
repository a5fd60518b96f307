# Gitphull branch reconciliation, modelled in Dafny

Gitphull keeps one working copy per remote branch of a git repository. All
copies sit under a base location. The master branch's copy lives in
`location + prefix + master`. Every other branch `b` gets the master
directory with the master's name replaced by `b`, after `b` has had its
invalid path characters removed. One pass of `run()` does four things:

1. It scans the base location for the branch directories that already
   exist.
2. It clones or updates the master copy and reads `git branch -r` from it.
3. It deletes every managed branch directory whose branch has left the
   remote and that carries `managedbranch.txt`.
4. It clones or updates every remote branch that is not ignored and that
   passes the allow list. Each step fires the hooks (`afterBranchClone`,
   `beforeBranchUpdate`, ...) that subclasses override.

The project models that core as pure functions over immutable data:

- **The filesystem.** An abstract filesystem is a map from directory path
  to `Dir(hasGit, hasMarker)`. Every operation is a transition on a
  `World`, which pairs that map with a trace of `Event`s: the git commands
  issued and the hooks fired. A directory that cannot be created ends the
  pass with `Aborted(world, error)`, as the exception in `run()` does.
- **Strings** (`strings.dfy`). PHP's `str_replace` is modelled as a
  left-to-right replacement of non-overlapping occurrences, and `trim` with
  its default character set. `preg_split` on a single character is
  modelled as `Split`.
- **Path sanitizer** (`sanitizer.dfy`).
- **Configuration and its setters** (`settings.dfy`).
- **Local scan** (`localscan.dfy`).
- **Remote-list parser** (`remotes.dfy`).
- **Deletion planner** (`deletion.dfy`).
- **Create/update planner** (`checkout.dfy`).
- **The whole pass** (`reconcile.dfy`).
- **Extractors** (`annotations.dfy`). These are the GitHub repository
  path, the Pivotal Tracker issue number and the commit hash. Each regular
  expression is modelled by what PCRE returns for it: the leftmost match,
  with greedy repetition.
- **Live-log parser** (`livelog.dfy`). `liveDiff` splits `git log` output
  into commit records. It has a loop method, `ParseLiveLog`, and a
  reference definition, `LiveDiff`, that the method is proved to compute.

Three places where the source misbehaves are listed under "## Findings". In
each, the model keeps the code as written next to a corrected version.
`Reconcile.RunAsWritten` is `run()` as written; `Reconcile.Run` is the same
pass with the corrected versions, and `Reconcile.RunMatchesAsWritten` shows
that the two agree whenever no finding's input occurs.

### Where the code and its description differ

The code is followed. Take a branch whose name holds an invalid character,
such as `feature-x` when the prefix is empty. `klone` clones it into the
sanitized directory `featurex`, but touches the marker under the
unsanitized name `feature-x` (Gitphull.php:476 versus 480). The marker only
appears when a later pass updates the branch. Until then,
`deleteOldBranches` will not remove the directory.
`Checkout.FirstCloneOfSanitizedNameUnmarked` proves this.

## Model

| member | source | states |
|---|---|---|
| Sanitizer.DefaultInvalidChars | Gitphull.php:96 | The default invalid entries are the single characters `-`, `_` and `/`. |
| Sanitizer.SanitizeIsWithout | Gitphull.php:520-525 | With single-character entries, `str_replace($invalid, '', $x)` equals removing every occurrence of those characters from `$x`. |
| Sanitizer.SanitizeRemovesInvalid | Gitphull.php:535 | A character is in the sanitized name iff it is in the name and is not an invalid character. |
| Sanitizer.SanitizeIdempotent | Gitphull.php:563 | With single-character invalid entries, such as the default ones, sanitizing an already sanitized name changes nothing. |
| Sanitizer.SanitizeEmpty | Gitphull.php:524 | The empty name sanitizes to the empty name. |
| Sanitizer.MultiCharEntryNotIdempotent | Gitphull.php:96 | A configured entry longer than one character is a substring needle. Sanitizing is then not idempotent: `aabb` gives `ab`, which gives the empty string. |
| Strings.ReplaceSingleCharIsWithout | Gitphull.php:521 | `str_replace` of a one-character needle by the empty string removes exactly that character. |
| Strings.Trim | Gitphull.php:496 | `trim` returns the slice of the input that starts and ends with a non-whitespace character. Only PHP's six trim characters are cut from each end. |
| Strings.Split | Gitphull.php:494 | `preg_split("/\n/", ...)` gives at least one part. No part holds a newline, and joining the parts with newlines gives the input back. |
| Strings.SplitJoin | Gitphull.php:494 | Splitting newline-free parts joined by newlines gives the parts back. |
| Settings.SetLocation | Gitphull.php:291-297 | The location always ends in `/`. It is the argument unchanged when that already ends in `/`, and otherwise the argument with one `/` added. |
| Settings.SetLocationIdempotent | Gitphull.php:291-297 | Setting a location that was already normalised changes nothing. |
| Settings.SetIgnoreBranches | Gitphull.php:314-325 | A single name becomes a one-element list and an array is kept. A name is ignored iff it was passed. |
| Settings.ListKey | Gitphull.php:333 | A string array key names a list slot only when it is a canonical decimal numeral. |
| Settings.SetOnlyBranches | Gitphull.php:327-337 | The allow list loses the element at index `masterBranch`, and only when the master's name is a canonical index within the list. Otherwise the list is unchanged. |
| Settings.MasterStaysInAllowList | Gitphull.php:333 | A master name that holds a non-digit is never removed from the allow list, because the unset is by key. |
| Settings.BranchDirWhenMasterOccursOnce | Gitphull.php:568 | When the master's name occurs in the master directory only as its last part, a branch directory is location, prefix and sanitized name. |
| Settings.BranchDirReplacesEveryOccurrence | Gitphull.php:540 | When the master's name is also a component of the location, that component is replaced as well. |
| Workspace.RemoveTree | Gitphull.php:546 | `rm -Rf $dir` removes exactly the directory and every path below it, whether or not `$dir` ends in slashes: `/srv/` is the tree of `/srv`. Every other path is left unchanged. |
| Workspace.SlashedDirHoldsExtensions | Gitphull.php:546 | A directory spelled with a trailing slash holds every path it is a prefix of, so `rm -Rf /srv/` removes `/srv/main`. |
| Workspace.EnsureDir | Gitphull.php:582-590 | Creation fails iff the directory is missing and cannot be created; on failure nothing changes. Otherwise exactly the directory is added, fresh, with everything else unchanged. |
| Workspace.TouchMarker | Gitphull.php:465-467 | Touching the marker sets it on that directory and changes nothing else. |
| LocalScan.CheckedOutBranches | Gitphull.php:408-428 | The scan reports at most one name per listing entry. A name is reported iff some entry produces it. The entry must be a directory, start with the prefix, and not have its prefix-stripped name ignored. When an allow list is set, the entry's full directory name must be in it. The name is the trimmed, prefix-stripped entry name. |
| LocalScan.CheckedOutBranchesAppend | Gitphull.php:411-426 | The scan reports entries in listing order: scanning two listings one after the other gives their reports concatenated. |
| LocalScan.AllowListMatchesDirectoryName | Gitphull.php:422 | The allow list is matched against the full directory name. A directory `prefix+b` is dropped when the allow list holds only `b`, and kept when it holds `prefix+b`. |
| Remotes.KeepBranchLines | Gitphull.php:495-503 | No kept name contains a space, and every kept name is trimmed. A name is kept iff it is a cleaned line, that is `trim(str_replace('origin/', '', line))`, without a space. |
| Remotes.ParseRemoteListing | Gitphull.php:489-506 | `getBranches` as written. Its names are the space-free cleaned lines of the trimmed output, split on newlines. |
| Remotes.BlankListingYieldsEmptyName | Gitphull.php:494 | Empty or blank output parses to the one-element list holding the empty name. |
| Remotes.RemoteBranches | Gitphull.php:494-505 | The corrected parser. Its names are the non-empty names of `getBranches`, so blank output gives no remotes. |
| Remotes.CleanListingLine | Gitphull.php:496 | Cleaning a line `  origin/b`, or `origin/b`, gives back `b`. |
| Remotes.KeepListingLines | Gitphull.php:495-503 | Parsing the indented lines git prints for a list of branches gives that list back, in order. |
| Remotes.ListingRoundTrip | Gitphull.php:489-506 | Parsing the output git prints for a non-empty list of plain branch names gives that list back. |
| Remotes.RemoteBranchesRoundTrip | Gitphull.php:489-506 | The same round trip holds for the corrected parser when no name is empty. |
| Remotes.SymbolicLineHasSpace | Gitphull.php:497-499 | The cleaned symbolic line `  origin/HEAD -> origin/master` is `HEAD -> master`, which holds a space. |
| Remotes.RemoteBranchesAgree | Gitphull.php:489-506 | When `getBranches` reads no empty name, the corrected parser reads the same list. |
| Remotes.SymbolicLineDropped | Gitphull.php:499-502 | A symbolic line contributes no name: the parse of the listing is the parse of the remaining lines. |
| Deletion.DeleteEachShrinks | Gitphull.php:527-552 | The deletion loop only removes paths. It changes no remaining directory and only appends to the trace. |
| Deletion.DeleteEachPairs | Gitphull.php:544-548 | The events the loop appends come in pairs. Each pair is an `rm -Rf` of the derived directory followed by `afterBranchDelete` for the name it was derived from. |
| Deletion.DeleteEachHooksSound | Gitphull.php:527-548 | `afterBranchDelete` fires only for a checked-out name that meets all of the following, and after it fires that name's directory is gone: its raw name is in neither sanitized list, its derived directory carries the marker, and, in the corrected version, that directory does not contain the master copy. |
| Deletion.DeleteEachHooksComplete | Gitphull.php:527-548 | `afterBranchDelete` fires for every checked-out name that meets the deletion conditions, unless an earlier name in the loop already removed a directory holding its directory. |
| Deletion.DeleteEachHooksDistinct | Gitphull.php:544-548 | `afterBranchDelete` fires at most once per name, even when the name is checked out twice. |
| Deletion.DeleteEachRemovesOnlyDoomed | Gitphull.php:540-547 | Every removed path lies under the derived directory of a name that meets those conditions. |
| Deletion.DeleteEachRemovesAllDoomed | Gitphull.php:527-547 | The derived directory of every name that meets those conditions is removed. |
| Deletion.Sweep | Gitphull.php:517-525 | With no checked-out names or no remotes nothing happens. Otherwise the loop runs against the sanitized ignore and remote lists and makes a full deletion pass. |
| Deletion.DeleteOldBranchesAsWritten | Gitphull.php:515-553 | `deleteOldBranches` as written: the guard, and otherwise a full deletion pass with no protection for the master copy. |
| Deletion.DeleteOldBranches | Gitphull.php:515-553 | The corrected version. It is the same pass, but it never removes a directory containing the master copy, with or without a trailing slash, so the master copy survives. |
| Deletion.DeleteEachGuardIrrelevant | Gitphull.php:527-548 | When no checked-out name derives a directory holding the master copy, the loop with the correction does exactly what the loop as written does. |
| Deletion.DeleteOldBranchesAgree | Gitphull.php:515-553 | The corrected deletion equals `deleteOldBranches` as written unless a checked-out name derives a directory holding the master copy. |
| Deletion.DoomedRemoved | Gitphull.php:544-547 | In the corrected version, past the guard, the derived directory of a checked-out name that meets the deletion conditions is gone afterwards. |
| Deletion.DoomedRemovedAsWritten | Gitphull.php:544-547 | As written, past the guard, the derived directory of a checked-out name that meets the deletion conditions is gone afterwards. |
| Deletion.ReferenceCopyDeletedAsWritten | Gitphull.php:535-548 | As written, a stale checked-out name that sanitizes to the master's name removes the master directory and fires `afterBranchDelete`. |
| Deletion.EmptyNameRemovesMasterAsWritten | Gitphull.php:535-546 | With an empty prefix, a stale name that sanitizes to the empty string derives the location itself. When the location carries the marker, the deletion as written removes the master copy with it, and the corrected deletion changes nothing. |
| Checkout.Klone | Gitphull.php:475-482 | The clone gives the directory a `.git`. The marker is touched at the unsanitized path, so the directory is marked iff it already was or is that path. The trace gains the clone and the touch. |
| Checkout.Update | Gitphull.php:451-468 | The update fires `beforeBranchUpdate`, then resets, checks out, pulls and touches the marker in the directory. The directory ends up marked, and nothing else changes. |
| Checkout.PruneAndFetch | Gitphull.php:566-580 | Prune and fetch run for the master branch only, in the master directory. |
| Checkout.CloneBranch | Gitphull.php:593-597 | The clone path appends the clone, the touch and `afterBranchClone`. Assuming every clone succeeds, it leaves a `.git` in the directory. |
| Checkout.UpdateBranch | Gitphull.php:598-604 | The update path appends its seven events and leaves the directory marked, with its `.git` unchanged. |
| Checkout.UpdateEventsCount | Gitphull.php:454 | The update path fires `beforeBranchUpdate` twice: once in `updateOrClone` (line 600) and again in `update`. |
| Checkout.UpdateOrClone | Gitphull.php:559-606 | The call aborts iff the branch directory is missing and cannot be created. On success the directory has a `.git`, and the only new path is the directory. No path other than the directory and the unsanitized marker path changes. |
| Checkout.UpdateOrCloneTrace | Gitphull.php:566-604 | Prune happens iff the branch is the master. On success: a clone and `afterBranchClone` happen iff there was no `.git` before, `afterBranchUpdate` fires iff there was one, exactly one terminal hook fires, and an update fires `beforeBranchUpdate` twice. |
| Checkout.UpdateOrCloneMarker | Gitphull.php:593-604 | After an update the directory carries the marker. After a clone it carries the marker iff it already did or it is the unsanitized marker path. |
| Checkout.FirstCloneOfSanitizedNameUnmarked | Gitphull.php:476-480 | The first clone of a non-master branch whose name changes under sanitizing leaves its directory cloned but without the marker. |
| Checkout.Selection | Gitphull.php:435-441 | A remote is handed on iff it is not ignored and, when an allow list is set, is in it. |
| Checkout.CheckoutOrder | Gitphull.php:434-445 | When `checkoutBranches` completes, `updateOrClone` has finished for exactly the selected remotes, in remote-list order. |
| Checkout.CheckoutAbortsAtNext | Gitphull.php:582-590 | When `checkoutBranches` aborts, a proper prefix of the selected remotes has finished, and the error names the directory of the next one. |
| Checkout.CheckoutCreatesOnlySelected | Gitphull.php:434-445 | Every directory `checkoutBranches` creates is the directory of a selected remote. |
| Checkout.CheckoutProvidesWorkingCopies | Gitphull.php:434-445 | Assuming every clone succeeds, when `checkoutBranches` completes every selected remote has a working copy. |
| Reconcile.RunConfig | Gitphull.php:154 | `run()` adds the master to the ignore list. It keeps every ignored name and changes neither the master directory nor the allow list. |
| Reconcile.CurrentBranches | Gitphull.php:149-151 | A leading empty scanned name is dropped, and the scan is otherwise kept. |
| Reconcile.MasterStage | Gitphull.php:156-168 | The master stage aborts iff the master directory is missing and cannot be created. Otherwise the master copy has a `.git` and the marker. The master directory is the only path created. |
| Reconcile.DeleteStage | Gitphull.php:175 | The deletion step only removes paths and appends to the trace. In the corrected pass it leaves the master copy exactly as it was. |
| Reconcile.BranchStage | Gitphull.php:170-191 | Deletion, checkout and `afterRun` only append to the trace. With no live-diff location set, a completed pass ends with `afterRun`. |
| Reconcile.Pass | Gitphull.php:143-197 | A pass over a given remote list only appends to the trace. With no live-diff location set, a completed pass ends with `afterRun`. |
| Reconcile.RunAsWritten | Gitphull.php:143-197 | `run()` as written, reading remotes with `getBranches` and deleting with `deleteOldBranches` as written, only appends to the trace. With no live-diff location set, a completed pass ends with `afterRun`. |
| Reconcile.Run | Gitphull.php:143-197 | The corrected pass, with the corrected parser and the corrected deletion, only appends to the trace. With no live-diff location set, a completed pass ends with `afterRun`. |
| Reconcile.RunMatchesAsWritten | Gitphull.php:143-197 | The corrected pass is `run()` as written whenever `getBranches` reads no empty name and no checked-out name derives a directory holding the master copy. |
| Reconcile.DeletionKeepsMaster | Gitphull.php:175 | The corrected deletion leaves the master copy exactly as it was. |
| Reconcile.RunKeepsMasterCopy | Gitphull.php:143-197 | A completed corrected pass leaves the master copy cloned and marked. |
| Reconcile.BranchStageAsWrittenLosesMaster | Gitphull.php:170-178 | As written, a stale checked-out name that sanitizes to the master's name removes the master copy, and the checkout does not bring it back unless a selected remote's directory is the master's. |
| Reconcile.RunAsWrittenChecksOutSelected | Gitphull.php:170-178 | Assuming every clone succeeds, after a completed `run()` as written every selected name `getBranches` read has a working copy, the empty name included. |
| Reconcile.RunChecksOutSelected | Gitphull.php:170-178 | Assuming every clone succeeds, after a completed corrected pass every selected non-empty remote branch has a working copy. |
| Reconcile.RunAsWrittenCreatesOnlySelected | Gitphull.php:153-178 | The only directories `run()` as written creates are the master directory and the directories of selected names `getBranches` read. |
| Reconcile.RunCreatesOnlySelected | Gitphull.php:153-178 | The only directories the corrected pass creates are the master directory and the directories of selected non-empty remote branches. |
| Reconcile.BlankListingDefeatsGuard | Gitphull.php:494-519 | With the parser and the deletion as written, blank remote output does not trigger the empty-remote guard. Every marked, non-empty, non-ignored checked-out name then loses its directory. |
| Reconcile.BlankListingDeletesNothing | Gitphull.php:517-519 | With the corrected parser, blank remote output deletes nothing. |
| Annotations.IssueId | Gitphull.php:717-720 | A story number is found iff some `#` is followed by 6 or more digits. Its value is that of the leftmost match's digits: the first 10, or all of them when fewer. |
| Annotations.IssueIdAt | Gitphull.php:857-860 | The number comes from the leftmost `#` that starts a match. |
| Annotations.IssueIdRoundTrip | Gitphull.php:857-860 | For a line made of text without `#`, then `#`, then 6 to 10 digits, then a non-digit, the number is the value of those digits. |
| Annotations.IssueIdTakesTenDigits | Gitphull.php:717 | From a longer digit run only the first ten digits are taken. |
| Annotations.CommitHash | Gitphull.php:732-734 | A hash is found iff `commit ` followed by 40 lowercase hex digits occurs in the line. It is those 40 digits at the leftmost occurrence. |
| Annotations.CommitHashRoundTrip | Gitphull.php:732-734 | `commit ` followed by a 40-digit hash gives that hash back, whatever follows. |
| Annotations.ShortHashIgnored | Gitphull.php:732 | A hash shorter than 40 digits is not found. |
| Annotations.Capture | Gitphull.php:645 | `preg_match` fails iff no position starts a match. Otherwise the capture is that of the leftmost match. |
| Annotations.GreedyEndAtSuffix | Gitphull.php:645 | The greedy `(.*)` runs to the last `.git` on the line. |
| Annotations.RepoPath | Gitphull.php:643-656 | The https capture is used unless it is missing or falsy. Otherwise the ssh capture is used, with `/` in front. When neither applies, the result is the falsy https capture or null. |
| Annotations.HttpsRepoPath | Gitphull.php:645-648 | `https://github.com<path>.git` gives `<path>`. |
| Annotations.SshIsNotHttps | Gitphull.php:645-650 | An ssh URL `git@github.com:<path>.git` does not match the https pattern. |
| Annotations.SshRepoPath | Gitphull.php:649-654 | `git@github.com:<path>.git` gives `/<path>`. |
| LiveLog.Open | Gitphull.php:837-849 | A commit line opens a record whose hash is the line with `commit ` removed. The record is live iff that hash is the live hash, and it has no other fields. |
| LiveLog.LowerAscii | Gitphull.php:869 | `strtolower` lowers every character, position by position. |
| LiveLog.Story | Gitphull.php:855-863 | A line yields a story number iff the tracker is configured and the line holds an issue number greater than zero. |
| LiveLog.Tag | Gitphull.php:863-873 | A story number sets `pivId`. The story's state becomes the status unless it is empty. Nothing else changes. |
| LiveLog.Annotate | Gitphull.php:879-891 | A line holding `Author` sets the author. Otherwise a line holding `Merge` sets the merge. Otherwise a line starting with `Date` is appended to the date. Any other line replaces an empty or falsy body, or is appended to it. |
| LiveLog.CommitLines | Gitphull.php:824 | A line is a commit line iff it contains `commit` anywhere. |
| LiveLog.LiveDiff | Gitphull.php:799-820 | The log is cleared iff the trimmed live hash is falsy. It is left unassigned iff the hash is set and `git log` printed nothing. |
| LiveLog.PendingStep | Gitphull.php:822-892 | The loop's state after one more line is one step of the loop from the state before it. |
| LiveLog.Stream | Gitphull.php:822-894 | The loop computes, line by line, the records closed so far and the open record. |
| LiveLog.Push | Gitphull.php:827-835 | Closing a record appends it to the log unless it is empty, or it is a merge whose hash is not the live hash. |
| LiveLog.ParseLiveLog | Gitphull.php:787-903 | The method computes the reference definition of the live log. |
| LiveLog.RecordsFollowCommitLines | Gitphull.php:822-849 | There is one record per commit line, plus the record for lines before the first. That first record has no hash. The k-th commit line's record has that line's hash and is live iff the hash is the live hash. |
| LiveLog.LiveOnlyAtLiveHash | Gitphull.php:839-842 | Only a record whose hash is the live hash is live. |
| LiveLog.ClosedFilters | Gitphull.php:827-835 | Closed records are kept iff they are neither empty nor discarded merges. |
| LiveLog.LogBound | Gitphull.php:811-901 | The log has at most one entry more than there are commit lines. |
| LiveLog.LogEntriesSound | Gitphull.php:827-901 | No entry is empty, and a live entry carries the live hash. |
| LiveLog.MergesOnlyLast | Gitphull.php:896-901 | Only the last entry can be a merge that is not at the live hash. |
| LiveLog.FinalMergeKept | Gitphull.php:896-901 | A merge record that ends the log is kept, although it is not at the live hash. |
| LiveLog.MergeDroppedWhenClosed | Gitphull.php:827-829 | The same merge record is dropped once another commit line follows it. |

## Left out

- Running shell commands and git (`exec`, `system`, `shell_exec`, Gitphull.php:391-394, 456-467, 477-482, 573-578, 704-707, 814-815). Their effects are abstract events on the filesystem map. The model assumes every git command succeeds. The source does not check exit codes, so a failed `git clone` still gets its marker touched and its `afterBranchClone` fired (Gitphull.php:477-482, 595-597), which leaves a marked directory without `.git`. `Checkout.Klone`, `Checkout.CloneBranch`, `Checkout.UpdateOrClone`, `Checkout.CheckoutProvidesWorkingCopies`, `Reconcile.MasterStage`, `Reconcile.RunKeepsMasterCopy`, `Reconcile.RunChecksOutSelected` and `Reconcile.RunAsWrittenChecksOutSelected` conclude that a `.git` exists only under this assumption.
- Directory scanning (`scandir`, `is_dir`). The listing is an input of both passes, `Reconcile.RunAsWritten` and `Reconcile.Run`.
- The output of `git branch -r` and of `git log -30`. Both are inputs, so the limit of 30 commits is not modelled.
- The live-hash download (`file_get_contents`, Gitphull.php:799) is an input string.
- The Pivotal Tracker lookup (`getPivInfo`, Gitphull.php:764-779) is network I/O. The model takes a map from story number to state as input. The full response, stored as `$item['piv']`, is not kept.
- `applyPermissions` (Gitphull.php:612-637) changes owners and permissions in the OS, which the model does not track.
- Console output (`msg`) and the `exit` after a caught exception. An exception becomes an `Aborted` outcome.
- Reconcile.RunAsWritten: like `Reconcile.Run`, `Reconcile.Pass` and `Reconcile.BranchStage`, it models a configuration with no live-diff file location, the default `null` (Gitphull.php:108). When `setLiveDiffFileLocation` (Gitphull.php:236) has set one and the live log is not empty, `run()` calls `writeLiveDiff` (Gitphull.php:184-186), which ends with `exit` (Gitphull.php:933), so `afterRun` never fires. The statement that a completed pass ends with `afterRun` holds only without a live-diff location.
- The HTML assembly of `generateBranchDiffs` (Gitphull.php:669-753) is left out, except its two extractors. So are `writeLiveDiff`, the `liveLog.php` template and `afterRun`'s overridable body. Both passes omit the two report steps and, with no live-diff location set, end with the `afterRun` event.
- `substr($line, 0, 15)` at Gitphull.php:846 is left out, because it changes no stored field.
- PHP's loose comparison `==`/`!=` and `in_array`. These would compare two numeric strings as numbers. The model compares names and hashes as strings. This affects `Checkout.Selection`, `Deletion.DeleteEachHooksSound`, `LiveLog.Open` and `LiveLog.Push`.
- LocalScan.CheckedOutBranches: `strpos($t, $this->prefix) === 0` is modelled with PHP 8 semantics, where the default empty prefix (Gitphull.php:60) matches every entry, `.` and `..` included. Under PHP 7 an empty needle makes `strpos` return false, so the scan reports nothing and the deletion step always stops at its guard.
- Workspace.InTree: paths are strings. Trailing slashes are resolved, but `.` and `..` components, doubled slashes inside a path and symbolic links are not. GNU `rm` refuses a path that ends in `.` or `..`, and the model finds no marker under such a spelling, so it fires no `afterBranchDelete` where the source fires one after a refused `rm`. GNU `rm -Rf` also refuses the root `/` (its preserve-root default), while `Workspace.RemoveTree` of `/`, or of any all-slash spelling, removes every absolute path. `Deletion.EmptyNameRemovesMasterAsWritten` therefore requires a location other than the root.
- Reconcile.Run: the corrected pass, not `run()` as written. `Reconcile.RunKeepsMasterCopy`, `Reconcile.DeletionKeepsMaster`, `Reconcile.RunChecksOutSelected` and `Reconcile.RunCreatesOnlySelected` are stated of it. `run()` as written is `Reconcile.RunAsWritten`, which can lose the master copy (`Reconcile.BranchStageAsWrittenLosesMaster`) and, on blank remote output, creates the directory of the empty name (`Reconcile.RunAsWrittenCreatesOnlySelected`).
- Reconcile.RunKeepsMasterCopy: holds of the corrected pass only. As written, a stale name that sanitizes to the master's name removes the master copy (`Reconcile.BranchStageAsWrittenLosesMaster`).
- Reconcile.DeletionKeepsMaster: holds of the corrected deletion only. `Deletion.ReferenceCopyDeletedAsWritten` and `Deletion.EmptyNameRemovesMasterAsWritten` show the deletion as written removing the master copy.
- Reconcile.RunChecksOutSelected: stated of the corrected pass over the non-empty remote names. `Reconcile.RunAsWrittenChecksOutSelected` states it of `run()` as written.
- Reconcile.RunCreatesOnlySelected: stated of the corrected pass over the non-empty remote names. `Reconcile.RunAsWrittenCreatesOnlySelected` states it of `run()` as written, where blank output adds the directory of the empty name.
- Sanitizer.SanitizeIdempotent: proved only for single-character invalid entries, which include the default. `Sanitizer.MultiCharEntryNotIdempotent` shows it fails otherwise.
- Sanitizer.SanitizeRemovesInvalid: proved only for single-character invalid entries, which include the default. `Sanitizer.MultiCharEntryNotIdempotent` shows why the property fails otherwise.
- Settings.SetOnlyBranches: arrays are modelled as lists with keys 0, 1, 2, .... An associative argument to the setters is not modelled.
- Quoting of names in shell commands, and the `.git` directory's contents.

## Findings

| source | as written | input that shows it | evidently intended | confidence | as-written member | corrected member |
|---|---|---|---|---|---|---|
| Gitphull.php:494, 517 | `preg_split` of the trimmed output of `git branch -r` returns `['']` when the output is empty or blank. `count($remotes)` is then 1, so the empty-remote guard of `deleteOldBranches` never fires. | `git branch -r` prints nothing, for example because the command failed. A managed branch `feature` is checked out and marked. The pass deletes `feature`'s directory. | Blank output means no remotes are known, and nothing is deleted, as `Reconcile.BlankListingDeletesNothing` proves of the corrected parser. | not executed | Reconcile.BlankListingDefeatsGuard | Remotes.RemoteBranches |
| Gitphull.php:535-546 | With an empty prefix, a stale name that sanitizes to the empty string derives `location + prefix`, the location itself with its trailing slash. `rm -Rf` of it removes every working copy, the master's included. | Master `main`, location `/srv/`, empty prefix, default invalid characters, and a directory `_` in `/srv/` that is not a remote branch. `/srv/managedbranch.txt` exists, which an earlier pass with blank remote output creates when it checks out the empty name. | The master working copy is never removed by the deletion of another branch. | not executed | Deletion.EmptyNameRemovesMasterAsWritten | Deletion.DeleteOldBranches |
| Gitphull.php:535-548 | The directory of a checked-out name comes from the sanitized name substituted into the master directory. A stale name that sanitizes to the master's name therefore gives the master directory itself, which is marked. | Master `main`, empty prefix, and a directory `ma-in` that is not a remote branch. `rm -Rf` runs on the `main` working copy. | The master working copy is never removed by the deletion of another branch. | not executed | Deletion.ReferenceCopyDeletedAsWritten | Deletion.DeleteOldBranches |
