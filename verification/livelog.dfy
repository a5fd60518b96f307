/**
 The line-splitting loop of `liveDiff` (Gitphull.php:787-903): the output of
 `git log` on the master working copy is cut into commit records, the record
 whose hash is the one production reports is flagged live, and merge
 records other than the live one are dropped when the next commit begins.
 The live hash and the Pivotal Tracker story states are inputs; fetching
 them is not modelled.
 */
module LiveLog {
  import opened Strings
  import opened Optional
  import opened Annotations

  /**
   One entry of `$log`. Each field stands for one array key: `None` is an
   absent key, and `live` is present exactly when it is `true`.
   */
  datatype Commit = Commit(
    hash: Option<string>,
    live: bool,
    author: Option<string>,
    merge: Option<string>,
    date: Option<string>,
    body: Option<string>,
    issue: Option<nat>,
    status: Option<string>)

  /** The empty array `array()`; `count($item)` is zero exactly for it. */
  const Blank: Commit := Commit(None, false, None, None, None, None, None, None)

  /** Whether story lookups are configured, and the state the tracker reports per story. */
  datatype Tracker = Tracker(enabled: bool, states: map<nat, string>)

  /** What `liveDiff` leaves in `$this->liveLog`. */
  datatype LiveLogState =
    | Cleared                        // `null`: the live hash is falsy
    | Unchanged                      // `git log` printed nothing: the property is not assigned
    | Log(entries: seq<Commit>)

  // ---------------------------------------------------------------------
  // One line at a time
  // ---------------------------------------------------------------------

  /** `strpos($line, 'commit') !== false`: any line containing `commit` starts a record. */
  predicate IsCommitLine(line: string) {
    Occurs(line, "commit")
  }

  /** `str_replace('commit ', '', $line)`. */
  function HashOf(line: string): string {
    ReplaceAll(line, "commit ", "")
  }

  /** The record a commit line opens. */
  function Open(line: string, liveHash: string): (c: Commit)
    ensures c.hash == Some(HashOf(line))
    ensures c.live <==> HashOf(line) == liveHash
    ensures c == Blank.(hash := c.hash, live := c.live)
  {
    Blank.(hash := Some(HashOf(line)), live := HashOf(line) == liveHash)
  }

  function LowerChar(c: char): char {
    if 'A' <= c <= 'Z' then (c as int + 32) as char else c
  }

  /** PHP `strtolower` on ASCII letters. */
  function LowerAscii(s: string): (r: string)
    ensures |r| == |s| && forall i | 0 <= i < |s| :: r[i] == LowerChar(s[i])
  {
    seq(|s|, i requires 0 <= i < |s| => LowerChar(s[i]))
  }

  /** `trim(strtolower($pivInfo['current_state']))`; an unknown story reads as `null`, that is "". */
  function StoryState(t: Tracker, id: nat): string {
    Trim(LowerAscii(if id in t.states then t.states[id] else ""))
  }

  /** The story number a line carries, when lookups are enabled and the number is positive. */
  function Story(t: Tracker, line: string): (r: Option<nat>)
    ensures r.Some? <==> t.enabled && IssueId(line).Some? && IssueId(line).value > 0
    ensures r.Some? ==> r == IssueId(line)
  {
    if t.enabled && IssueId(line).Some? && IssueId(line).value > 0 then IssueId(line) else None
  }

  /** The story part of a non-commit line: `pivId`, and `status` when it is not empty. */
  function Tag(c: Commit, t: Tracker, line: string): (r: Commit)
    ensures Story(t, line).None? ==> r == c
    ensures Story(t, line).Some? ==> r.issue == Story(t, line)
    ensures Story(t, line).Some? ==>
              r.status == (if StoryState(t, Story(t, line).value) == "" then c.status
                           else Some(StoryState(t, Story(t, line).value)))
    ensures r == c.(issue := r.issue, status := r.status)
  {
    match Story(t, line)
    case None => c
    case Some(id) =>
      var state := StoryState(t, id);
      c.(issue := Some(id), status := if state == "" then c.status else Some(state))
  }

  /**
   A non-commit line: tag the story, then file the line as the author, the
   merge marker, part of the date or part of the body, in that order of
   precedence.
   */
  function Annotate(c: Commit, t: Tracker, line: string): (r: Commit)
    ensures r.hash == c.hash && r.live == c.live
    ensures r.issue == Tag(c, t, line).issue && r.status == Tag(c, t, line).status
    ensures Occurs(line, "Author") ==>
              r.author == Some(line) && r.merge == c.merge && r.date == c.date && r.body == c.body
    ensures !Occurs(line, "Author") && Occurs(line, "Merge") ==>
              r.merge == Some(line) && r.author == c.author && r.date == c.date && r.body == c.body
    ensures !Occurs(line, "Author") && !Occurs(line, "Merge") && StartsWith(line, "Date") ==>
              r.date == Some(c.date.GetOr("") + line) && r.author == c.author && r.merge == c.merge
              && r.body == c.body
    ensures !Occurs(line, "Author") && !Occurs(line, "Merge") && !StartsWith(line, "Date") ==>
              r.author == c.author && r.merge == c.merge && r.date == c.date
              && r.body == Some(if c.body.None? || Falsy(c.body.value) then line else c.body.value + line)
  {
    var d := Tag(c, t, line);
    if Occurs(line, "Author") then d.(author := Some(line))
    else if Occurs(line, "Merge") then d.(merge := Some(line))
    else if StartsWith(line, "Date") then d.(date := Some(d.date.GetOr("") + line))
    else if d.body.None? || Falsy(d.body.value) then d.(body := Some(line))
    else d.(body := Some(d.body.value + line))
  }

  /** `!empty($item['merge']) && $item['github'] != $liveHash`. */
  predicate Discarded(c: Commit, liveHash: string) {
    c.merge.Some? && c.hash != Some(liveHash)
  }

  /** What a commit line pushes for the record it closes: the record, unless it is a dropped merge or empty. */
  function Close(c: Commit, liveHash: string): seq<Commit> {
    if Discarded(c, liveHash) || c == Blank then [] else [c]
  }

  // ---------------------------------------------------------------------
  // The whole log
  // ---------------------------------------------------------------------

  /** The commit lines of the log, in order. */
  function CommitLines(lines: seq<string>): (r: seq<string>)
    ensures |r| <= |lines|
    ensures forall l <- r :: IsCommitLine(l) && l in lines
    ensures forall l <- lines :: IsCommitLine(l) ==> l in r
  {
    if |lines| == 0 then []
    else
      var last := lines[|lines| - 1];
      CommitLines(lines[..|lines| - 1]) + (if IsCommitLine(last) then [last] else [])
  }

  /**
   Every record, unfiltered: the preamble before the first commit line, then
   one record per commit line, each built from its commit line and the
   non-commit lines after it.
   */
  function Records(lines: seq<string>, liveHash: string, t: Tracker): (rs: seq<Commit>)
    ensures |rs| >= 1
  {
    if |lines| == 0 then [Blank]
    else
      var rs := Records(lines[..|lines| - 1], liveHash, t);
      var last := lines[|lines| - 1];
      if IsCommitLine(last) then rs + [Open(last, liveHash)]
      else rs[..|rs| - 1] + [Annotate(rs[|rs| - 1], t, last)]
  }

  /** The records that commit lines close and push, in order. */
  function Closed(rs: seq<Commit>, liveHash: string): (r: seq<Commit>) {
    if |rs| == 0 then []
    else Closed(rs[..|rs| - 1], liveHash) + Close(rs[|rs| - 1], liveHash)
  }

  /** The log: every record but the last as a commit line closes it, and the last one pushed unfiltered when not empty. */
  function Survivors(rs: seq<Commit>, liveHash: string): seq<Commit>
    requires |rs| >= 1
  {
    var last := rs[|rs| - 1];
    Closed(rs[..|rs| - 1], liveHash) + (if last == Blank then [] else [last])
  }

  /** What `liveDiff` stores, given the fetched live hash and the `git log` lines. */
  function LiveDiff(rawHash: string, lines: seq<string>, t: Tracker): (r: LiveLogState)
    ensures r.Cleared? <==> Falsy(Trim(rawHash))
    ensures r.Unchanged? <==> !Falsy(Trim(rawHash)) && |lines| == 0
  {
    var liveHash := Trim(rawHash);
    if Falsy(liveHash) then Cleared
    else if |lines| == 0 then Unchanged
    else Log(Survivors(Records(lines, liveHash, t), liveHash))
  }

  /** The pushed records and the open record after the given lines. */
  function Pending(lines: seq<string>, liveHash: string, t: Tracker): (seq<Commit>, Commit) {
    var rs := Records(lines, liveHash, t);
    (Closed(rs[..|rs| - 1], liveHash), rs[|rs| - 1])
  }

  /** One more line: a commit line closes the open record and opens its own; any other line extends it. */
  function Advance(p: (seq<Commit>, Commit), line: string, liveHash: string, t: Tracker): (seq<Commit>, Commit) {
    if IsCommitLine(line) then (p.0 + Close(p.1, liveHash), Open(line, liveHash))
    else (p.0, Annotate(p.1, t, line))
  }

  lemma PendingStep(lines: seq<string>, line: string, liveHash: string, t: Tracker)
    ensures Pending(lines + [line], liveHash, t) == Advance(Pending(lines, liveHash, t), line, liveHash, t)
  {
    assert (lines + [line])[..|lines|] == lines;
    var rs := Records(lines, liveHash, t);
    if IsCommitLine(line) {
      assert (rs + [Open(line, liveHash)])[..|rs|] == rs;
      assert rs == rs[..|rs| - 1] + [rs[|rs| - 1]];
    } else {
      var rs' := rs[..|rs| - 1] + [Annotate(rs[|rs| - 1], t, line)];
      assert rs'[..|rs'| - 1] == rs[..|rs| - 1];
    }
  }

  /** The streaming loop of `liveDiff`: one pass over the lines, holding the open record in `item`. */
  method Stream(lines: seq<string>, liveHash: string, t: Tracker) returns (log: seq<Commit>, item: Commit)
    ensures (log, item) == Pending(lines, liveHash, t)
  {
    log, item := [], Blank;
    var i := 0;
    while i < |lines|
      invariant 0 <= i <= |lines|
      invariant (log, item) == Pending(lines[..i], liveHash, t)
    {
      var line := lines[i];
      ghost var before := (log, item);
      if IsCommitLine(line) {
        log := Push(log, item, liveHash);
        item := Open(line, liveHash);
      } else {
        item := Annotate(item, t, line);
      }
      assert (log, item) == Advance(before, line, liveHash, t);
      PendingStep(lines[..i], line, liveHash, t);
      TakeSnoc(lines, i);
      i := i + 1;
    }
    assert lines[..i] == lines;
  }

  /** `liveDiff` after the live hash is fetched: clear, leave alone, or store the streamed log with its last record. */
  method ParseLiveLog(rawHash: string, lines: seq<string>, t: Tracker) returns (r: LiveLogState)
    ensures r == LiveDiff(rawHash, lines, t)
  {
    var liveHash := Trim(rawHash);
    if Falsy(liveHash) {
      return Cleared;
    }
    if |lines| == 0 {
      return Unchanged;
    }
    var log, item := Stream(lines, liveHash, t);
    if item != Blank {
      log := log + [item];
    }
    return Log(log);
  }

  /** A commit line closes the open record: a dropped merge is emptied, and a non-empty record is appended. */
  method Push(log: seq<Commit>, item: Commit, liveHash: string) returns (log': seq<Commit>)
    ensures log' == log + Close(item, liveHash)
  {
    var closing := item;
    if Discarded(closing, liveHash) {
      closing := Blank;
    }
    log' := log;
    if closing != Blank {
      log' := log' + [closing];
    }
  }

  // ---------------------------------------------------------------------
  // Properties
  // ---------------------------------------------------------------------

  /**
   `rs` is the preamble, which has no hash, followed by one record per
   commit line of `cs`: the k-th carries that line minus `commit `, flagged
   live exactly when that is the live hash.
   */
  predicate FollowsCommitLines(rs: seq<Commit>, cs: seq<string>, liveHash: string) {
    && |rs| == 1 + |cs|
    && rs[0].hash.None?
    && forall k | 0 <= k < |cs| ::
         rs[k + 1].hash == Some(HashOf(cs[k])) && (rs[k + 1].live <==> HashOf(cs[k]) == liveHash)
  }

  /** A commit line adds its own record after the others. */
  lemma FollowsAfterCommitLine(rs: seq<Commit>, cs: seq<string>, line: string, liveHash: string)
    requires FollowsCommitLines(rs, cs, liveHash)
    ensures FollowsCommitLines(rs + [Open(line, liveHash)], cs + [line], liveHash)
  {
    var rs', cs' := rs + [Open(line, liveHash)], cs + [line];
    forall k | 0 <= k < |cs'|
      ensures rs'[k + 1].hash == Some(HashOf(cs'[k])) && (rs'[k + 1].live <==> HashOf(cs'[k]) == liveHash)
    {
      if k < |cs| {
        assert rs'[k + 1] == rs[k + 1] && cs'[k] == cs[k];
      }
    }
  }

  /** Any other line rewrites the open record without touching its hash or liveness. */
  lemma FollowsAfterOtherLine(rs: seq<Commit>, cs: seq<string>, c: Commit, liveHash: string)
    requires FollowsCommitLines(rs, cs, liveHash)
    requires c.hash == rs[|rs| - 1].hash && c.live == rs[|rs| - 1].live
    ensures FollowsCommitLines(rs[..|rs| - 1] + [c], cs, liveHash)
  {
    var rs' := rs[..|rs| - 1] + [c];
    forall k | 0 <= k < |cs|
      ensures rs'[k + 1].hash == Some(HashOf(cs[k])) && (rs'[k + 1].live <==> HashOf(cs[k]) == liveHash)
    {
      if k + 1 < |rs| - 1 {
        assert rs'[k + 1] == rs[k + 1];
      }
    }
  }

  /** The records follow the commit lines: the preamble, then one record per commit line. */
  lemma {:induction false} RecordsFollowCommitLines(lines: seq<string>, liveHash: string, t: Tracker)
    ensures FollowsCommitLines(Records(lines, liveHash, t), CommitLines(lines), liveHash)
    decreases |lines|
  {
    if |lines| > 0 {
      var init := lines[..|lines| - 1];
      var last := lines[|lines| - 1];
      RecordsFollowCommitLines(init, liveHash, t);
      var rs, cs := Records(init, liveHash, t), CommitLines(init);
      if IsCommitLine(last) {
        assert CommitLines(lines) == cs + [last];
        FollowsAfterCommitLine(rs, cs, last, liveHash);
      } else {
        assert CommitLines(lines) == cs;
        FollowsAfterOtherLine(rs, cs, Annotate(rs[|rs| - 1], t, last), liveHash);
      }
    }
  }

  /** Only a record whose hash is the live hash is flagged live. */
  lemma {:induction false} LiveOnlyAtLiveHash(lines: seq<string>, liveHash: string, t: Tracker)
    ensures forall c <- Records(lines, liveHash, t) :: c.live ==> c.hash == Some(liveHash)
    decreases |lines|
  {
    if |lines| > 0 {
      LiveOnlyAtLiveHash(lines[..|lines| - 1], liveHash, t);
    }
  }

  /**
   A closed record reaches the log exactly when it is neither empty nor a
   merge other than the live commit.
   */
  lemma {:induction false} ClosedFilters(rs: seq<Commit>, liveHash: string)
    ensures |Closed(rs, liveHash)| <= |rs|
    ensures forall c <- Closed(rs, liveHash) :: c in rs && c != Blank && !Discarded(c, liveHash)
    ensures forall c <- rs :: c != Blank && !Discarded(c, liveHash) ==> c in Closed(rs, liveHash)
    decreases |rs|
  {
    if |rs| > 0 {
      ClosedFilters(rs[..|rs| - 1], liveHash);
      assert rs == rs[..|rs| - 1] + [rs[|rs| - 1]];
    }
  }

  /** The log never holds more entries than there are commit lines, plus the preamble. */
  lemma LogBound(rawHash: string, lines: seq<string>, t: Tracker)
    requires LiveDiff(rawHash, lines, t).Log?
    ensures |LiveDiff(rawHash, lines, t).entries| <= 1 + |CommitLines(lines)|
  {
    var liveHash := Trim(rawHash);
    var rs := Records(lines, liveHash, t);
    RecordsFollowCommitLines(lines, liveHash, t);
    ClosedFilters(rs[..|rs| - 1], liveHash);
  }

  /** Every logged entry flagged live carries the live hash, and no entry is empty. */
  lemma LogEntriesSound(rawHash: string, lines: seq<string>, t: Tracker)
    requires LiveDiff(rawHash, lines, t).Log?
    ensures forall c <- LiveDiff(rawHash, lines, t).entries ::
              c != Blank && (c.live ==> c.hash == Some(Trim(rawHash)))
  {
    var liveHash := Trim(rawHash);
    LiveOnlyAtLiveHash(lines, liveHash, t);
    SurvivorsSound(Records(lines, liveHash, t), liveHash);
  }

  /** What holds of every record holds of every survivor, and no survivor is empty. */
  lemma SurvivorsSound(rs: seq<Commit>, liveHash: string)
    requires |rs| >= 1
    requires forall c <- rs :: c.live ==> c.hash == Some(liveHash)
    ensures forall c <- Survivors(rs, liveHash) :: c != Blank && (c.live ==> c.hash == Some(liveHash))
  {
    var init := rs[..|rs| - 1];
    ClosedFilters(init, liveHash);
    forall c | c in Survivors(rs, liveHash)
      ensures c != Blank && (c.live ==> c.hash == Some(liveHash))
    {
      if c in Closed(init, liveHash) {
        var i :| 0 <= i < |init| && init[i] == c;
        assert rs[i] == c;
      } else {
        assert c == rs[|rs| - 1];
      }
    }
  }

  /** Every merge in the log other than the live commit is the final record. */
  lemma MergesOnlyLast(rawHash: string, lines: seq<string>, t: Tracker)
    requires LiveDiff(rawHash, lines, t).Log?
    ensures var es := LiveDiff(rawHash, lines, t).entries;
            forall k | 0 <= k < |es| - 1 :: !Discarded(es[k], Trim(rawHash))
  {
    var liveHash := Trim(rawHash);
    var rs := Records(lines, liveHash, t);
    ClosedFilters(rs[..|rs| - 1], liveHash);
    var es := LiveDiff(rawHash, lines, t).entries;
    forall k | 0 <= k < |es| - 1
      ensures !Discarded(es[k], liveHash)
    {
      assert es[k] in Closed(rs[..|rs| - 1], liveHash);
    }
  }

  /**
   The last record is never merge-filtered: a log that ends in a merge other
   than the live commit keeps that merge.
   */
  lemma FinalMergeKept(rawHash: string, c: string, m: string, t: Tracker)
    requires !Falsy(Trim(rawHash))
    requires IsCommitLine(c) && HashOf(c) != Trim(rawHash)
    requires !IsCommitLine(m) && !Occurs(m, "Author") && Occurs(m, "Merge") && Story(t, m).None?
    ensures var merge := Open(c, Trim(rawHash)).(merge := Some(m));
            Discarded(merge, Trim(rawHash)) && LiveDiff(rawHash, [c, m], t) == Log([merge])
  {
    var liveHash := Trim(rawHash);
    var merge := Open(c, liveHash).(merge := Some(m));
    MergeRecord(c, m, liveHash, t);
    assert [Blank, merge][..1] == [Blank];
    assert Closed([Blank], liveHash) == [];
  }

  /** The same merge is dropped once another commit line closes it. */
  lemma MergeDroppedWhenClosed(rawHash: string, c: string, m: string, c2: string, t: Tracker)
    requires !Falsy(Trim(rawHash))
    requires IsCommitLine(c) && HashOf(c) != Trim(rawHash) && IsCommitLine(c2)
    requires !IsCommitLine(m) && !Occurs(m, "Author") && Occurs(m, "Merge") && Story(t, m).None?
    ensures LiveDiff(rawHash, [c, m, c2], t) == Log([Open(c2, Trim(rawHash))])
  {
    var liveHash := Trim(rawHash);
    var merge := Open(c, liveHash).(merge := Some(m));
    MergeRecord(c, m, liveHash, t);
    RecordsSnoc([c, m], c2, liveHash, t);
    assert [c, m] + [c2] == [c, m, c2];
    var rs := [Blank, merge] + [Open(c2, liveHash)];
    assert rs[..2] == [Blank, merge];
    assert [Blank, merge][..1] == [Blank];
    assert Closed([Blank], liveHash) == [];
  }

  lemma RecordsSnoc(lines: seq<string>, line: string, liveHash: string, t: Tracker)
    ensures var rs := Records(lines, liveHash, t);
            Records(lines + [line], liveHash, t)
            == if IsCommitLine(line) then rs + [Open(line, liveHash)]
               else rs[..|rs| - 1] + [Annotate(rs[|rs| - 1], t, line)]
  {
    assert (lines + [line])[..|lines|] == lines;
  }

  /** A commit line followed by a merge line gives the preamble and one merge record. */
  lemma MergeRecord(c: string, m: string, liveHash: string, t: Tracker)
    requires IsCommitLine(c)
    requires !IsCommitLine(m) && !Occurs(m, "Author") && Occurs(m, "Merge") && Story(t, m).None?
    ensures Records([c, m], liveHash, t) == [Blank, Open(c, liveHash).(merge := Some(m))]
  {
    RecordsSnoc([], c, liveHash, t);
    assert [] + [c] == [c];
    RecordsSnoc([c], m, liveHash, t);
    assert [c] + [m] == [c, m];
    assert [Blank, Open(c, liveHash)][..1] == [Blank];
  }
}
