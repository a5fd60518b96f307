/**
 The three extractors the reports use on text: the GitHub path of the
 repository URL (`getRepoPath`, Gitphull.php:643-656), the Pivotal Tracker
 story number `#` + 6 to 10 digits (Gitphull.php:717-720, 857-860) and the
 commit hash `commit ` + 40 lowercase hex digits (Gitphull.php:732-734).
 Each regular expression is modelled by what PCRE returns for it: the
 leftmost match, with `.*` and `{6,10}` taking as much as they can.
 */
module Annotations {
  import opened Strings
  import opened Optional

  // ---------------------------------------------------------------------
  // Searching
  // ---------------------------------------------------------------------

  /** The least position in [i, n) where `P` holds. */
  function FirstFrom(P: nat -> bool, i: nat, n: nat): (r: Option<nat>)
    ensures r.Some? ==> i <= r.value < n && P(r.value) && forall k | i <= k < r.value :: !P(k)
    ensures r.None? ==> forall k | i <= k < n :: !P(k)
    decreases n - i
  {
    if i >= n then None
    else if P(i) then Some(i)
    else FirstFrom(P, i + 1, n)
  }

  /** The greatest position in [lo, hi) where `P` holds. */
  function LastBelow(P: nat -> bool, lo: nat, hi: nat): (r: Option<nat>)
    ensures r.Some? ==> lo <= r.value < hi && P(r.value) && forall k | r.value < k < hi :: !P(k)
    ensures r.None? ==> forall k | lo <= k < hi :: !P(k)
    decreases hi
  {
    if hi <= lo then None
    else if P(hi - 1) then Some(hi - 1)
    else LastBelow(P, lo, hi - 1)
  }

  // ---------------------------------------------------------------------
  // `#([0-9]{6,10})`
  // ---------------------------------------------------------------------

  /** The number of consecutive digits from position `i`. */
  function DigitRun(s: string, i: nat): (n: nat)
    requires i <= |s|
    ensures i + n <= |s|
    ensures forall k | i <= k < i + n :: IsDigit(s[k])
    ensures i + n == |s| || !IsDigit(s[i + n])
    decreases |s| - i
  {
    if i < |s| && IsDigit(s[i]) then 1 + DigitRun(s, i + 1) else 0
  }

  /** `#[0-9]{6,10}` matches at `i`: a '#' followed by at least six digits. */
  predicate IssueAt(s: string, i: nat) {
    i < |s| && s[i] == '#' && DigitRun(s, i + 1) >= 6
  }

  /** The digits `[0-9]{6,10}` captures at a match: as many as follow, up to ten. */
  function IssueDigits(s: string, i: nat): (d: string)
    requires IssueAt(s, i)
    ensures 6 <= |d| <= 10 && AllDigits(d)
  {
    var n := if DigitRun(s, i + 1) < 10 then DigitRun(s, i + 1) else 10;
    s[i + 1..i + 1 + n]
  }

  /** The leftmost position where `#[0-9]{6,10}` matches. */
  function FirstIssue(line: string): (r: Option<nat>)
    ensures r.None? <==> forall i | 0 <= i < |line| :: !IssueAt(line, i)
    ensures r.Some? ==> r.value < |line| && IssueAt(line, r.value)
                        && forall k | 0 <= k < r.value :: !IssueAt(line, k)
  {
    var at := (k: nat) => IssueAt(line, k);
    assert forall k: nat :: at(k) == IssueAt(line, k);
    FirstFrom(at, 0, |line|)
  }

  /**
   The story number of a line: the captured digits of the leftmost match,
   read as a decimal number, or None when nothing matches.
   */
  function IssueId(line: string): (r: Option<nat>)
    ensures r.None? <==> forall i | 0 <= i < |line| :: !IssueAt(line, i)
    ensures r.Some? ==> r.value == DecimalValue(IssueDigits(line, FirstIssue(line).value))
  {
    match FirstIssue(line)
    case Some(i) => Some(DecimalValue(IssueDigits(line, i)))
    case None => None
  }

  /** The story number comes from the leftmost match. */
  lemma IssueIdAt(s: string, i: nat)
    requires IssueAt(s, i) && forall k | 0 <= k < i :: !IssueAt(s, k)
    ensures IssueId(s) == Some(DecimalValue(IssueDigits(s, i)))
  {
    var j := FirstIssue(s).value;
    assert !(j < i) && !(i < j);
  }

  /** A '#' followed by six to ten digits and then a non-digit matches and captures those digits. */
  lemma IssueAtDigits(s: string, i: nat, digits: string, after: string)
    requires i < |s| && s[i] == '#' && s[i + 1..] == digits + after
    requires 6 <= |digits| <= 10 && AllDigits(digits)
    requires |after| == 0 || !IsDigit(after[0])
    ensures IssueAt(s, i) && IssueDigits(s, i) == digits
  {
    DigitRunOf(s, i + 1, digits, after);
    assert s[i + 1..i + 1 + |digits|] == (digits + after)[..|digits|];
  }

  /** A run of up to ten digits after the first '#' is read back as the story number. */
  lemma IssueIdRoundTrip(before: string, digits: string, after: string)
    requires '#' !in before
    requires 6 <= |digits| <= 10 && AllDigits(digits)
    requires |after| == 0 || !IsDigit(after[0])
    ensures IssueId(before + "#" + digits + after) == Some(DecimalValue(digits))
  {
    var tail := digits + after;
    var s := before + ("#" + tail);
    ConcatAssoc(before, "#", digits, after);
    var i := |before|;
    DropPrefix(before, "#" + tail);
    assert s[i + 1..] == s[i..][1..];
    IssueAtDigits(s, i, digits, after);
    forall k | 0 <= k < i
      ensures !IssueAt(s, k)
    {
      assert s[k] == s[..i][k];
    }
    IssueIdAt(s, i);
  }

  /** Only the first ten digits of a longer run are captured. */
  lemma IssueIdTakesTenDigits(digits: string, after: string)
    requires |digits| == 10 && AllDigits(digits) && |after| > 0 && IsDigit(after[0])
    ensures IssueId("#" + digits + after) == Some(DecimalValue(digits))
  {
    var s := "#" + digits + after;
    DigitRunAtLeast(s, 1, 10);
    assert IssueAt(s, 0);
    assert s[1..11] == digits;
    IssueIdAt(s, 0);
  }

  lemma {:induction false} DigitRunOf(s: string, i: nat, digits: string, after: string)
    requires i + |digits| + |after| == |s| && s[i..] == digits + after
    requires AllDigits(digits) && (|after| == 0 || !IsDigit(after[0]))
    ensures DigitRun(s, i) == |digits|
    decreases |digits|
  {
    if |digits| > 0 {
      assert s[i] == digits[0];
      assert s[i + 1..] == digits[1..] + after;
      DigitRunOf(s, i + 1, digits[1..], after);
    } else if |after| > 0 {
      assert s[i] == after[0];
    }
  }

  lemma {:induction false} DigitRunAtLeast(s: string, i: nat, n: nat)
    requires i + n < |s| && forall k | i <= k <= i + n :: IsDigit(s[k])
    ensures DigitRun(s, i) > n
    decreases n
  {
    if n > 0 {
      DigitRunAtLeast(s, i + 1, n - 1);
    }
  }

  // ---------------------------------------------------------------------
  // `commit [0-9a-f]{40}`
  // ---------------------------------------------------------------------

  predicate IsLowerHex(c: char) {
    '0' <= c <= '9' || 'a' <= c <= 'f'
  }

  const CommitWord: string := "commit "

  /** `commit [0-9a-f]{40}` matches at `i`. */
  predicate HashAt(s: string, i: nat) {
    MatchesAt(s, i, CommitWord) && i + 47 <= |s| && forall k | i + 7 <= k < i + 47 :: IsLowerHex(s[k])
  }

  /** The hash in a line: the 40 hex digits of the leftmost match, without the word. */
  function CommitHash(line: string): (r: Option<string>)
    ensures r.None? <==> forall i | 0 <= i < |line| :: !HashAt(line, i)
    ensures r.Some? ==> |r.value| == 40 && (forall k | 0 <= k < 40 :: IsLowerHex(r.value[k]))
    ensures r.Some? ==> exists i | 0 <= i < |line| && HashAt(line, i) ::
              (forall k | 0 <= k < i :: !HashAt(line, k)) && r.value == line[i + 7..i + 47]
  {
    var at := (k: nat) => HashAt(line, k);
    assert forall k: nat :: at(k) == HashAt(line, k);
    match FirstFrom(at, 0, |line|)
    case Some(i) => Some(line[i + 7..i + 47])
    case None => None
  }

  /** A `git log` header line yields its hash. */
  lemma CommitHashRoundTrip(h: string, rest: string)
    requires |h| == 40 && forall k | 0 <= k < 40 :: IsLowerHex(h[k])
    ensures CommitHash(CommitWord + h + rest) == Some(h)
  {
    var s := CommitWord + h + rest;
    assert s[..7] == CommitWord;
    assert HashAt(s, 0);
    assert s[7..47] == h;
  }

  /** An abbreviated hash is not a hash. */
  lemma ShortHashIgnored(h: string)
    requires |h| < 40
    ensures CommitHash(CommitWord + h) == None
  {
  }

  // ---------------------------------------------------------------------
  // `https://github.com(.*)\.git` and `git@github.com:(.*)\.git`
  // ---------------------------------------------------------------------

  /** A regular-expression atom: a literal character, or `.` (any character but a newline). */
  datatype Atom = Lit(c: char) | AnyChar

  predicate AtomMatches(a: Atom, c: char) {
    if a.Lit? then c == a.c else c != '\n'
  }

  /** The atoms of an unescaped pattern text, where '.' is the wildcard. */
  function Pattern(text: string): (p: seq<Atom>)
    ensures |p| == |text|
    ensures forall k | 0 <= k < |text| :: p[k] == if text[k] == '.' then AnyChar else Lit(text[k])
  {
    seq(|text|, k requires 0 <= k < |text| => if text[k] == '.' then AnyChar else Lit(text[k]))
  }

  predicate PatternAt(s: string, i: nat, p: seq<Atom>) {
    i + |p| <= |s| && forall k | 0 <= k < |p| :: AtomMatches(p[k], s[i + k])
  }

  const HttpsHead: seq<Atom> := Pattern("https://github.com")
  const SshHead: seq<Atom> := Pattern("git@github.com:")
  const GitSuffix: string := ".git"

  /** Where a `(.*)` starting at `k` may stop: before ".git", with no newline crossed. */
  predicate CaptureEnd(s: string, k: nat, j: nat) {
    k <= j && MatchesAt(s, j, GitSuffix) && forall m | k <= m < j :: s[m] != '\n'
  }

  /** The end of the line holding position `k`. */
  function LineEnd(s: string, k: nat): (e: nat)
    ensures k <= e || k > |s|
    ensures e <= |s|
    ensures forall m | k <= m < e :: s[m] != '\n'
    ensures e == |s| || s[e] == '\n'
  {
    var newline := (m: nat) => m < |s| && s[m] == '\n';
    assert forall m: nat :: newline(m) == (m < |s| && s[m] == '\n');
    match FirstFrom(newline, k, |s|)
    case Some(e) => e
    case None => if k <= |s| then |s| else |s|
  }

  /** The greedy `(.*)\.git` from `k`: the LAST ".git" on the line. */
  function GreedyEnd(s: string, k: nat): (r: Option<nat>)
    ensures r.Some? ==> CaptureEnd(s, k, r.value) && forall j | r.value < j :: !CaptureEnd(s, k, j)
    ensures r.None? ==> forall j :: !CaptureEnd(s, k, j)
  {
    var e := LineEnd(s, k);
    var suffix := (j: nat) => MatchesAt(s, j, GitSuffix);
    assert forall j: nat :: suffix(j) == MatchesAt(s, j, GitSuffix);
    LastBelow(suffix, k, e)
  }

  /** The pattern `head(.*)\.git` matches starting at `i`. */
  predicate MatchStart(s: string, i: nat, head: seq<Atom>) {
    PatternAt(s, i, head) && GreedyEnd(s, i + |head|).Some?
  }

  /** The leftmost position where `head(.*)\.git` matches. */
  function FirstMatch(s: string, head: seq<Atom>): (r: Option<nat>)
    ensures r.None? <==> forall i | 0 <= i < |s| :: !MatchStart(s, i, head)
    ensures r.Some? ==> r.value < |s| && MatchStart(s, r.value, head)
                        && forall k | 0 <= k < r.value :: !MatchStart(s, k, head)
  {
    var at := (i: nat) => MatchStart(s, i, head);
    assert forall i: nat :: at(i) == MatchStart(s, i, head);
    FirstFrom(at, 0, |s|)
  }

  /** What the group `(.*)` captures for a match at `i`. */
  function CaptureFrom(s: string, head: seq<Atom>, i: nat): string
    requires MatchStart(s, i, head)
  {
    s[i + |head|..GreedyEnd(s, i + |head|).value]
  }

  /** `preg_match('/head(.*)\.git/')`: the capture of the leftmost match. */
  function Capture(s: string, head: seq<Atom>): (r: Option<string>)
    ensures r.None? <==> forall i | 0 <= i < |s| :: !MatchStart(s, i, head)
    ensures r.Some? ==> r.value == CaptureFrom(s, head, FirstMatch(s, head).value)
  {
    match FirstMatch(s, head)
    case Some(i) => Some(CaptureFrom(s, head, i))
    case None => None
  }

  /** PHP's falsy strings. */
  predicate Falsy(s: string) {
    s == "" || s == "0"
  }

  /**
   `getRepoPath`: the capture of the https form unless it is falsy, else
   "/" and the capture of the ssh form; when neither applies, the (falsy)
   https capture, or null.
   */
  function RepoPath(repo: string): (r: Option<string>)
    ensures Capture(repo, HttpsHead).Some? && !Falsy(Capture(repo, HttpsHead).value) ==> r == Capture(repo, HttpsHead)
    ensures (Capture(repo, HttpsHead).None? || Falsy(Capture(repo, HttpsHead).value)) && Capture(repo, SshHead).Some? ==>
              r == Some("/" + Capture(repo, SshHead).value)
    ensures (Capture(repo, HttpsHead).None? || Falsy(Capture(repo, HttpsHead).value)) && Capture(repo, SshHead).None? ==>
              r == Capture(repo, HttpsHead)
  {
    var https := Capture(repo, HttpsHead);
    if https.Some? && !Falsy(https.value) then https
    else
      match Capture(repo, SshHead)
      case Some(p) => Some("/" + p)
      case None => https
  }

  /** The capture comes from the leftmost match. */
  lemma CaptureAt(s: string, head: seq<Atom>, i: nat)
    requires i < |s| && MatchStart(s, i, head)
    requires forall k | 0 <= k < i :: !MatchStart(s, k, head)
    ensures Capture(s, head) == Some(CaptureFrom(s, head, i))
  {
    var j := FirstMatch(s, head).value;
    assert !(j < i);
    assert !(i < j);
  }

  /** When the text ends in ".git" and has no newline after `k`, the greedy capture runs to that final ".git". */
  lemma GreedyEndAtSuffix(s: string, k: nat)
    requires k + 4 <= |s| && s[|s| - 4..] == GitSuffix
    requires forall m | k <= m < |s| :: s[m] != '\n'
    ensures GreedyEnd(s, k) == Some(|s| - 4)
  {
    assert MatchesAt(s, |s| - 4, GitSuffix);
    assert CaptureEnd(s, k, |s| - 4);
  }

  /** `https://github.com/<path>.git` yields `/<path>`-style captures unchanged. */
  lemma HttpsRepoPath(path: string)
    requires '\n' !in path && !Falsy(path)
    ensures RepoPath("https://github.com" + path + GitSuffix) == Some(path)
  {
    var text := "https://github.com";
    var s := text + path + GitSuffix;
    assert s[..18] == text;
    assert PatternAt(s, 0, HttpsHead) by {
      forall k | 0 <= k < 18
        ensures AtomMatches(HttpsHead[k], s[k])
      {
        assert s[k] == text[k];
      }
    }
    assert s[|s| - 4..] == GitSuffix;
    GreedyEndAtSuffix(s, 18);
    assert MatchStart(s, 0, HttpsHead);
    CaptureAt(s, HttpsHead, 0);
    assert s[18..|s| - 4] == path;
  }

  /** Past the host, an ssh URL whose path has no ':' has none either. */
  lemma SshNoColonAfterHost(path: string)
    requires ':' !in path
    ensures forall m | 15 <= m < |"git@github.com:" + path + GitSuffix| :: ("git@github.com:" + path + GitSuffix)[m] != ':'
  {
    var s := "git@github.com:" + path + GitSuffix;
    forall m | 15 <= m < |s|
      ensures s[m] != ':'
    {
      if m < 15 + |path| {
        assert s[m] == path[m - 15];
      } else {
        assert s[m] == GitSuffix[m - 15 - |path|];
      }
    }
  }

  /** An ssh URL never matches the https pattern, whose first atom is 'h' and sixth is ':'. */
  lemma SshIsNotHttps(path: string)
    requires ':' !in path
    ensures Capture("git@github.com:" + path + GitSuffix, HttpsHead).None?
  {
    var text := "git@github.com:";
    var s := text + path + GitSuffix;
    SshNoColonAfterHost(path);
    assert HttpsHead[5] == Lit(':') && HttpsHead[0] == Lit('h');
    forall i | 0 <= i < |s|
      ensures !PatternAt(s, i, HttpsHead)
    {
      if i + 18 <= |s| {
        if i == 9 {
          assert s[9] == text[9] == 'b';
          assert !AtomMatches(HttpsHead[0], s[i]);
        } else if i < 10 {
          assert s[i + 5] == text[i + 5];
          assert !AtomMatches(HttpsHead[5], s[i + 5]);
        } else {
          assert !AtomMatches(HttpsHead[5], s[i + 5]);
        }
      }
    }
  }

  /** `git@github.com:<path>.git` yields "/" and the path. */
  lemma SshRepoPath(path: string)
    requires '\n' !in path && ':' !in path
    ensures RepoPath("git@github.com:" + path + GitSuffix) == Some("/" + path)
  {
    var text := "git@github.com:";
    var s := text + path + GitSuffix;
    SshIsNotHttps(path);
    assert s[..15] == text;
    assert PatternAt(s, 0, SshHead) by {
      forall k | 0 <= k < 15
        ensures AtomMatches(SshHead[k], s[k])
      {
        assert s[k] == text[k];
      }
    }
    assert s[|s| - 4..] == GitSuffix;
    GreedyEndAtSuffix(s, 15);
    assert MatchStart(s, 0, SshHead);
    CaptureAt(s, SshHead, 0);
    assert s[15..|s| - 4] == path;
  }
}
