/**
 Reading the remote branch list: `getBranches` (Gitphull.php:489-506) turns
 the text printed by `git branch -r` into branch names. The text is an input
 here; running git is not modelled.
 */
module Remotes {
  import opened Strings

  /** The remote-tracking prefix `getBranches` strips. */
  const RemotePrefix: string := "origin/"

  /** One line as the loop cleans it: `trim(str_replace('origin/', '', $l))`. */
  function CleanLine(line: string): string {
    Trim(ReplaceAll(line, RemotePrefix, ""))
  }

  /** Every line as the loop cleans it, in order. */
  function CleanLines(lines: seq<string>): (r: seq<string>)
    ensures |r| == |lines|
    ensures forall i | 0 <= i < |lines| :: r[i] == CleanLine(lines[i])
  {
    seq(|lines|, i requires 0 <= i < |lines| => CleanLine(lines[i]))
  }

  /**
   The loop at Gitphull.php:495-503: every line is cleaned, and a cleaned
   line holding a space (a symbolic entry such as "HEAD -> master") is
   dropped; the others are kept in order.
   */
  function KeepBranchLines(lines: seq<string>): (r: seq<string>)
    ensures |r| <= |lines|
    ensures forall b <- r :: ' ' !in b && IsTrimmed(b)
    ensures forall b :: b in r <==> b in CleanLines(lines) && ' ' !in b
  {
    if |lines| == 0 then []
    else
      var b := CleanLine(lines[0]);
      var rest := KeepBranchLines(lines[1..]);
      CleanLinesCons(lines);
      (if ' ' in b then [] else [b]) + rest
  }

  lemma CleanLinesCons(lines: seq<string>)
    requires |lines| > 0
    ensures forall x :: x in CleanLines(lines) <==> x == CleanLine(lines[0]) || x in CleanLines(lines[1..])
  {
    var c := CleanLines(lines);
    assert c[1..] == CleanLines(lines[1..]);
    HeadTail(c);
  }

  /**
   `getBranches` as written: trim the whole output, split it on newlines and
   keep the cleaned lines without a space.
   */
  function ParseRemoteListing(output: string): (r: seq<string>)
    ensures forall b <- r :: ' ' !in b && IsTrimmed(b)
    ensures forall b :: b in r <==> b in CleanLines(Split(Trim(output), '\n')) && ' ' !in b
  {
    KeepBranchLines(Split(Trim(output), '\n'))
  }

  /**
   Output that is empty or blank (no remotes, or a failed command whose
   `shell_exec` result is null) still yields one branch: the empty name.
   */
  lemma BlankListingYieldsEmptyName(output: string)
    requires Trim(output) == ""
    ensures ParseRemoteListing(output) == [""]
  {
    assert Split("", '\n') == [""];
    assert ReplaceAll("", RemotePrefix, "") == "";
    assert TrimLeft("") == "";
    assert CleanLine("") == "";
  }

  /** Drops the empty names from a list. */
  function NonEmpty(names: seq<string>): (r: seq<string>)
    ensures |r| <= |names|
    ensures forall b :: b in r <==> b in names && b != ""
  {
    if |names| == 0 then []
    else
      var rest := NonEmpty(names[1..]);
      assert forall b :: b in names <==> b == names[0] || b in names[1..];
      (if names[0] == "" then [] else [names[0]]) + rest
  }

  lemma {:induction false} NonEmptyKeepsNonEmpty(names: seq<string>)
    requires forall i | 0 <= i < |names| :: names[i] != ""
    ensures NonEmpty(names) == names
  {
    if |names| > 0 {
      NonEmptyKeepsNonEmpty(names[1..]);
      assert names == [names[0]] + names[1..];
    }
  }

  /**
   The remote list with the empty name left out, so that blank output means
   "no remotes known" and the empty-remote guard of the deletion step holds.
   This corrects `getBranches`; see BlankListingYieldsEmptyName.
   */
  function RemoteBranches(output: string): (r: seq<string>)
    ensures forall b <- r :: b != "" && ' ' !in b && IsTrimmed(b)
    ensures forall b :: b in r <==> b in ParseRemoteListing(output) && b != ""
    ensures Trim(output) == "" ==> r == []
  {
    BlankListingHasNoNames(output);
    NonEmpty(ParseRemoteListing(output))
  }

  /** Without an empty name in `getBranches`' list, the corrected parser reads the same list. */
  lemma RemoteBranchesAgree(output: string)
    requires "" !in ParseRemoteListing(output)
    ensures RemoteBranches(output) == ParseRemoteListing(output)
  {
    NonEmptyKeepsNonEmpty(ParseRemoteListing(output));
  }

  lemma BlankListingHasNoNames(output: string)
    ensures Trim(output) == "" ==> NonEmpty(ParseRemoteListing(output)) == []
  {
    if Trim(output) == "" {
      BlankListingYieldsEmptyName(output);
      assert [""][1..] == [];
    }
  }

  // ---------------------------------------------------------------------
  // The listing `git branch -r` prints, and reading it back.
  // ---------------------------------------------------------------------

  /**
   A branch name `getBranches` reads back unchanged: no whitespace (PHP's
   trim characters) and no "origin/" inside.
   */
  predicate ListableName(b: string) {
    (forall i | 0 <= i < |b| :: !IsTrimChar(b[i])) && !Occurs(b, RemotePrefix)
  }

  /** How `git branch -r` prints a remote-tracking branch. */
  function ListingLine(b: string): string {
    "  " + RemotePrefix + b
  }

  /** How `git branch -r` prints a symbolic entry such as "HEAD -> origin/master". */
  function SymbolicLine(name: string, target: string): string {
    "  " + RemotePrefix + name + " -> " + RemotePrefix + target
  }

  function ListingLines(bs: seq<string>): (r: seq<string>)
    ensures |r| == |bs|
    ensures forall i | 0 <= i < |bs| :: r[i] == ListingLine(bs[i])
  {
    seq(|bs|, i requires 0 <= i < |bs| => ListingLine(bs[i]))
  }

  /** The whole output for a non-empty list of branches. */
  function RenderListing(bs: seq<string>): string
    requires |bs| > 0
  {
    Join(ListingLines(bs), '\n')
  }

  lemma StripPrefix(b: string)
    requires ListableName(b)
    ensures ReplaceAll(RemotePrefix + b, RemotePrefix, "") == b
  {
    ReplaceAllLeadingMatch(RemotePrefix + b, RemotePrefix, "", b);
    ReplaceAllAbsent(b, RemotePrefix, "");
  }

  lemma ListableIsTrimmed(b: string)
    requires ListableName(b)
    ensures IsTrimmed(b) && ' ' !in b
  {
  }

  /** Each printed line, and the first line once its indent is trimmed, reads back as its branch. */
  lemma CleanListingLine(b: string)
    requires ListableName(b)
    ensures CleanLine(ListingLine(b)) == b
    ensures CleanLine(RemotePrefix + b) == b
  {
    CleanUnindentedLine(b);
    StripIndentedPrefix(b);
    TrimIndent(b);
  }

  lemma CleanUnindentedLine(b: string)
    requires ListableName(b)
    ensures CleanLine(RemotePrefix + b) == b
  {
    StripPrefix(b);
    ListableIsTrimmed(b);
    TrimOfTrimmed(b);
  }

  lemma TrimIndent(b: string)
    requires ListableName(b)
    ensures Trim("  " + b) == b
  {
    ListableIsTrimmed(b);
    TrimPadded("  ", b);
  }

  lemma StripIndentedPrefix(b: string)
    requires ListableName(b)
    ensures ReplaceAll(ListingLine(b), RemotePrefix, "") == "  " + b
  {
    var pad := "  ";
    assert forall i | 0 <= i < |pad| :: pad[i] !in RemotePrefix;
    ReplaceAllAfterPad(pad, RemotePrefix, "", RemotePrefix + b);
    assert ListingLine(b) == pad + (RemotePrefix + b);
    StripPrefix(b);
  }

  /** A line that cleans to a name without a space contributes that name. */
  lemma KeepCons(line: string, b: string, rest: seq<string>)
    requires CleanLine(line) == b && ' ' !in b
    ensures KeepBranchLines([line] + rest) == [b] + KeepBranchLines(rest)
  {
    assert ([line] + rest)[1..] == rest;
  }

  lemma ListingLinesCons(bs: seq<string>)
    requires |bs| > 0
    ensures ListingLines(bs) == [ListingLine(bs[0])] + ListingLines(bs[1..])
  {
  }

  lemma {:induction false} KeepListingLines(bs: seq<string>)
    requires forall i | 0 <= i < |bs| :: ListableName(bs[i])
    ensures KeepBranchLines(ListingLines(bs)) == bs
  {
    if |bs| > 0 {
      var b := bs[0];
      var rest := bs[1..];
      assert forall i | 0 <= i < |rest| :: ListableName(rest[i]) by {
        forall i | 0 <= i < |rest|
          ensures ListableName(rest[i])
        {
          assert rest[i] == bs[i + 1];
        }
      }
      KeepListingLines(rest);
      CleanListingLine(b);
      ListableIsTrimmed(b);
      ListingLinesCons(bs);
      KeepCons(ListingLine(b), b, ListingLines(rest));
      HeadTail(bs);
    }
  }

  lemma {:induction false} JoinLast(parts: seq<string>, d: char)
    requires |parts| > 0 && |parts[|parts| - 1]| > 0
    ensures |Join(parts, d)| > 0
    ensures Join(parts, d)[|Join(parts, d)| - 1] == parts[|parts| - 1][|parts[|parts| - 1]| - 1]
  {
    if |parts| > 1 {
      JoinLast(parts[1..], d);
    }
  }

  lemma JoinFirst(parts: seq<string>, d: char, a: string, b: string)
    requires |parts| > 0 && parts[0] == a + b
    ensures Join(parts, d) == a + Join([b] + parts[1..], d)
  {
    var q := [b] + parts[1..];
    assert q[1..] == parts[1..];
  }

  /** The listing lines with the first one's indent removed, as `trim` leaves it. */
  function UnindentedLines(bs: seq<string>): (r: seq<string>)
    requires |bs| > 0
    ensures |r| == |bs|
  {
    [RemotePrefix + bs[0]] + ListingLines(bs)[1..]
  }

  lemma RenderedShape(bs: seq<string>)
    requires |bs| > 0
    requires forall i | 0 <= i < |bs| :: ListableName(bs[i])
    ensures RenderListing(bs) == "  " + Join(UnindentedLines(bs), '\n')
    ensures Join(UnindentedLines(bs), '\n')[0] == 'o'
    ensures IsTrimmed(Join(UnindentedLines(bs), '\n'))
  {
    var lines' := UnindentedLines(bs);
    JoinFirst(ListingLines(bs), '\n', "  ", RemotePrefix + bs[0]);
    var x := Join(lines', '\n');
    assert |lines'| == 1 || x == lines'[0] + ['\n'] + Join(lines'[1..], '\n');
    var last := lines'[|lines'| - 1];
    var b := bs[|bs| - 1];
    assert last == RemotePrefix + b || last == ListingLine(b);
    assert |b| > 0 ==> last[|last| - 1] == b[|b| - 1];
    assert |b| == 0 ==> last[|last| - 1] == '/';
    JoinLast(lines', '\n');
  }

  lemma TrimRendered(bs: seq<string>)
    requires |bs| > 0
    requires forall i | 0 <= i < |bs| :: ListableName(bs[i])
    ensures Trim(RenderListing(bs)) == Join(UnindentedLines(bs), '\n')
  {
    RenderedShape(bs);
    var x := Join(UnindentedLines(bs), '\n');
    TrimLeftPadded("  ", x);
    TrimRightKeeps(x);
  }

  /** A listable name has no newline, so neither has a printed line for it. */
  lemma NoNewline(b: string)
    requires ListableName(b)
    ensures '\n' !in RemotePrefix + b && '\n' !in ListingLine(b)
  {
    assert IsTrimChar('\n');
    assert '\n' !in b;
    assert ListingLine(b) == "  " + (RemotePrefix + b);
  }

  lemma SplitRendered(bs: seq<string>)
    requires |bs| > 0
    requires forall i | 0 <= i < |bs| :: ListableName(bs[i])
    ensures Split(Trim(RenderListing(bs)), '\n') == UnindentedLines(bs)
  {
    TrimRendered(bs);
    var lines' := UnindentedLines(bs);
    forall i | 0 <= i < |lines'|
      ensures '\n' !in lines'[i]
    {
      NoNewline(bs[i]);
    }
    SplitJoin(lines', '\n');
  }

  lemma KeepUnindentedLines(bs: seq<string>)
    requires |bs| > 0
    requires forall i | 0 <= i < |bs| :: ListableName(bs[i])
    ensures KeepBranchLines(UnindentedLines(bs)) == bs
  {
    KeepListingLines(bs[1..]);
    ListingLinesCons(bs);
    CleanUnindentedLine(bs[0]);
    ListableIsTrimmed(bs[0]);
    KeepCons(RemotePrefix + bs[0], bs[0], ListingLines(bs[1..]));
    HeadTail(bs);
  }

  /**
   Reading back the listing of a non-empty list of listable branches gives
   exactly that list, in order.
   */
  lemma ListingRoundTrip(bs: seq<string>)
    requires |bs| > 0
    requires forall i | 0 <= i < |bs| :: ListableName(bs[i])
    ensures ParseRemoteListing(RenderListing(bs)) == bs
  {
    SplitRendered(bs);
    KeepUnindentedLines(bs);
  }

  /** The same holds for the corrected reading when no branch name is empty. */
  lemma RemoteBranchesRoundTrip(bs: seq<string>)
    requires |bs| > 0
    requires forall i | 0 <= i < |bs| :: ListableName(bs[i]) && bs[i] != ""
    ensures RemoteBranches(RenderListing(bs)) == bs
  {
    ListingRoundTrip(bs);
    NonEmptyKeepsNonEmpty(bs);
  }

  /** A symbolic entry cleans to "name -> target", which holds a space. */
  lemma SymbolicLineHasSpace(name: string, target: string)
    requires ListableName(name) && ListableName(target)
    requires |name| > 0 && |target| > 0
    ensures CleanLine(SymbolicLine(name, target)) == name + " -> " + target
    ensures ' ' in CleanLine(SymbolicLine(name, target))
  {
    var y := name + " -> " + target;
    StripSymbolicLine(name, target);
    assert IsTrimmed(y) by {
      assert y[0] == name[0] && y[|y| - 1] == target[|target| - 1];
    }
    assert "  " + name + " -> " + target == "  " + y;
    TrimPadded("  ", y);
    assert y[|name|] == ' ';
  }

  lemma StripSymbolicLine(name: string, target: string)
    requires ListableName(name) && ListableName(target)
    ensures ReplaceAll(SymbolicLine(name, target), RemotePrefix, "") == "  " + name + " -> " + target
  {
    var s := SymbolicLine(name, target);
    var k := |ListingLine(name)|;
    var u := "-> " + (RemotePrefix + target);
    assert s == ListingLine(name) + " " + u;
    assert s[k] == ' ' && ' ' !in RemotePrefix;
    ReplaceAllSplitsAt(s, RemotePrefix, "", k);
    assert s[..k] == ListingLine(name) && s[k + 1..] == u;
    StripIndentedPrefix(name);
    StripArrow(target);
    ArrowJoin(name, target);
  }

  lemma ArrowJoin(name: string, target: string)
    ensures ("  " + name) + " " + ("-> " + target) == "  " + name + " -> " + target
  {
  }

  lemma StripArrow(target: string)
    requires ListableName(target)
    ensures ReplaceAll("-> " + (RemotePrefix + target), RemotePrefix, "") == "-> " + target
  {
    var pad := "-> ";
    assert forall i | 0 <= i < |pad| :: pad[i] !in RemotePrefix;
    ReplaceAllAfterPad(pad, RemotePrefix, "", RemotePrefix + target);
    StripPrefix(target);
  }

  /** A symbolic entry contributes no branch. */
  lemma SymbolicLineDropped(name: string, target: string, rest: seq<string>)
    requires ListableName(name) && ListableName(target)
    requires |name| > 0 && |target| > 0
    ensures KeepBranchLines([SymbolicLine(name, target)] + rest) == KeepBranchLines(rest)
  {
    SymbolicLineHasSpace(name, target);
    assert ([SymbolicLine(name, target)] + rest)[1..] == rest;
  }
}
