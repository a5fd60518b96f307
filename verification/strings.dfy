/**
 The PHP string primitives the reconciler is built from, as pure functions
 over `seq<char>`: `strpos`-style matching, `str_replace` (left-to-right,
 non-overlapping), `trim` with PHP's default character list, splitting on a
 delimiter, and decimal digit strings.
 */
module Strings {

  /** A non-empty sequence is its head followed by its tail. */
  lemma HeadTail<T>(s: seq<T>)
    requires |s| > 0
    ensures s == [s[0]] + s[1..]
  {
  }

  /** `n` occurs in `s` starting at index `i`. */
  predicate MatchesAt(s: string, i: nat, n: string) {
    i + |n| <= |s| && s[i..i + |n|] == n
  }

  /** PHP `strpos($s, $p) === 0` (an empty `$p` matches, as in PHP 8). */
  predicate StartsWith(s: string, p: string) {
    MatchesAt(s, 0, p)
  }

  /** PHP `strpos($s, $n) !== false`. */
  predicate Occurs(s: string, n: string) {
    exists i | 0 <= i <= |s| - |n| :: MatchesAt(s, i, n)
  }

  lemma OccursAt(s: string, i: nat, n: string)
    requires MatchesAt(s, i, n)
    ensures Occurs(s, n)
  {
  }

  /** A character of a match is a character of the needle. */
  lemma MatchedCharInNeedle(s: string, i: nat, n: string, j: nat)
    requires MatchesAt(s, i, n)
    requires i <= j < i + |n|
    ensures s[j] in n
  {
    assert s[j] == s[i..i + |n|][j - i];
  }

  /**
   PHP `str_replace($n, $by, $s)` for one needle: scan left to right and
   replace every non-overlapping occurrence; an empty needle changes nothing.
   */
  function ReplaceAll(s: string, n: string, rep: string): string
    decreases |s|
  {
    if |n| == 0 || |s| == 0 then s
    else if StartsWith(s, n) then rep + ReplaceAll(s[|n|..], n, rep)
    else [s[0]] + ReplaceAll(s[1..], n, rep)
  }

  /** Positions before `k` where no occurrence starts are copied unchanged. */
  lemma {:induction false} ReplaceAllCopiesPrefix(s: string, n: string, rep: string, k: nat)
    requires k <= |s|
    requires forall i | 0 <= i < k :: !MatchesAt(s, i, n)
    ensures ReplaceAll(s, n, rep) == s[..k] + ReplaceAll(s[k..], n, rep)
    decreases k
  {
    if |n| == 0 {
      assert s == s[..k] + s[k..];
    } else if k == 0 {
      assert s[k..] == s;
    } else {
      assert !MatchesAt(s, 0, n);
      NoMatchInTail(s, n, k);
      ReplaceAllCopiesPrefix(s[1..], n, rep, k - 1);
      assert ReplaceAll(s, n, rep) == [s[0]] + ReplaceAll(s[1..], n, rep);
      TakeCons(s, k);
    }
  }

  /** Positions free of occurrences stay free once the head is dropped. */
  lemma NoMatchInTail(s: string, n: string, k: nat)
    requires 0 < k <= |s|
    requires forall i | 0 <= i < k :: !MatchesAt(s, i, n)
    ensures forall i | 0 <= i < k - 1 :: !MatchesAt(s[1..], i, n)
  {
    forall i | 0 <= i < k - 1
      ensures !MatchesAt(s[1..], i, n)
    {
      assert !MatchesAt(s, i + 1, n);
      if i + |n| <= |s[1..]| {
        assert s[1..][i..i + |n|] == s[i + 1..i + 1 + |n|];
      }
    }
  }

  /** Cutting a sequence after its head. */
  lemma TakeCons<T>(s: seq<T>, k: nat)
    requires 0 < k <= |s|
    ensures s[..k] == [s[0]] + s[1..][..k - 1]
    ensures s[1..][k - 1..] == s[k..]
  {
  }

  /** A string in which the needle never occurs is left unchanged. */
  lemma ReplaceAllAbsent(s: string, n: string, rep: string)
    requires !Occurs(s, n)
    ensures ReplaceAll(s, n, rep) == s
  {
    forall i | 0 <= i < |s|
      ensures !MatchesAt(s, i, n)
    {
      if MatchesAt(s, i, n) {
        OccursAt(s, i, n);
      }
    }
    ReplaceAllCopiesPrefix(s, n, rep, |s|);
    assert s[..|s|] == s;
  }

  /**
   A character that does not belong to the needle cannot be part of any
   occurrence, so the replacement works on both sides of it independently.
   */
  lemma {:induction false} ReplaceAllSplitsAt(s: string, n: string, rep: string, k: nat)
    requires k < |s|
    requires s[k] !in n
    ensures ReplaceAll(s, n, rep)
         == ReplaceAll(s[..k], n, rep) + [s[k]] + ReplaceAll(s[k + 1..], n, rep)
    decreases k, 1
  {
    if |n| == 0 {
    } else if StartsWith(s, n) {
      ReplaceAllSplitsAfterMatch(s, n, rep, k);
    } else if k == 0 {
      assert s[1..] == s[k + 1..];
    } else {
      var t := s[1..];
      assert t[k - 1] == s[k];
      ReplaceAllSplitsAt(t, n, rep, k - 1);
      assert t[..k - 1] == s[..k][1..];
      assert t[k..] == s[k + 1..];
      assert !StartsWith(s[..k], n);
      assert ReplaceAll(s, n, rep) == [s[0]] + ReplaceAll(t, n, rep);
      assert ReplaceAll(s[..k], n, rep) == [s[0]] + ReplaceAll(t[..k - 1], n, rep);
      ConcatAssoc([s[0]], ReplaceAll(t[..k - 1], n, rep), [s[k]], ReplaceAll(s[k + 1..], n, rep));
    }
  }

  /** The case of ReplaceAllSplitsAt where an occurrence starts the text. */
  lemma {:induction false} ReplaceAllSplitsAfterMatch(s: string, n: string, rep: string, k: nat)
    requires k < |s| && s[k] !in n
    requires |n| > 0 && StartsWith(s, n)
    ensures ReplaceAll(s, n, rep)
         == ReplaceAll(s[..k], n, rep) + [s[k]] + ReplaceAll(s[k + 1..], n, rep)
    decreases k, 0
  {
    assert |n| <= k;
    var t := s[|n|..];
    assert t[k - |n|] == s[k];
    ReplaceAllSplitsAt(t, n, rep, k - |n|);
    assert t[..k - |n|] == s[..k][|n|..];
    assert t[k - |n| + 1..] == s[k + 1..];
    assert StartsWith(s[..k], n) by {
      assert s[..k][..|n|] == s[..|n|];
    }
    assert ReplaceAll(s, n, rep) == rep + ReplaceAll(t, n, rep);
    assert ReplaceAll(s[..k], n, rep) == rep + ReplaceAll(t[..k - |n|], n, rep);
    ConcatAssoc(rep, ReplaceAll(t[..k - |n|], n, rep), [s[k]], ReplaceAll(s[k + 1..], n, rep));
  }

  lemma Assoc<T>(a: seq<T>, b: seq<T>, c: seq<T>)
    ensures a + (b + c) == (a + b) + c
  {
  }

  lemma ConcatAssoc<T>(a: seq<T>, b: seq<T>, c: seq<T>, d: seq<T>)
    ensures a + (b + c + d) == (a + b) + c + d
    ensures a + (b + (c + d)) == a + b + c + d
  {
  }

  /** The head and tail of a concatenation whose first part is not empty. */
  lemma AppendTail<T>(a: seq<T>, b: seq<T>)
    requires |a| > 0
    ensures (a + b)[0] == a[0] && (a + b)[1..] == a[1..] + b
  {
  }

  /** Extending a prefix by one element. */
  lemma TakeSnoc<T>(s: seq<T>, i: nat)
    requires i < |s|
    ensures s[..i + 1] == s[..i] + [s[i]]
  {
  }

  /** Dropping a prefix gives back what followed it. */
  lemma DropPrefix<T>(a: seq<T>, b: seq<T>)
    ensures (a + b)[..|a|] == a && (a + b)[|a|..] == b
  {
  }

  /** What occurs in a suffix of `s` occurs in every longer suffix. */
  lemma InLongerSuffix<T>(s: seq<T>, a: nat, b: nat, x: T)
    requires a <= b <= |s| && x in s[b..]
    ensures x in s[a..]
  {
    var k :| 0 <= k < |s[b..]| && s[b..][k] == x;
    assert s[a..][k + b - a] == x;
  }

  /** Leading characters outside the needle are copied unchanged. */
  lemma {:induction false} ReplaceAllAfterPad(pad: string, n: string, rep: string, rest: string)
    requires forall i | 0 <= i < |pad| :: pad[i] !in n
    ensures ReplaceAll(pad + rest, n, rep) == pad + ReplaceAll(rest, n, rep)
    decreases |pad|
  {
    if |pad| > 0 {
      var s := pad + rest;
      assert s[0] == pad[0];
      ReplaceAllSplitsAt(s, n, rep, 0);
      assert s[1..] == pad[1..] + rest;
      ReplaceAllAfterPad(pad[1..], n, rep, rest);
      assert s[..0] == [];
      HeadTail(pad);
    } else {
      assert pad + rest == rest;
    }
  }

  /** An occurrence at the very start is replaced first. */
  lemma ReplaceAllLeadingMatch(s: string, n: string, rep: string, rest: string)
    requires |n| > 0
    requires s == n + rest
    ensures ReplaceAll(s, n, rep) == rep + ReplaceAll(rest, n, rep)
  {
    assert s[..|n|] == n;
    assert s[|n|..] == rest;
  }

  /** Replacing a needle by itself changes nothing. */
  lemma {:induction false} ReplaceAllSelf(s: string, n: string)
    ensures ReplaceAll(s, n, n) == s
    decreases |s|
  {
    if |n| == 0 || |s| == 0 {
    } else if StartsWith(s, n) {
      ReplaceAllSelf(s[|n|..], n);
      assert s == n + s[|n|..];
    } else {
      ReplaceAllSelf(s[1..], n);
      assert s == [s[0]] + s[1..];
    }
  }

  /** The characters of `s` not in `bad`, in their original order. */
  function Without(s: string, bad: set<char>): (r: string)
    ensures |r| <= |s|
    ensures forall c :: c in r <==> c in s && c !in bad
  {
    if |s| == 0 then ""
    else if s[0] in bad then Without(s[1..], bad)
    else [s[0]] + Without(s[1..], bad)
  }

  lemma {:induction false} WithoutTwice(s: string, a: set<char>, b: set<char>)
    ensures Without(Without(s, a), b) == Without(s, a + b)
  {
    if |s| == 0 {
    } else {
      WithoutTwice(s[1..], a, b);
      if s[0] !in a {
        assert ([s[0]] + Without(s[1..], a))[1..] == Without(s[1..], a);
      }
    }
  }

  /** Removing a one-character needle is filtering that character out. */
  lemma {:induction false} ReplaceSingleCharIsWithout(s: string, c: char)
    ensures ReplaceAll(s, [c], "") == Without(s, {c})
  {
    if |s| == 0 {
    } else {
      ReplaceSingleCharIsWithout(s[1..], c);
      if s[0] == c {
        assert StartsWith(s, [c]);
        assert "" + ReplaceAll(s[1..], [c], "") == ReplaceAll(s[1..], [c], "");
      } else {
        assert !StartsWith(s, [c]);
      }
    }
  }

  /** PHP's default `trim` character list: " \t\n\r\0\x0B". */
  predicate IsTrimChar(c: char) {
    c == ' ' || c == '\t' || c == '\n' || c == '\r' || c == '\0' || c == '\U{000B}'
  }

  /** Neither end of `s` is a trim character. */
  predicate IsTrimmed(s: string) {
    |s| == 0 || (!IsTrimChar(s[0]) && !IsTrimChar(s[|s| - 1]))
  }

  function TrimLeft(s: string): (r: string)
    ensures |r| <= |s| && r == s[|s| - |r|..]
    ensures forall i | 0 <= i < |s| - |r| :: IsTrimChar(s[i])
    ensures |r| > 0 ==> !IsTrimChar(r[0])
  {
    if |s| > 0 && IsTrimChar(s[0]) then TrimLeft(s[1..]) else s
  }

  function TrimRight(s: string): (r: string)
    ensures |r| <= |s| && r == s[..|r|]
    ensures forall i | |r| <= i < |s| :: IsTrimChar(s[i])
    ensures |r| > 0 ==> !IsTrimChar(r[|r| - 1])
  {
    if |s| > 0 && IsTrimChar(s[|s| - 1]) then TrimRight(s[..|s| - 1]) else s
  }

  /** How many trim characters `trim` drops from the front of `s`. */
  function LeadingTrim(s: string): nat {
    |s| - |TrimLeft(s)|
  }

  /**
   PHP `trim($s)`: the result is the slice of `s` left after dropping trim
   characters at both ends; everything dropped is a trim character.
   */
  function Trim(s: string): (r: string)
    ensures IsTrimmed(r)
    ensures LeadingTrim(s) + |r| <= |s|
    ensures r == s[LeadingTrim(s)..LeadingTrim(s) + |r|]
    ensures forall i | 0 <= i < LeadingTrim(s) :: IsTrimChar(s[i])
    ensures forall i | LeadingTrim(s) + |r| <= i < |s| :: IsTrimChar(s[i])
  {
    var l := TrimLeft(s);
    var r := TrimRight(l);
    TrimSlices(s, l, r);
    r
  }

  /** Cutting a suffix `l` of `s` and then a prefix `r` of `l` leaves a slice of `s`. */
  lemma TrimSlices(s: string, l: string, r: string)
    requires |l| <= |s| && l == s[|s| - |l|..]
    requires |r| <= |l| && r == l[..|r|]
    requires |l| > 0 ==> !IsTrimChar(l[0])
    requires forall i | |r| <= i < |l| :: IsTrimChar(l[i])
    ensures var a := |s| - |l|;
      && a + |r| <= |s|
      && r == s[a..a + |r|]
      && (|r| > 0 ==> !IsTrimChar(r[0]))
      && (forall i | a + |r| <= i < |s| :: IsTrimChar(s[i]))
  {
    var a := |s| - |l|;
    assert s[a..][..|r|] == s[a..a + |r|];
    forall i | a + |r| <= i < |s|
      ensures IsTrimChar(s[i])
    {
      assert s[i] == l[i - a];
    }
  }

  lemma TrimLeftKeeps(s: string)
    requires |s| == 0 || !IsTrimChar(s[0])
    ensures TrimLeft(s) == s
  {
  }

  lemma TrimRightKeeps(s: string)
    requires |s| == 0 || !IsTrimChar(s[|s| - 1])
    ensures TrimRight(s) == s
  {
  }

  /** Trimming a string padded on the left with trim characters recovers it. */
  lemma {:induction false} TrimLeftPadded(ws: string, x: string)
    requires forall i | 0 <= i < |ws| :: IsTrimChar(ws[i])
    requires |x| == 0 || !IsTrimChar(x[0])
    ensures TrimLeft(ws + x) == x
    decreases |ws|
  {
    if |ws| == 0 {
      assert ws + x == x;
    } else {
      assert (ws + x)[1..] == ws[1..] + x;
      TrimLeftPadded(ws[1..], x);
    }
  }

  lemma TrimPadded(ws: string, x: string)
    requires forall i | 0 <= i < |ws| :: IsTrimChar(ws[i])
    requires IsTrimmed(x)
    ensures Trim(ws + x) == x
  {
    TrimLeftPadded(ws, x);
    TrimRightKeeps(x);
  }

  lemma TrimOfTrimmed(s: string)
    requires IsTrimmed(s)
    ensures Trim(s) == s
  {
    TrimLeftKeeps(s);
    TrimRightKeeps(s);
  }

  /** `parts` glued together with `d` between neighbours (PHP `implode`). */
  function Join(parts: seq<string>, d: char): string
    requires |parts| > 0
  {
    if |parts| == 1 then parts[0] else parts[0] + [d] + Join(parts[1..], d)
  }

  function FirstIndexOf(s: string, d: char): (k: nat)
    requires d in s
    ensures k < |s| && s[k] == d && d !in s[..k]
  {
    if s[0] == d then 0
    else
      var k := 1 + FirstIndexOf(s[1..], d);
      assert s[..k] == [s[0]] + s[1..][..k - 1];
      k
  }

  lemma FirstIndexOfUnique(s: string, d: char, j: nat)
    requires j < |s| && s[j] == d && d !in s[..j]
    ensures FirstIndexOf(s, d) == j
  {
    var k := FirstIndexOf(s, d);
    assert k <= j;
  }

  /** PHP `preg_split("/\n/", $s)` for a one-character delimiter. */
  function Split(s: string, d: char): (r: seq<string>)
    ensures |r| > 0
    ensures forall i | 0 <= i < |r| :: d !in r[i]
    ensures Join(r, d) == s
    decreases |s|
  {
    if d !in s then [s]
    else
      var k := FirstIndexOf(s, d);
      var rest := Split(s[k + 1..], d);
      var r := [s[..k]] + rest;
      assert r[1..] == rest;
      assert s == s[..k] + [d] + s[k + 1..];
      r
  }

  /** Splitting undoes joining when no part contains the delimiter. */
  lemma {:induction false} SplitJoin(parts: seq<string>, d: char)
    requires |parts| > 0
    requires forall i | 0 <= i < |parts| :: d !in parts[i]
    ensures Split(Join(parts, d), d) == parts
  {
    if |parts| > 1 {
      var rest := parts[1..];
      assert forall i | 0 <= i < |rest| :: d !in rest[i] by {
        forall i | 0 <= i < |rest|
          ensures d !in rest[i]
        {
          assert rest[i] == parts[i + 1];
        }
      }
      SplitJoin(rest, d);
      SplitAtFirst(parts[0], d, Join(rest, d));
      HeadTail(parts);
    }
  }

  /** Splitting at the first delimiter yields the part before it, then the split of the rest. */
  lemma SplitAtFirst(p: string, d: char, tail: string)
    requires d !in p
    ensures Split(p + [d] + tail, d) == [p] + Split(tail, d)
  {
    var s := p + [d] + tail;
    assert s[|p|] == d;
    assert s[..|p|] == p;
    FirstIndexOfUnique(s, d, |p|);
    assert s[|p| + 1..] == tail;
  }


  predicate IsDigit(c: char) {
    '0' <= c <= '9'
  }

  predicate AllDigits(s: string) {
    forall i | 0 <= i < |s| :: IsDigit(s[i])
  }

  /** The value of a string of decimal digits (PHP `(int)` on such a string). */
  function DecimalValue(s: string): nat
    requires AllDigits(s)
  {
    if |s| == 0 then 0
    else DecimalValue(s[..|s| - 1]) * 10 + ((s[|s| - 1] as int) - ('0' as int))
  }

  /** A decimal value is zero exactly when every digit is '0'. */
  lemma {:induction false} DecimalValueZero(s: string)
    requires AllDigits(s)
    ensures DecimalValue(s) == 0 <==> forall i | 0 <= i < |s| :: s[i] == '0'
  {
    if |s| > 0 {
      var init := s[..|s| - 1];
      DecimalValueZero(init);
      assert forall i | 0 <= i < |init| :: init[i] == s[i];
    }
  }
}
