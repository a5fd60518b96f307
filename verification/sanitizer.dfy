/**
 The path sanitizer: `str_replace($this->invalidBranchCharacters, '', $x)`,
 which turns a branch name into the part of a directory name that stands for
 it (Gitphull.php:96, 521, 524, 535, 563, 675).
 */
module Sanitizer {
  import opened Strings

  /** The default invalid characters `-`, `_` and `/`. */
  const DefaultInvalid: seq<string> := ["-", "_", "/"]

  /**
   `str_replace` with an array of needles and an empty replacement: each
   needle in turn is removed from the result of the previous one.
   */
  function Sanitize(invalid: seq<string>, name: string): string
    decreases |invalid|
  {
    if |invalid| == 0 then name
    else Sanitize(invalid[1..], ReplaceAll(name, invalid[0], ""))
  }

  /** `str_replace` applied to every element of a list, in place. */
  function SanitizeAll(invalid: seq<string>, names: seq<string>): (r: seq<string>)
    ensures |r| == |names|
    ensures forall i | 0 <= i < |names| :: r[i] == Sanitize(invalid, names[i])
  {
    seq(|names|, i requires 0 <= i < |names| => Sanitize(invalid, names[i]))
  }

  /** Every configured invalid entry is a single character (true of the default). */
  predicate SingleChars(invalid: seq<string>) {
    forall i | 0 <= i < |invalid| :: |invalid[i]| == 1
  }

  /** The characters named by the single-character entries. */
  function InvalidSet(invalid: seq<string>): set<char> {
    set i | 0 <= i < |invalid| && |invalid[i]| == 1 :: invalid[i][0]
  }

  lemma DefaultInvalidChars()
    ensures SingleChars(DefaultInvalid)
    ensures InvalidSet(DefaultInvalid) == {'-', '_', '/'}
  {
    assert DefaultInvalid[0][0] == '-';
    assert DefaultInvalid[1][0] == '_';
    assert DefaultInvalid[2][0] == '/';
  }

  /** The empty name stays empty. */
  lemma {:induction false} SanitizeEmpty(invalid: seq<string>)
    ensures Sanitize(invalid, "") == ""
    decreases |invalid|
  {
    if |invalid| > 0 {
      SanitizeEmpty(invalid[1..]);
    }
  }

  /** With single-character needles, sanitizing is filtering those characters out. */
  lemma {:induction false} SanitizeIsWithout(invalid: seq<string>, name: string)
    requires SingleChars(invalid)
    ensures Sanitize(invalid, name) == Without(name, InvalidSet(invalid))
    decreases |invalid|
  {
    if |invalid| == 0 {
      assert InvalidSet(invalid) == {};
      assert Without(name, {}) == name by {
        WithoutNothing(name);
      }
    } else {
      var c := invalid[0][0];
      assert invalid[0] == [c];
      ReplaceSingleCharIsWithout(name, c);
      var once := Without(name, {c});
      SanitizeIsWithout(invalid[1..], once);
      WithoutTwice(name, {c}, InvalidSet(invalid[1..]));
      assert InvalidSet(invalid) == {c} + InvalidSet(invalid[1..]) by {
        forall x | x in InvalidSet(invalid)
          ensures x in {c} + InvalidSet(invalid[1..])
        {
          var i :| 0 <= i < |invalid| && |invalid[i]| == 1 && invalid[i][0] == x;
          if i > 0 {
            assert invalid[1..][i - 1] == invalid[i];
          }
        }
        forall x | x in InvalidSet(invalid[1..])
          ensures x in InvalidSet(invalid)
        {
          var i :| 0 <= i < |invalid[1..]| && |invalid[1..][i]| == 1 && invalid[1..][i][0] == x;
          assert invalid[i + 1] == invalid[1..][i];
        }
      }
    }
  }

  lemma {:induction false} WithoutNothing(s: string)
    ensures Without(s, {}) == s
  {
    if |s| > 0 {
      WithoutNothing(s[1..]);
    }
  }

  /**
   The sanitized name holds none of the invalid characters and every other
   character of the name.
   */
  lemma SanitizeRemovesInvalid(invalid: seq<string>, name: string)
    requires SingleChars(invalid)
    ensures forall c :: c in Sanitize(invalid, name) <==> c in name && c !in InvalidSet(invalid)
  {
    SanitizeIsWithout(invalid, name);
  }

  /** Sanitizing twice is sanitizing once. */
  lemma SanitizeIdempotent(invalid: seq<string>, name: string)
    requires SingleChars(invalid)
    ensures Sanitize(invalid, Sanitize(invalid, name)) == Sanitize(invalid, name)
  {
    var bad := InvalidSet(invalid);
    SanitizeIsWithout(invalid, name);
    SanitizeIsWithout(invalid, Without(name, bad));
    WithoutTwice(name, bad, bad);
    assert bad + bad == bad;
  }

  /**
   A multi-character entry is a substring needle, and then sanitizing is not
   idempotent: removing "ab" from "aabb" leaves "ab".
   */
  lemma MultiCharEntryNotIdempotent()
    ensures Sanitize(["ab"], "aabb") == "ab"
    ensures Sanitize(["ab"], "ab") == ""
  {
    assert "aabb"[0..2][1] == 'a';
    assert !StartsWith("aabb", "ab");
    assert "aabb"[1..] == "abb";
    ReplaceAllLeadingMatch("abb", "ab", "", "b");
    assert !StartsWith("b", "ab");
    assert ReplaceAll("b", "ab", "") == "b";
    assert ReplaceAll("aabb", "ab", "") == "ab";
    assert ["ab"][1..] == [];
    ReplaceAllLeadingMatch("ab", "ab", "", "");
  }
}
