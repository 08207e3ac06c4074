/**
 * CleanString: makes a show name or report title safe as a file name by
 * replacing (or, when replacing is switched off, deleting) the nine characters
 * Windows refuses in file names, then trimming white space.
 */
module Sanitizer {
  import opened Text
  import Settings

  /** The characters not allowed in a file name, in the order the program treats them. */
  const BAD_CHARACTERS: seq<char> := ['\\', '/', '<', '>', '?', '*', ':', '|', '"']
  /** The substitute for each bad character in replace mode, position by position. */
  const GOOD_CHARACTERS: seq<char> := ['+', '+', '{', '}', '!', '@', '-', '#', '`']

  predicate IsBad(c: char) {
    c in BAD_CHARACTERS
  }

  /** The position of `c` in the bad-character table, or the table's length when absent. */
  function BadIndex(c: char): (i: nat)
    ensures i <= |BAD_CHARACTERS|
    ensures i < |BAD_CHARACTERS| <==> IsBad(c)
    ensures i < |BAD_CHARACTERS| ==> BAD_CHARACTERS[i] == c
  {
    if c == '\\' then 0 else if c == '/' then 1 else if c == '<' then 2
    else if c == '>' then 3 else if c == '?' then 4 else if c == '*' then 5
    else if c == ':' then 6 else if c == '|' then 7 else if c == '"' then 8
    else 9
  }

  /** What the first `k` rounds of the table do to the single character `c`. */
  function Substitute(replace: bool, c: char, k: nat): string
    requires k <= |BAD_CHARACTERS|
  {
    if BadIndex(c) < k then (if replace then [GOOD_CHARACTERS[BadIndex(c)]] else "")
    else [c]
  }

  /** The name after the first `k` rounds of the table, character by character. */
  function Scrub(replace: bool, s: string, k: nat): string
    requires k <= |BAD_CHARACTERS|
    decreases |s|
  {
    if |s| == 0 then "" else Substitute(replace, s[0], k) + Scrub(replace, s[1..], k)
  }

  /** The result of CleanString: every bad character mapped through the table, then trimmed. */
  function Sanitize(replace: bool, name: string): string {
    Trim(Scrub(replace, name, |BAD_CHARACTERS|))
  }

  /** CleanString (Program.cs): one `Replace` per table entry, then `Trim`. */
  method CleanString(cfg: Settings.Config, name: string) returns (cleaned: string)
    ensures cleaned == Sanitize(cfg.sabReplaceChars, name)
  {
    var result := name;
    ScrubNothing(cfg.sabReplaceChars, name);
    for i := 0 to |BAD_CHARACTERS|
      invariant result == Scrub(cfg.sabReplaceChars, name, i)
    {
      ScrubRound(cfg.sabReplaceChars, name, i);
      if cfg.sabReplaceChars {
        result := Replace(result, [BAD_CHARACTERS[i]], [GOOD_CHARACTERS[i]]);
      } else {
        result := Replace(result, [BAD_CHARACTERS[i]], "");
      }
    }
    cleaned := Trim(result);
  }

  // ---------------------------------------------------------------------------

  lemma {:induction false} ScrubNothing(replace: bool, s: string)
    ensures Scrub(replace, s, 0) == s
    decreases |s|
  {
    if |s| > 0 {
      ScrubNothing(replace, s[1..]);
      assert [s[0]] + s[1..] == s;
    }
  }

  /** One more round of the table, on a single character. */
  lemma SubstituteRound(replace: bool, c: char, k: nat)
    requires k < |BAD_CHARACTERS|
    ensures Replace(Substitute(replace, c, k), [BAD_CHARACTERS[k]], if replace then [GOOD_CHARACTERS[k]] else "")
            == Substitute(replace, c, k + 1)
  {
    var rep := if replace then [GOOD_CHARACTERS[k]] else "";
    var pat := [BAD_CHARACTERS[k]];
    var head := Substitute(replace, c, k);
    var i := BadIndex(c);
    if i < k {
      if replace {
        assert GOOD_CHARACTERS[i] != BAD_CHARACTERS[k];
        assert head[..1] == head != pat;
        assert Replace(head, pat, rep) == head + Replace("", pat, rep);
      }
    } else if i == k {
      assert head[..1] == pat;
      assert Replace(head, pat, rep) == rep + Replace("", pat, rep);
    } else {
      assert head[..1] == head != pat;
      assert Replace(head, pat, rep) == head + Replace("", pat, rep);
    }
  }

  /** One more round of the table is one more `Replace`: no substitute is itself a
      bad character, so a later round never touches an earlier round's output. */
  lemma {:induction false} ScrubRound(replace: bool, s: string, k: nat)
    requires k < |BAD_CHARACTERS|
    ensures Replace(Scrub(replace, s, k), [BAD_CHARACTERS[k]], if replace then [GOOD_CHARACTERS[k]] else "")
            == Scrub(replace, s, k + 1)
    decreases |s|
  {
    if |s| > 0 {
      var rep := if replace then [GOOD_CHARACTERS[k]] else "";
      ReplaceCharConcat(Substitute(replace, s[0], k), Scrub(replace, s[1..], k), BAD_CHARACTERS[k], rep);
      ScrubRound(replace, s[1..], k);
      SubstituteRound(replace, s[0], k);
    }
  }

  lemma {:induction false} ScrubConcat(replace: bool, a: string, b: string, k: nat)
    requires k <= |BAD_CHARACTERS|
    ensures Scrub(replace, a + b, k) == Scrub(replace, a, k) + Scrub(replace, b, k)
    decreases |a|
  {
    if |a| == 0 {
      assert a + b == b;
    } else {
      assert (a + b)[0] == a[0] && (a + b)[1..] == a[1..] + b;
      ScrubConcat(replace, a[1..], b, k);
      var head := Substitute(replace, a[0], k);
      assert Scrub(replace, a + b, k) == head + (Scrub(replace, a[1..], k) + Scrub(replace, b, k));
    }
  }

  lemma {:induction false} ScrubNoBad(replace: bool, s: string)
    ensures forall i :: 0 <= i < |Scrub(replace, s, |BAD_CHARACTERS|)| ==> !IsBad(Scrub(replace, s, |BAD_CHARACTERS|)[i])
    decreases |s|
  {
    if |s| > 0 {
      ScrubNoBad(replace, s[1..]);
    }
  }

  /** A name without bad characters passes through the table unchanged. */
  lemma {:induction false} ScrubClean(replace: bool, s: string)
    requires forall i :: 0 <= i < |s| ==> !IsBad(s[i])
    ensures Scrub(replace, s, |BAD_CHARACTERS|) == s
    decreases |s|
  {
    if |s| > 0 {
      ScrubClean(replace, s[1..]);
      assert [s[0]] + s[1..] == s;
    }
  }

  /** The cleaned name holds none of `\ / < > ? * : | "`, in either mode. */
  lemma SanitizeNoBad(replace: bool, name: string)
    ensures forall i :: 0 <= i < |Sanitize(replace, name)| ==> !IsBad(Sanitize(replace, name)[i])
  {
    var scrubbed := Scrub(replace, name, |BAD_CHARACTERS|);
    ScrubNoBad(replace, name);
    forall c | IsBad(c)
      ensures c !in Trim(scrubbed)
    {
      TrimSubset(scrubbed, WHITESPACE, c);
    }
  }

  /** Cleaning an already cleaned name changes nothing. */
  lemma SanitizeIdempotent(replace: bool, name: string)
    ensures Sanitize(replace, Sanitize(replace, name)) == Sanitize(replace, name)
  {
    var once := Sanitize(replace, name);
    SanitizeNoBad(replace, name);
    ScrubClean(replace, once);
    TrimIdempotent(Scrub(replace, name, |BAD_CHARACTERS|), WHITESPACE);
  }

  /** In replace mode every character keeps its place; a bad one becomes its substitute. */
  lemma {:induction false} ScrubReplaces(s: string)
    ensures |Scrub(true, s, |BAD_CHARACTERS|)| == |s|
    ensures forall i :: 0 <= i < |s| ==>
      Scrub(true, s, |BAD_CHARACTERS|)[i] == if IsBad(s[i]) then GOOD_CHARACTERS[BadIndex(s[i])] else s[i]
    decreases |s|
  {
    if |s| > 0 {
      ScrubReplaces(s[1..]);
      var r := Scrub(true, s, |BAD_CHARACTERS|);
      assert r == Substitute(true, s[0], |BAD_CHARACTERS|) + Scrub(true, s[1..], |BAD_CHARACTERS|);
      forall i | 0 < i < |s|
        ensures r[i] == if IsBad(s[i]) then GOOD_CHARACTERS[BadIndex(s[i])] else s[i]
      {
        assert r[i] == Scrub(true, s[1..], |BAD_CHARACTERS|)[i - 1];
        assert s[1..][i - 1] == s[i];
      }
    }
  }

  /** In delete mode every other character keeps its multiplicity (and, by
      ScrubConcat, its order); the bad ones are gone. */
  lemma {:induction false} ScrubDeletes(s: string, c: char)
    ensures multiset(Scrub(false, s, |BAD_CHARACTERS|))[c] == if IsBad(c) then 0 else multiset(s)[c]
    decreases |s|
  {
    if |s| > 0 {
      ScrubDeletes(s[1..], c);
      assert s == [s[0]] + s[1..];
      assert multiset(s) == multiset([s[0]]) + multiset(s[1..]);
    }
  }
  lemma {:induction false} ScrubNoNewChars(replace: bool, s: string, c: char)
    requires c !in s && c !in GOOD_CHARACTERS
    ensures c !in Scrub(replace, s, |BAD_CHARACTERS|)
    decreases |s|
  {
    if |s| > 0 {
      ScrubNoNewChars(replace, s[1..], c);
    }
  }

  /** Cleaning introduces no character other than the substitutes. */
  lemma SanitizeNoNewChars(replace: bool, name: string, c: char)
    requires c !in name && c !in GOOD_CHARACTERS
    ensures c !in Sanitize(replace, name)
  {
    ScrubNoNewChars(replace, name, c);
    TrimSubset(Scrub(replace, name, |BAD_CHARACTERS|), WHITESPACE, c);
  }
}
