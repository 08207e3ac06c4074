/**
 * The .NET string operations the program relies on, with ordinal (code point by
 * code point) comparison: Contains, Replace, Split, Trim, TrimEnd, ToLower and
 * case-insensitive comparison. Case folding and white space are ASCII only.
 */
module Text {

  /** `p` is a prefix of `s`. */
  predicate IsPrefix(p: string, s: string) {
    |p| <= |s| && s[..|p|] == p
  }

  /** `p` occurs in `s` at some position (ordinal `String.Contains`). */
  predicate Occurs(p: string, s: string)
    decreases |s|
  {
    IsPrefix(p, s) || (|s| > 0 && Occurs(p, s[1..]))
  }

  /** Ordinal `String.Replace(pat, rep)`: scans `s` from the left and substitutes
      every non-overlapping occurrence of `pat`. An empty `pat` (which .NET
      rejects, and which the program never passes) leaves `s` as it is. */
  function Replace(s: string, pat: string, rep: string): string
    decreases |s|
  {
    if |pat| == 0 || |s| < |pat| then s
    else if s[..|pat|] == pat then rep + Replace(s[|pat|..], pat, rep)
    else [s[0]] + Replace(s[1..], pat, rep)
  }

  /** `String.Replace(char, char)`. */
  function ReplaceChar(s: string, c: char, d: char): (r: string)
    ensures |r| == |s|
    ensures forall i :: 0 <= i < |s| ==> r[i] == if s[i] == c then d else s[i]
  {
    seq(|s|, i requires 0 <= i < |s| => if s[i] == c then d else s[i])
  }

  /** `String.Split(c)`: the pieces between the separators, empty ones included. */
  function Split(s: string, c: char): (r: seq<string>)
    ensures |r| >= 1
    ensures forall i :: 0 <= i < |r| ==> c !in r[i]
    decreases |s|
  {
    if |s| == 0 then [""]
    else if s[0] == c then [""] + Split(s[1..], c)
    else
      var rest := Split(s[1..], c);
      [[s[0]] + rest[0]] + rest[1..]
  }

  /** `String.Join(c, parts)`. */
  function Join(parts: seq<string>, c: char): string
    decreases |parts|
  {
    if |parts| == 0 then ""
    else if |parts| == 1 then parts[0]
    else parts[0] + [c] + Join(parts[1..], c)
  }

  /** The white-space characters that `Trim()` and the integer parser skip (ASCII only). */
  const WHITESPACE: set<char> := {' ', '\t', '\n', 11 as char, 12 as char, '\r'}

  function TrimStartSet(s: string, cs: set<char>): (r: string)
    ensures |r| > 0 ==> r[0] !in cs
    decreases |s|
  {
    if |s| > 0 && s[0] in cs then TrimStartSet(s[1..], cs) else s
  }

  /** `String.TrimEnd(cs)`. */
  function TrimEndSet(s: string, cs: set<char>): (r: string)
    ensures |r| <= |s| && r == s[..|r|]
    ensures |r| > 0 ==> r[|r| - 1] !in cs
    decreases |s|
  {
    if |s| > 0 && s[|s| - 1] in cs then TrimEndSet(s[..|s| - 1], cs) else s
  }

  /** `String.Trim(cs)`: drops the characters of `cs` from both ends. */
  function TrimSet(s: string, cs: set<char>): (r: string)
    ensures |r| > 0 ==> r[0] !in cs && r[|r| - 1] !in cs
  {
    TrimEndSet(TrimStartSet(s, cs), cs)
  }

  /** `String.Trim()`. */
  function Trim(s: string): string {
    TrimSet(s, WHITESPACE)
  }

  function LowerChar(c: char): char {
    if 'A' <= c <= 'Z' then (c as int + 32) as char else c
  }

  /** `String.ToLower()`, ASCII letters only. */
  function Lower(s: string): (r: string)
    ensures |r| == |s|
  {
    seq(|s|, i requires 0 <= i < |s| => LowerChar(s[i]))
  }

  /** Case-insensitive equality (ASCII case folding). */
  predicate EqualsIgnoreCase(a: string, b: string) {
    Lower(a) == Lower(b)
  }

  /** Case-insensitive `String.EndsWith`. */
  predicate EndsWithIgnoreCase(s: string, suffix: string) {
    |suffix| <= |s| && EqualsIgnoreCase(s[|s| - |suffix|..], suffix)
  }

  // ---------------------------------------------------------------------------
  // Occurrence

  lemma OccursRefl(s: string)
    ensures Occurs(s, s)
  {
    assert s[..|s|] == s;
  }

  lemma {:induction false} OccursSlice(s: string, i: nat, j: nat)
    requires i <= j <= |s|
    ensures Occurs(s[i..j], s)
    decreases i
  {
    if i == 0 {
      assert s[..j - i] == s[i..j];
    } else {
      OccursSlice(s[1..], i - 1, j - 1);
      var t := s[1..];
      var u := t[i - 1..j - 1];
      assert forall m :: 0 <= m < j - i ==> u[m] == s[i + m];
      assert t[i - 1..j - 1] == s[i..j];
    }
  }

  lemma {:induction false} OccursInPrefix(t: string, x: string, y: string)
    requires Occurs(t, x) && IsPrefix(x, y)
    ensures Occurs(t, y)
    decreases |x|
  {
    if IsPrefix(t, x) {
      assert y[..|t|] == x[..|t|];
    } else {
      assert x[1..] == y[1..][..|x| - 1];
      OccursInPrefix(t, x[1..], y[1..]);
    }
  }

  /** Occurrence is transitive: a substring of a substring is a substring. */
  lemma {:induction false} OccursTrans(t: string, x: string, y: string)
    requires Occurs(t, x) && Occurs(x, y)
    ensures Occurs(t, y)
    decreases |y|
  {
    if IsPrefix(x, y) {
      OccursInPrefix(t, x, y);
    } else {
      OccursTrans(t, x, y[1..]);
    }
  }

  /** An occurrence starts at an index whose character is the pattern's first one. */
  lemma {:induction false} OccursHead(p: string, s: string)
    requires |p| > 0 && Occurs(p, s)
    ensures p[0] in s
    decreases |s|
  {
    if !IsPrefix(p, s) {
      OccursHead(p, s[1..]);
    }
  }

  // ---------------------------------------------------------------------------
  // Replace

  /** Without an occurrence of the pattern, Replace changes nothing. */
  lemma {:induction false} ReplaceAbsent(s: string, pat: string, rep: string)
    requires !Occurs(pat, s)
    ensures Replace(s, pat, rep) == s
    decreases |s|
  {
    if |pat| == 0 || |s| < |pat| {
    } else {
      ReplaceAbsent(s[1..], pat, rep);
    }
  }

  /** An occurrence at the front is substituted, and the scan resumes after it. */
  lemma ReplaceHead(pat: string, b: string, rep: string)
    requires |pat| > 0
    ensures Replace(pat + b, pat, rep) == rep + Replace(b, pat, rep)
  {
    assert (pat + b)[..|pat|] == pat;
    assert (pat + b)[|pat|..] == b;
  }

  /** Where the pattern does not match at the front, the first character is kept. */
  lemma ReplaceNoMatch(s: string, pat: string, rep: string)
    requires |pat| > 0 && |s| > 0 && !IsPrefix(pat, s)
    ensures Replace(s, pat, rep) == [s[0]] + Replace(s[1..], pat, rep)
  {
    if |s| < |pat| {
      assert Replace(s[1..], pat, rep) == s[1..];
      assert s == [s[0]] + s[1..];
    }
  }

  /** A prefix without the pattern's first character passes through untouched. */
  lemma {:induction false} ReplaceFreePrefix(a: string, b: string, pat: string, rep: string)
    requires |pat| > 0 && pat[0] !in a
    ensures Replace(a + b, pat, rep) == a + Replace(b, pat, rep)
    decreases |a|
  {
    if |a| == 0 {
      assert a + b == b;
    } else if |a + b| < |pat| {
      assert Replace(b, pat, rep) == b;
    } else {
      assert (a + b)[0] == a[0] != pat[0];
      assert (a + b)[1..] == a[1..] + b;
      ReplaceFreePrefix(a[1..], b, pat, rep);
    }
  }

  /** For a one-character pattern, Replace works piece by piece. */
  lemma {:induction false} ReplaceCharConcat(a: string, b: string, c: char, rep: string)
    ensures Replace(a + b, [c], rep) == Replace(a, [c], rep) + Replace(b, [c], rep)
    decreases |a|
  {
    if |a| == 0 {
      assert a + b == b;
    } else {
      assert (a + b)[..1] == a[..1];
      assert (a + b)[1..] == a[1..] + b;
      ReplaceCharConcat(a[1..], b, c, rep);
    }
  }

  /** Replacing a character by the empty string removes every occurrence of it. */
  lemma {:induction false} ReplaceRemoves(s: string, c: char)
    ensures c !in Replace(s, [c], "")
    ensures |Replace(s, [c], "")| <= |s|
    decreases |s|
  {
    if |s| > 0 {
      ReplaceRemoves(s[1..], c);
    }
  }

  /** `ReplaceChar` keeps every character other than the two it names. */
  lemma ReplaceCharPreserves(s: string, c: char, d: char, e: char)
    requires e != d && e !in s
    ensures e !in ReplaceChar(s, c, d)
  {
  }

  // ---------------------------------------------------------------------------
  // Split and Join

  /** The first piece of a split is a prefix of the string. */
  lemma {:induction false} SplitFirstIsPrefix(s: string, c: char)
    ensures IsPrefix(Split(s, c)[0], s)
    decreases |s|
  {
    if |s| > 0 && s[0] != c {
      SplitFirstIsPrefix(s[1..], c);
    }
  }

  /** Every piece of a split occurs in the string. */
  lemma {:induction false} SplitPiecesOccur(s: string, c: char, i: nat)
    requires i < |Split(s, c)|
    ensures Occurs(Split(s, c)[i], s)
    decreases |s|
  {
    var r := Split(s, c);
    if |s| == 0 {
      OccursRefl(s);
    } else if s[0] == c {
      if i == 0 {
        assert IsPrefix(r[0], s);
      } else {
        SplitPiecesOccur(s[1..], c, i - 1);
      }
    } else if i == 0 {
      SplitFirstIsPrefix(s, c);
      OccursRefl(r[0]);
      OccursInPrefix(r[0], r[0], s);
    } else {
      SplitPiecesOccur(s[1..], c, i);
    }
  }

  /** Joining the pieces of a split with the separator gives the string back. */
  lemma {:induction false} JoinSplit(s: string, c: char)
    ensures Join(Split(s, c), c) == s
    decreases |s|
  {
    if |s| == 0 {
    } else {
      var rest := Split(s[1..], c);
      JoinSplit(s[1..], c);
      if s[0] == c {
        assert Split(s, c) == [""] + rest;
        assert Join(Split(s, c), c) == "" + [c] + Join(rest, c);
      } else {
        var r := Split(s, c);
        assert r[1..] == rest[1..];
        if |rest| == 1 {
          assert Join(r, c) == [s[0]] + rest[0];
        } else {
          assert Join(rest, c) == rest[0] + [c] + Join(rest[1..], c);
          assert Join(r, c) == [s[0]] + rest[0] + [c] + Join(rest[1..], c);
        }
      }
    }
  }

  /** Splitting a join of separator-free pieces gives the pieces back. */
  /** Joining parts whose first part is not empty starts with that part's first character. */
  lemma JoinHead(parts: seq<string>, c: char)
    requires |parts| >= 1 && |parts[0]| > 0
    ensures Join(parts, c) == [parts[0][0]] + Join([parts[0][1..]] + parts[1..], c)
  {
    var p := parts[0];
    var tail := [p[1..]] + parts[1..];
    assert tail[1..] == parts[1..];
    if |parts| > 1 {
      assert p + [c] + Join(parts[1..], c) == [p[0]] + (p[1..] + [c] + Join(parts[1..], c));
    } else {
      assert p == [p[0]] + p[1..];
    }
  }

  lemma SplitCons(x: char, rest: string, c: char)
    ensures Split([x] + rest, c) ==
      if x == c then [""] + Split(rest, c)
      else [[x] + Split(rest, c)[0]] + Split(rest, c)[1..]
  {
    assert ([x] + rest)[1..] == rest;
  }

  lemma {:induction false} SplitJoin(parts: seq<string>, c: char)
    requires |parts| >= 1
    requires forall i :: 0 <= i < |parts| ==> c !in parts[i]
    ensures Split(Join(parts, c), c) == parts
    decreases |parts|, |parts[0]|
  {
    if |parts[0]| > 0 {
      var p := parts[0];
      var tail := [p[1..]] + parts[1..];
      assert tail[1..] == parts[1..];
      SplitJoin(tail, c);
      JoinHead(parts, c);
      SplitCons(p[0], Join(tail, c), c);
      assert [p[0]] + p[1..] == p;
      assert [p] + parts[1..] == parts;
    } else if |parts| > 1 {
      SplitJoin(parts[1..], c);
      assert Join(parts, c) == [c] + Join(parts[1..], c);
      SplitCons(c, Join(parts[1..], c), c);
      assert [parts[0]] + parts[1..] == parts;
    }
  }


  /** A piece free of the separator, then the separator: that piece comes first. */
  lemma {:induction false} SplitAfter(a: string, rest: string, c: char)
    requires c !in a
    ensures Split(a + [c] + rest, c) == [a] + Split(rest, c)
    decreases |a|
  {
    if |a| == 0 {
      assert a + [c] + rest == [c] + rest;
      SplitCons(c, rest, c);
    } else {
      SplitAfter(a[1..], rest, c);
      assert a + [c] + rest == [a[0]] + (a[1..] + [c] + rest);
      SplitCons(a[0], a[1..] + [c] + rest, c);
      assert [a[0]] + a[1..] == a;
    }
  }

  /** A string holding the separator splits into at least two pieces. */
  lemma {:induction false} SplitAtLeastTwo(s: string, c: char)
    requires c in s
    ensures |Split(s, c)| >= 2
    decreases |s|
  {
    if s[0] != c {
      SplitAtLeastTwo(s[1..], c);
    }
  }

  /** A string without the separator is its own single piece. */
  lemma {:induction false} SplitNoSeparator(s: string, c: char)
    requires c !in s
    ensures Split(s, c) == [s]
    decreases |s|
  {
    if |s| > 0 {
      SplitNoSeparator(s[1..], c);
      assert [s[0]] + s[1..] == s;
    }
  }

  // ---------------------------------------------------------------------------
  // Trim

  lemma {:induction false} TrimStartIsSuffix(s: string, cs: set<char>)
    ensures exists i :: 0 <= i <= |s| && TrimStartSet(s, cs) == s[i..]
    decreases |s|
  {
    if |s| > 0 && s[0] in cs {
      TrimStartIsSuffix(s[1..], cs);
      var i :| 0 <= i <= |s[1..]| && TrimStartSet(s[1..], cs) == s[1..][i..];
      assert s[1..][i..] == s[i + 1..];
    } else {
      assert s == s[0..];
    }
  }

  lemma {:induction false} TrimEndIsPrefix(s: string, cs: set<char>)
    ensures exists j :: 0 <= j <= |s| && TrimEndSet(s, cs) == s[..j]
    decreases |s|
  {
    if |s| > 0 && s[|s| - 1] in cs {
      TrimEndIsPrefix(s[..|s| - 1], cs);
      var j :| 0 <= j <= |s| - 1 && TrimEndSet(s[..|s| - 1], cs) == s[..|s| - 1][..j];
      assert s[..|s| - 1][..j] == s[..j];
    } else {
      assert s == s[..|s|];
    }
  }

  /** Trimming keeps a contiguous middle part of the string. */
  lemma TrimIsSlice(s: string, cs: set<char>)
    ensures exists i, j :: 0 <= i <= j <= |s| && TrimSet(s, cs) == s[i..j]
  {
    TrimStartIsSuffix(s, cs);
    var i :| 0 <= i <= |s| && TrimStartSet(s, cs) == s[i..];
    TrimEndIsPrefix(s[i..], cs);
    var j :| 0 <= j <= |s[i..]| && TrimEndSet(s[i..], cs) == s[i..][..j];
    assert s[i..][..j] == s[i..i + j];
  }

  /** The trimmed string occurs in the original. */
  lemma TrimOccurs(s: string, cs: set<char>)
    ensures Occurs(TrimSet(s, cs), s)
  {
    TrimIsSlice(s, cs);
    var i, j :| 0 <= i <= j <= |s| && TrimSet(s, cs) == s[i..j];
    OccursSlice(s, i, j);
  }

  /** Trimming only removes characters: nothing new appears. */
  lemma TrimSubset(s: string, cs: set<char>, c: char)
    requires c !in s
    ensures c !in TrimSet(s, cs)
  {
    TrimIsSlice(s, cs);
  }

  /** A character that cannot be trimmed survives trimming. */
  lemma {:induction false} TrimKeeps(s: string, cs: set<char>, c: char)
    requires c in s && c !in cs
    ensures c in TrimSet(s, cs)
  {
    TrimStartKeeps(s, cs, c);
    TrimEndKeeps(TrimStartSet(s, cs), cs, c);
  }

  lemma {:induction false} TrimStartKeeps(s: string, cs: set<char>, c: char)
    requires c in s && c !in cs
    ensures c in TrimStartSet(s, cs)
    decreases |s|
  {
    if |s| > 0 && s[0] in cs {
      assert s[0] != c;
      assert c in s[1..];
      TrimStartKeeps(s[1..], cs, c);
    }
  }

  lemma {:induction false} TrimEndKeeps(s: string, cs: set<char>, c: char)
    requires c in s && c !in cs
    ensures c in TrimEndSet(s, cs)
    decreases |s|
  {
    if |s| > 0 && s[|s| - 1] in cs {
      assert s[|s| - 1] != c;
      assert c in s[..|s| - 1];
      TrimEndKeeps(s[..|s| - 1], cs, c);
    }
  }

  /** A string that neither starts nor ends with a character of `cs` is not trimmed. */
  lemma TrimUntouched(s: string, cs: set<char>)
    requires |s| > 0 ==> s[0] !in cs && s[|s| - 1] !in cs
    ensures TrimSet(s, cs) == s
  {
  }

  /** A string that starts and ends with a visible character (from `!` up) is not trimmed. */
  lemma TrimVisible(s: string)
    requires |s| > 0 ==> '!' <= s[0] && '!' <= s[|s| - 1]
    ensures Trim(s) == s
  {
    TrimUntouched(s, WHITESPACE);
  }

  /** Trimming twice is trimming once. */
  lemma TrimIdempotent(s: string, cs: set<char>)
    ensures TrimSet(TrimSet(s, cs), cs) == TrimSet(s, cs)
  {
    TrimUntouched(TrimSet(s, cs), cs);
  }

  // ---------------------------------------------------------------------------
  // Case folding

  lemma LowerNoUpper(s: string)
    ensures forall i :: 0 <= i < |s| ==> !('A' <= Lower(s)[i] <= 'Z')
  {
  }

  /** A string without upper-case ASCII letters is its own lower-case form. */
  lemma LowerFixed(s: string)
    requires forall i :: 0 <= i < |s| ==> !('A' <= s[i] <= 'Z')
    ensures Lower(s) == s
  {
  }

  lemma LowerIdempotent(s: string)
    ensures Lower(Lower(s)) == Lower(s)
  {
    LowerFixed(Lower(s));
  }
}
