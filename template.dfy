/**
 * The renderers expand a naming template by a fixed list of `Replace` calls, one
 * per token, longest tokens first. This module states when that chain of
 * replacements agrees with reading the template once from left to right and
 * substituting each token by its value, and proves it.
 */
module Template {
  import opened Text

  /** A template cut into literal text and tokens; `Tok(k)` stands for the k-th pattern. */
  datatype Piece = Lit(text: string) | Tok(index: nat)

  /** The replacements applied in order, each to the result of the one before. */
  function Run(s: string, pats: seq<string>, vals: seq<string>): string
    requires |pats| == |vals|
    decreases |pats|
  {
    if |pats| == 0 then s else Run(Replace(s, pats[0], vals[0]), pats[1..], vals[1..])
  }

  function PieceText(p: Piece, pats: seq<string>): string {
    match p
    case Lit(t) => t
    case Tok(k) => if k < |pats| then pats[k] else ""
  }

  /** The template text the pieces spell. */
  function Flatten(ps: seq<Piece>, pats: seq<string>): string
    decreases |ps|
  {
    if |ps| == 0 then "" else PieceText(ps[0], pats) + Flatten(ps[1..], pats)
  }

  /** The single left-to-right expansion: every token is replaced by its value. */
  function Expand(ps: seq<Piece>, vals: seq<string>): string
    decreases |ps|
  {
    if |ps| == 0 then "" else PieceText(ps[0], vals) + Expand(ps[1..], vals)
  }

  /** A token: `%` first and nowhere else. */
  predicate IsToken(p: string) {
    |p| > 0 && p[0] == '%' && '%' !in p[1..]
  }

  /** Tokens only, and no token begins a later one: a token that another begins is
      replaced before it. */
  predicate WellOrdered(pats: seq<string>) {
    (forall k :: 0 <= k < |pats| ==> IsToken(pats[k])) &&
    forall j, k :: 0 <= j < k < |pats| ==> !IsPrefix(pats[j], pats[k])
  }

  /** `q` agrees with `p` from position `i` to the end of `p`. */
  predicate AgreeFrom(q: string, p: string, i: nat)
    requires |p| <= |q|
    decreases |p| - i
  {
    i >= |p| || (p[i] == q[i] && AgreeFrom(q, p, i + 1))
  }

  /** No pattern from position `i` of `rest` on begins with `p`. */
  predicate BeginsNoneFrom(p: string, rest: seq<string>, i: nat)
    decreases |rest| - i
  {
    i >= |rest| || (!(|p| <= |rest[i]| && AgreeFrom(rest[i], p, 0)) && BeginsNoneFrom(p, rest, i + 1))
  }

  /** `WellOrdered` from position `i` on, in a form that can be checked entry by entry. */
  predicate OrderedFrom(pats: seq<string>, i: nat)
    decreases |pats| - i
  {
    i >= |pats| || (IsToken(pats[i]) && BeginsNoneFrom(pats[i], pats, i + 1) && OrderedFrom(pats, i + 1))
  }

  predicate ValuesPlain(vals: seq<string>) {
    forall k :: 0 <= k < |vals| ==> '%' !in vals[k]
  }

  /** The text after a position may start with `c`, whichever of the tokens in it
      have been replaced by then. */
  predicate CanStart(ps: seq<Piece>, c: char, pats: seq<string>, vals: seq<string>)
    decreases |ps|
  {
    if |ps| == 0 then false
    else match ps[0]
      case Lit(t) => if |t| == 0 then CanStart(ps[1..], c, pats, vals) else t[0] == c
      case Tok(k) =>
        (k < |pats| && |pats[k]| > 0 && pats[k][0] == c) ||
        (k < |vals| && if |vals[k]| == 0 then CanStart(ps[1..], c, pats, vals) else vals[k][0] == c)
  }

  /** Literals hold no `%`, and no token is followed by text that would let an
      earlier, longer pattern that it begins match in its place. */
  predicate Unambiguous(ps: seq<Piece>, pats: seq<string>, vals: seq<string>)
    decreases |ps|
  {
    |ps| == 0 ||
    ((match ps[0]
      case Lit(t) => '%' !in t
      case Tok(k) =>
        k < |pats| &&
        forall j :: 0 <= j < k && |pats[k]| < |pats[j]| && IsPrefix(pats[k], pats[j]) ==>
          !CanStart(ps[1..], pats[j][|pats[k]|], pats, vals))
     && Unambiguous(ps[1..], pats, vals))
  }

  /** The pieces after the first replacement: token 0 is now its value, the others move down. */
  function Lower(ps: seq<Piece>, v: string): seq<Piece>
    decreases |ps|
  {
    if |ps| == 0 then []
    else
      var p := match ps[0]
        case Lit(t) => Lit(t)
        case Tok(k) => if k == 0 then Lit(v) else Tok(k - 1);
      [p] + Lower(ps[1..], v)
  }

  // ---------------------------------------------------------------------------

  /** A literal in front: it is spelled as it stands and expands to itself. */
  lemma LitCons(t: string, rest: seq<Piece>, pats: seq<string>, vals: seq<string>)
    ensures Flatten([Lit(t)] + rest, pats) == t + Flatten(rest, pats)
    ensures Expand([Lit(t)] + rest, vals) == t + Expand(rest, vals)
    ensures '%' !in t && Unambiguous(rest, pats, vals) ==> Unambiguous([Lit(t)] + rest, pats, vals)
  {
    assert ([Lit(t)] + rest)[1..] == rest;
  }

  /** No earlier pattern before `k`, from position `j` on, extends pattern `k` by `c`. */
  predicate NoneExtendsFrom(pats: seq<string>, k: nat, c: char, j: nat)
    requires k < |pats|
    decreases k - j
  {
    j >= k ||
    (!(|pats[k]| < |pats[j]| && AgreeFrom(pats[j], pats[k], 0) && pats[j][|pats[k]|] == c) &&
     NoneExtendsFrom(pats, k, c, j + 1))
  }

  lemma {:induction false} NoneExtendsFromAll(pats: seq<string>, k: nat, c: char, j: nat, m: nat)
    requires k < |pats| && NoneExtendsFrom(pats, k, c, j) && j <= m < k
    requires |pats[k]| < |pats[m]| && IsPrefix(pats[k], pats[m])
    ensures pats[m][|pats[k]|] != c
    decreases m - j
  {
    if j < m {
      NoneExtendsFromAll(pats, k, c, j + 1, m);
    } else {
      AgreeFromAll(pats[m], pats[k], 0);
    }
  }

  /** A token followed by a literal, spelled and expanded. */
  lemma TokLitText(k: nat, t: string, rest: seq<Piece>, pats: seq<string>, vals: seq<string>)
    requires k < |pats|
    ensures Flatten([Tok(k), Lit(t)] + rest, pats) == pats[k] + t + Flatten(rest, pats)
    ensures Expand([Tok(k), Lit(t)] + rest, vals) == PieceText(Tok(k), vals) + t + Expand(rest, vals)
  {
    var ps := [Tok(k), Lit(t)] + rest;
    assert ps[1..] == [Lit(t)] + rest;
    assert ps[1..][1..] == rest;
  }

  /** A token followed by a literal: the literal's first character must not let an
      earlier pattern that the token begins match in its place. */
  lemma TokLitUnambiguous(k: nat, t: string, rest: seq<Piece>, pats: seq<string>, vals: seq<string>)
    requires k < |pats| && |t| > 0 && '%' !in t && NoneExtendsFrom(pats, k, t[0], 0)
    requires Unambiguous(rest, pats, vals)
    ensures Unambiguous([Tok(k), Lit(t)] + rest, pats, vals)
  {
    var ps := [Tok(k), Lit(t)] + rest;
    var tail := ps[1..];
    assert tail == [Lit(t)] + rest;
    assert tail[1..] == rest;
    assert Unambiguous(tail, pats, vals);
    assert forall c :: CanStart(tail, c, pats, vals) <==> c == t[0];
    forall j | 0 <= j < k && |pats[k]| < |pats[j]| && IsPrefix(pats[k], pats[j])
      ensures pats[j][|pats[k]|] != t[0]
    {
      NoneExtendsFromAll(pats, k, t[0], 0, j);
    }
  }

  /** A token at the very end is never followed by anything that could extend it. */
  lemma TokLast(k: nat, pats: seq<string>, vals: seq<string>)
    requires k < |pats|
    ensures Flatten([Tok(k)], pats) == pats[k]
    ensures Expand([Tok(k)], vals) == PieceText(Tok(k), vals)
    ensures Unambiguous([Tok(k)], pats, vals)
  {
  }

  lemma {:induction false} AgreeFromAll(q: string, p: string, i: nat)
    requires |p| <= |q|
    ensures AgreeFrom(q, p, i) <==> forall m :: i <= m < |p| ==> p[m] == q[m]
    decreases |p| - i
  {
    if i < |p| {
      AgreeFromAll(q, p, i + 1);
    }
  }

  lemma {:induction false} BeginsNoneFromAll(p: string, rest: seq<string>, i: nat, k: nat)
    requires BeginsNoneFrom(p, rest, i) && i <= k < |rest|
    ensures !IsPrefix(p, rest[k])
    decreases k - i
  {
    if i < k {
      BeginsNoneFromAll(p, rest, i + 1, k);
    } else if |p| <= |rest[k]| {
      AgreeFromAll(rest[k], p, 0);
    }
  }

  lemma {:induction false} OrderedFromWellOrdered(pats: seq<string>, i: nat)
    requires OrderedFrom(pats, i)
    ensures forall k :: i <= k < |pats| ==> IsToken(pats[k])
    ensures forall j, k :: i <= j < k < |pats| ==> !IsPrefix(pats[j], pats[k])
    decreases |pats| - i
  {
    if i < |pats| {
      OrderedFromWellOrdered(pats, i + 1);
      forall k | i < k < |pats|
        ensures !IsPrefix(pats[i], pats[k])
      {
        BeginsNoneFromAll(pats[i], pats, i + 1, k);
      }
    }
  }

  /** The entry-by-entry check establishes `WellOrdered`. */
  lemma OrderedWellOrdered(pats: seq<string>)
    requires OrderedFrom(pats, 0)
    ensures WellOrdered(pats)
  {
    OrderedFromWellOrdered(pats, 0);
  }

  /** When the text after a position cannot start with `c`, its first character is not `c`. */
  lemma {:induction false} FirstChar(ps: seq<Piece>, c: char, pats: seq<string>, vals: seq<string>)
    requires WellOrdered(pats) && Unambiguous(ps, pats, vals)
    requires !CanStart(ps, c, pats, vals)
    ensures |Flatten(ps, pats)| == 0 || Flatten(ps, pats)[0] != c
    decreases |ps|
  {
    if |ps| > 0 {
      match ps[0]
      case Lit(t) =>
        if |t| == 0 {
          FirstChar(ps[1..], c, pats, vals);
        }
      case Tok(k) =>
    }
  }

  /** Replacing token 0 cannot make the text start with a character it could not start with before. */
  lemma {:induction false} LowerCanStart(ps: seq<Piece>, c: char, pats: seq<string>, vals: seq<string>)
    requires |pats| == |vals| >= 1
    requires CanStart(Lower(ps, vals[0]), c, pats[1..], vals[1..])
    ensures CanStart(ps, c, pats, vals)
    decreases |ps|
  {
    var low := Lower(ps, vals[0]);
    assert low[1..] == Lower(ps[1..], vals[0]);
    match ps[0]
    case Lit(t) =>
      if |t| == 0 {
        LowerCanStart(ps[1..], c, pats, vals);
      }
    case Tok(k) =>
      if k == 0 {
        if |vals[0]| == 0 {
          LowerCanStart(ps[1..], c, pats, vals);
        }
      } else {
        if k - 1 < |vals| - 1 && |vals[k]| == 0 && CanStart(low[1..], c, pats[1..], vals[1..]) {
          LowerCanStart(ps[1..], c, pats, vals);
        }
      }
  }

  /** The side conditions survive the first replacement. */
  lemma {:induction false} LowerUnambiguous(ps: seq<Piece>, pats: seq<string>, vals: seq<string>)
    requires |pats| == |vals| >= 1 && ValuesPlain(vals)
    requires Unambiguous(ps, pats, vals)
    ensures Unambiguous(Lower(ps, vals[0]), pats[1..], vals[1..])
    decreases |ps|
  {
    if |ps| > 0 {
      var low := Lower(ps, vals[0]);
      assert low[1..] == Lower(ps[1..], vals[0]);
      LowerUnambiguous(ps[1..], pats, vals);
      match ps[0]
      case Lit(t) =>
      case Tok(k) =>
        if k > 0 {
          var tail := pats[1..];
          forall j | 0 <= j < k - 1 && |tail[k - 1]| < |tail[j]| && IsPrefix(tail[k - 1], tail[j])
            ensures !CanStart(low[1..], tail[j][|tail[k - 1]|], tail, vals[1..])
          {
            assert tail[j] == pats[j + 1] && tail[k - 1] == pats[k];
            if CanStart(low[1..], tail[j][|tail[k - 1]|], tail, vals[1..]) {
              LowerCanStart(ps[1..], tail[j][|tail[k - 1]|], pats, vals);
            }
          }
        }
    }
  }

  lemma {:induction false} ExpandLower(ps: seq<Piece>, vals: seq<string>)
    requires |vals| >= 1
    ensures Expand(Lower(ps, vals[0]), vals[1..]) == Expand(ps, vals)
    decreases |ps|
  {
    if |ps| > 0 {
      var low := Lower(ps, vals[0]);
      assert low[1..] == Lower(ps[1..], vals[0]);
      ExpandLower(ps[1..], vals);
    }
  }

  /** A token that is not the pattern being replaced passes through, and the scan goes on after it. */
  lemma {:induction false} ReplaceSkipsToken(tok: string, b: string, pat: string, rep: string)
    requires |tok| > 0 && |pat| > 0 && pat[0] !in tok[1..]
    requires !IsPrefix(pat, tok + b)
    ensures Replace(tok + b, pat, rep) == tok + Replace(b, pat, rep)
  {
    var s := tok + b;
    ReplaceNoMatch(s, pat, rep);
    assert s[1..] == tok[1..] + b;
    ReplaceFreePrefix(tok[1..], b, pat, rep);
    assert [tok[0]] + tok[1..] == tok;
  }

  /** A pattern that is no prefix of a token matches at the token only by running on into
      the text after it, which needs that text to continue the pattern. */
  lemma TokenBlocks(p: string, tok: string, rest: string)
    requires !IsPrefix(p, tok)
    requires |tok| < |p| && IsPrefix(tok, p) ==> |rest| == 0 || rest[0] != p[|tok|]
    ensures !IsPrefix(p, tok + rest)
  {
  }

  /** The first replacement turns exactly the pieces `Tok(0)` into their value. */
  lemma {:induction false} ReplaceFirst(ps: seq<Piece>, pats: seq<string>, vals: seq<string>)
    requires |pats| == |vals| >= 1 && WellOrdered(pats)
    requires Unambiguous(ps, pats, vals)
    ensures Replace(Flatten(ps, pats), pats[0], vals[0]) == Flatten(Lower(ps, vals[0]), pats[1..])
    decreases |ps|
  {
    if |ps| > 0 {
      var low := Lower(ps, vals[0]);
      assert low[1..] == Lower(ps[1..], vals[0]);
      var rest := Flatten(ps[1..], pats);
      ReplaceFirst(ps[1..], pats, vals);
      match ps[0]
      case Lit(t) =>
        ReplaceFreePrefix(t, rest, pats[0], vals[0]);
      case Tok(k) =>
        if k == 0 {
          ReplaceHead(pats[0], rest, vals[0]);
        } else {
          var pk := pats[k];
          if |pk| < |pats[0]| && IsPrefix(pk, pats[0]) {
            FirstChar(ps[1..], pats[0][|pk|], pats, vals);
          }
          TokenBlocks(pats[0], pk, rest);
          ReplaceSkipsToken(pk, rest, pats[0], vals[0]);
          assert pats[1..][k - 1] == pk;
        }
    }
  }

  lemma {:induction false} NoTokens(ps: seq<Piece>, vals: seq<string>)
    requires Unambiguous(ps, [], vals)
    ensures Flatten(ps, []) == Expand(ps, vals)
    decreases |ps|
  {
    if |ps| > 0 {
      NoTokens(ps[1..], vals);
    }
  }

  /** The chain of replacements equals the single left-to-right expansion. */
  lemma {:induction false} RunExpands(ps: seq<Piece>, pats: seq<string>, vals: seq<string>)
    requires |pats| == |vals| && WellOrdered(pats) && ValuesPlain(vals)
    requires Unambiguous(ps, pats, vals)
    ensures Run(Flatten(ps, pats), pats, vals) == Expand(ps, vals)
    decreases |pats|
  {
    if |pats| == 0 {
      NoTokens(ps, vals);
    } else {
      ReplaceFirst(ps, pats, vals);
      LowerUnambiguous(ps, pats, vals);
      RunExpands(Lower(ps, vals[0]), pats[1..], vals[1..]);
      ExpandLower(ps, vals);
    }
  }
}
