/**
 Resource patterns: the recursive matcher of the authorization package, the
 near-copy of it that policy evaluation uses, and the relation both decide.

 Characters stand for bytes. The two matchers differ in one point, whether a
 single `*` may run across `/`; `wide` says which one is meant.
 */
module Glob {

  datatype Token = Literal(c: char) | AnyChar | Star | Deep | DeepDir

  /** The token at position `pi`: `**` with a slash behind it, then `**`, then single characters. */
  function TokenAt(pat: string, pi: nat): Token
    requires pi < |pat|
  {
    if pat[pi] == '*' then
      if pi + 1 < |pat| && pat[pi + 1] == '*' then
        if pi + 2 < |pat| && pat[pi + 2] == '/' then DeepDir else Deep
      else Star
    else if pat[pi] == '?' then AnyChar
    else Literal(pat[pi])
  }

  function Width(token: Token): nat {
    match token
    case DeepDir => 3
    case Deep => 2
    case _ => 1
  }

  /** Reads the pattern from position `pi` on. */
  function Tokens(pat: string, pi: nat): seq<Token>
    requires pi <= |pat|
    decreases |pat| - pi
  {
    if pi == |pat| then [] else [TokenAt(pat, pi)] + Tokens(pat, pi + Width(TokenAt(pat, pi)))
  }

  ghost predicate SlashFree(text: string, from: nat, to: nat)
    requires from <= to <= |text|
  {
    forall k :: from <= k < to ==> text[k] != '/'
  }

  /** What a token may consume: `text[from..to]`. */
  ghost predicate Consumes(wide: bool, token: Token, text: string, from: nat, to: nat)
    requires from <= to <= |text|
  {
    match token
    case Literal(c) => to == from + 1 && text[from] == c
    case AnyChar => to == from + 1 && text[from] != '/'
    case Star => wide || SlashFree(text, from, to)
    case Deep => true
    case DeepDir => from == to || text[to - 1] == '/' || to == |text|
  }

  /** Piece `i` of the division is consumed by token `i`. */
  ghost predicate Piece(wide: bool, tokens: seq<Token>, text: string, cuts: seq<nat>, i: nat)
    requires i < |tokens| < |cuts|
  {
    cuts[i] <= cuts[i + 1] <= |text| && Consumes(wide, tokens[i], text, cuts[i], cuts[i + 1])
  }

  /** `cuts` divides `text[from..]` into one piece per token, each consumed by its token. */
  ghost predicate Division(wide: bool, tokens: seq<Token>, text: string, from: nat, cuts: seq<nat>) {
    && |cuts| == |tokens| + 1
    && cuts[0] == from && cuts[|tokens|] == |text|
    && forall i :: 0 <= i < |tokens| ==> Piece(wide, tokens, text, cuts, i)
  }

  /** The declarative relation: some division of the text fits the pattern. */
  ghost predicate Accepts(wide: bool, pat: string, text: string) {
    exists cuts :: Division(wide, Tokens(pat, 0), text, 0, cuts)
  }

  /** The same relation, one token at a time. */
  ghost predicate Matches(wide: bool, tokens: seq<Token>, text: string, from: nat)
    requires from <= |text|
  {
    if tokens == [] then from == |text|
    else exists to :: from <= to <= |text| && Consumes(wide, tokens[0], text, from, to)
                      && Matches(wide, tokens[1..], text, to)
  }

  lemma {:induction false} MatchesDivides(wide: bool, tokens: seq<Token>, text: string,
                                          from: nat) returns (cuts: seq<nat>)
    requires from <= |text| && Matches(wide, tokens, text, from)
    ensures Division(wide, tokens, text, from, cuts)
    decreases |tokens|
  {
    if tokens == [] {
      cuts := [from];
    } else {
      var to :| from <= to <= |text| && Consumes(wide, tokens[0], text, from, to)
          && Matches(wide, tokens[1..], text, to);
      var rest := MatchesDivides(wide, tokens[1..], text, to);
      cuts := [from] + rest;
      forall i | 0 <= i < |tokens| ensures Piece(wide, tokens, text, cuts, i) {
        if i > 0 { assert Piece(wide, tokens[1..], text, rest, i - 1); }
      }
    }
  }

  lemma {:induction false} DivisionMatches(wide: bool, tokens: seq<Token>, text: string, from: nat, cuts: seq<nat>)
    requires from <= |text| && Division(wide, tokens, text, from, cuts)
    ensures Matches(wide, tokens, text, from)
    decreases |tokens|
  {
    if tokens != [] {
      assert Piece(wide, tokens, text, cuts, 0);
      forall i | 0 <= i < |tokens[1..]| ensures Piece(wide, tokens[1..], text, cuts[1..], i) {
        assert Piece(wide, tokens, text, cuts, i + 1);
      }
      DivisionMatches(wide, tokens[1..], text, cuts[1], cuts[1..]);
    }
  }

  lemma AcceptsIffMatches(wide: bool, pat: string, text: string)
    ensures Accepts(wide, pat, text) <==> Matches(wide, Tokens(pat, 0), text, 0)
  {
    if Matches(wide, Tokens(pat, 0), text, 0) {
      var _ := MatchesDivides(wide, Tokens(pat, 0), text, 0);
    }
    if Accepts(wide, pat, text) {
      var cuts :| Division(wide, Tokens(pat, 0), text, 0, cuts);
      DivisionMatches(wide, Tokens(pat, 0), text, 0, cuts);
    }
  }

  // ------------------------------------------------------------- the matchers

  /** Distance from `from` to the next slash, or -1. */
  function IndexSlash(text: string, from: nat): (k: int)
    requires from <= |text|
    ensures k < 0 ==> SlashFree(text, from, |text|)
    ensures k >= 0 ==> from + k < |text| && text[from + k] == '/' && SlashFree(text, from, from + k)
    decreases |text| - from
  {
    if from == |text| then -1
    else if text[from] == '/' then 0
    else
      var k := IndexSlash(text, from + 1);
      if k < 0 then -1 else k + 1
  }

  /** The recursive matcher with its loops; `wide` selects the policy engine's copy. */
  method MatchGlob(wide: bool, pat: string, str: string, pi0: nat, si0: nat) returns (r: bool)
    requires pi0 <= |pat| && si0 <= |str|
    ensures r <==> Matches(wide, Tokens(pat, pi0), str, si0)
    decreases |pat| - pi0
  {
    hide Tokens, Matches;
    var pi: nat, si: nat := pi0, si0;
    while pi < |pat|
      invariant pi0 <= pi <= |pat| && si <= |str|
      invariant Matches(wide, Tokens(pat, pi0), str, si0) <==> Matches(wide, Tokens(pat, pi), str, si)
    {
      TokensBegin(pat, pi);
      if pat[pi] == '*' {
        ghost var tokens, start: nat := Tokens(pat, pi), si;
        if pi + 1 < |pat| && pat[pi + 1] == '*' {
          if pi + 2 < |pat| && pat[pi + 2] == '/' {
            pi := pi + 3;
            while si <= |str|
              invariant start <= si <= |str|
              invariant Consumes(wide, DeepDir, str, start, si)
              invariant forall e: nat :: start <= e < si && Consumes(wide, DeepDir, str, start, e) ==>
                                      !Matches(wide, tokens[1..], str, e)
              decreases |str| - si
            {
              var found := MatchGlob(wide, pat, str, pi, si);
              if found {
                MatchesVia(wide, tokens, str, start, si);
                return true;
              }
              if si == |str| {
                break;
              }
              var next := IndexSlash(str, si);
              if next < 0 {
                si := |str|;
              } else {
                si := si + next + 1;
              }
            }
            MatchesNowhere(wide, tokens, str, start);
            return false;
          }
          pi := pi + 2;
          while si <= |str|
            invariant start <= si <= |str| + 1
            invariant forall e: nat :: start <= e < si ==> !Matches(wide, tokens[1..], str, e)
          {
            var found := MatchGlob(wide, pat, str, pi, si);
            if found {
              MatchesVia(wide, tokens, str, start, si);
              return true;
            }
            si := si + 1;
          }
          MatchesNowhere(wide, tokens, str, start);
          return false;
        }
        pi := pi + 1;
        while si <= |str|
          invariant start <= si <= |str| + 1
          invariant si <= |str| ==> Consumes(wide, Star, str, start, si)
          invariant forall e: nat :: start <= e < si ==> !Matches(wide, tokens[1..], str, e)
        {
          var found := MatchGlob(wide, pat, str, pi, si);
          if found {
            MatchesVia(wide, tokens, str, start, si);
            return true;
          }
          if !wide && si < |str| && str[si] == '/' {
            break;
          }
          si := si + 1;
        }
        MatchesNowhere(wide, tokens, str, start);
        return false;
      } else if pat[pi] == '?' {
        if si >= |str| || str[si] == '/' {
          MatchesNowhere(wide, Tokens(pat, pi), str, si);
          return false;
        }
        OneCharacter(wide, Tokens(pat, pi), str, si);
        pi, si := pi + 1, si + 1;
      } else {
        if si >= |str| || pat[pi] != str[si] {
          MatchesNowhere(wide, Tokens(pat, pi), str, si);
          return false;
        }
        OneCharacter(wide, Tokens(pat, pi), str, si);
        pi, si := pi + 1, si + 1;
      }
    }
    NoTokensLeft(wide, pat, str, si);
    return si == |str|;
  }

  /** The first token at a position of the pattern, and where the rest begins. */
  lemma TokensBegin(pat: string, pi: nat)
    requires pi < |pat|
    ensures Tokens(pat, pi) == [TokenAt(pat, pi)] + Tokens(pat, pi + Width(TokenAt(pat, pi)))
  {
  }

  lemma MatchesVia(wide: bool, tokens: seq<Token>, text: string, from: nat, to: nat)
    requires tokens != [] && from <= to <= |text|
    requires Consumes(wide, tokens[0], text, from, to) && Matches(wide, tokens[1..], text, to)
    ensures Matches(wide, tokens, text, from)
  {
  }

  lemma MatchesNowhere(wide: bool, tokens: seq<Token>, text: string, from: nat)
    requires tokens != [] && from <= |text|
    requires forall to :: from <= to <= |text| && Consumes(wide, tokens[0], text, from, to) ==>
                            !Matches(wide, tokens[1..], text, to)
    ensures !Matches(wide, tokens, text, from)
  {
  }

  lemma NoTokensLeft(wide: bool, pat: string, text: string, from: nat)
    requires from <= |text|
    ensures Matches(wide, Tokens(pat, |pat|), text, from) <==> from == |text|
  {
  }

  lemma OneCharacter(wide: bool, tokens: seq<Token>, text: string, from: nat)
    requires tokens != [] && from < |text| && Consumes(wide, tokens[0], text, from, from + 1)
    requires tokens[0].Literal? || tokens[0].AnyChar?
    ensures Matches(wide, tokens, text, from) <==> Matches(wide, tokens[1..], text, from + 1)
  {
    assert forall to :: from <= to <= |text| && Consumes(wide, tokens[0], text, from, to) ==> to == from + 1;
  }

  predicate Contains(text: string, c: char) {
    c in text
  }

  predicate WildcardFree(pat: string) {
    '*' !in pat && '?' !in pat
  }

  predicate HasSuffix(text: string, suffix: string) {
    |suffix| <= |text| && text[|text| - |suffix|..] == suffix
  }

  /** `prefix` itself or anything below it. */
  predicate AtOrBelow(prefix: string, resource: string) {
    resource == prefix || prefix + "/" <= resource
  }

  predicate MatchesAll(pattern: string) {
    pattern == "*" || pattern == "*/*"
  }

  method MatchResourceLegacy(pattern: string, resource: string) returns (r: bool)
    ensures r <==> MatchesAll(pattern)
                   || (HasSuffix(pattern, "/*") && AtOrBelow(pattern[..|pattern| - 2], resource))
                   || (!HasSuffix(pattern, "/*") && pattern == resource)
    ensures pattern == "*" || pattern == "*/*" ==> r
    ensures forall path :: pattern == path + "/*" && path != "*" ==>
                             (r <==> resource == path || path + "/" <= resource)
  {
    assert forall path :: pattern == path + "/*" ==> path == pattern[..|pattern| - 2];
    if pattern == "*" || pattern == "*/*" {
      return true;
    }
    if HasSuffix(pattern, "/*") {
      var prefix := pattern[..|pattern| - 2];
      return resource == prefix || prefix + "/" <= resource;
    }
    return pattern == resource;
  }

  lemma StarSuffix(pattern: string)
    requires HasSuffix(pattern, "/*")
    ensures '*' in pattern
  {
    assert pattern[|pattern| - 1] == pattern[|pattern| - 2..][1];
  }

  /**
   Apart from the two catch-all patterns, the answer is the declarative relation; its wildcard-free case is
   equality.
   */
  method MatchResourceGlob(pattern: string, resource: string) returns (r: bool)
    ensures r <==> MatchesAll(pattern) || Accepts(false, pattern, resource)
    ensures WildcardFree(pattern) ==> (r <==> pattern == resource)
  {
    if WildcardFree(pattern) { WildcardFreeIsEquality(false, pattern, resource); }
    if HasSuffix(pattern, "/*") { StarSuffix(pattern); }
    AcceptsIffMatches(false, pattern, resource);
    if pattern == "*" || pattern == "*/*" {
      assert '*' in pattern;
      return true;
    }
    if !(Contains(pattern, '*') || Contains(pattern, '?')) {
      r := MatchResourceLegacy(pattern, resource);
    } else {
      r := MatchGlob(false, pattern, resource, 0, 0);
    }
  }

  /** A pattern the policy engine reads as "everything at or below a path". */
  predicate PathPrefix(pattern: string) {
    HasSuffix(pattern, "/*") && !Contains(pattern[..|pattern| - 2], '*') && !Contains(pattern, '?')
  }

  /** The matcher policy evaluation uses. */
  method MatchResource(pattern: string, resource: string) returns (r: bool)
    ensures r <==> PolicyAccepts(pattern, resource)
    ensures pattern == "*" || pattern == "*/*" ==> r
    ensures forall path :: pattern == path + "/*" && '*' !in path && '?' !in path ==>
                             (r <==> resource == path || path + "/" <= resource)
  {
    assert forall path :: pattern == path + "/*" ==> path == pattern[..|pattern| - 2];
    if WildcardFree(pattern) { WildcardFreeIsEquality(true, pattern, resource); }
    AcceptsIffMatches(true, pattern, resource);
    if pattern == "*" || pattern == "*/*" {
      return true;
    }
    if PathPrefix(pattern) {
      var prefix := pattern[..|pattern| - 2];
      return resource == prefix || prefix + "/" <= resource;
    }
    if Contains(pattern, '*') || Contains(pattern, '?') {
      r := MatchGlob(true, pattern, resource, 0, 0);
    } else {
      r := pattern == resource;
    }
  }

  ghost predicate PolicyAccepts(pattern: string, resource: string) {
    || MatchesAll(pattern)
    || (PathPrefix(pattern) && AtOrBelow(pattern[..|pattern| - 2], resource))
    || (!PathPrefix(pattern) && Accepts(true, pattern, resource))
  }

  // ------------------------------------------------------ reading the pattern

  lemma TokenInSuffix(a: string, b: string, pi: nat)
    requires pi < |b|
    ensures TokenAt(a + b, |a| + pi) == TokenAt(b, pi)
    ensures pi + Width(TokenAt(b, pi)) <= |b|
  {
  }

  lemma TokenInPrefix(a: string, b: string, pi: nat)
    requires pi < |a| && a[|a| - 1] != '*'
    ensures TokenAt(a + b, pi) == TokenAt(a, pi)
    ensures pi + Width(TokenAt(a, pi)) <= |a|
  {
  }

  lemma {:induction false} TokensOfSuffix(a: string, b: string, pi: nat)
    requires pi <= |b|
    ensures Tokens(a + b, |a| + pi) == Tokens(b, pi)
    decreases |b| - pi
  {
    hide TokenAt;
    if pi < |b| {
      TokenInSuffix(a, b, pi);
      TokensOfSuffix(a, b, pi + Width(TokenAt(b, pi)));
    }
  }

  /** Where no star run is cut in two, the pattern reads as the concatenation of its parts. */
  lemma {:induction false} TokensOfConcat(a: string, b: string, pi: nat)
    requires pi <= |a| && (a != [] ==> a[|a| - 1] != '*')
    ensures Tokens(a + b, pi) == Tokens(a, pi) + Tokens(b, 0)
    decreases |a| - pi
  {
    hide TokenAt;
    if pi == |a| {
      TokensOfSuffix(a, b, 0);
    } else {
      TokenInPrefix(a, b, pi);
      TokensOfConcat(a, b, pi + Width(TokenAt(a, pi)));
    }
  }

  /** A wildcard-free beginning is consumed literally. */
  lemma {:induction false} LiteralBeginning(wide: bool, a: string, b: string, pi: nat, text: string, from: nat)
    requires WildcardFree(a) && pi <= |a| && from <= |text|
    ensures Matches(wide, Tokens(a, pi) + Tokens(b, 0), text, from) <==>
            from + |a| - pi <= |text| && text[from..from + |a| - pi] == a[pi..]
            && Matches(wide, Tokens(b, 0), text, from + |a| - pi)
    decreases |a| - pi
  {
    var tokens := Tokens(a, pi) + Tokens(b, 0);
    if pi == |a| {
      assert tokens == Tokens(b, 0);
    } else {
      assert a[pi] in a;
      assert Tokens(a, pi) == [Literal(a[pi])] + Tokens(a, pi + 1);
      assert tokens[1..] == Tokens(a, pi + 1) + Tokens(b, 0);
      var n := |a| - pi;
      if from < |text| && text[from] == a[pi] {
        OneCharacter(wide, tokens, text, from);
        LiteralBeginning(wide, a, b, pi + 1, text, from + 1);
        if from + n <= |text| {
          assert text[from..from + n] == [text[from]] + text[from + 1..from + n];
          assert a[pi..] == [a[pi]] + a[pi + 1..];
        }
      } else {
        assert !Matches(wide, tokens, text, from);
        if from + n <= |text| {
          SliceBegins(text, from, a, pi);
        }
      }
    }
  }

  lemma SliceBegins(text: string, from: nat, a: string, pi: nat)
    requires pi < |a| && from + |a| - pi <= |text|
    ensures text[from..from + |a| - pi] == a[pi..] ==> text[from] == a[pi]
  {
    var slice := text[from..from + |a| - pi];
    assert slice[0] == text[from] && a[pi..][0] == a[pi];
  }

  lemma WildcardFreeIsEquality(wide: bool, pat: string, text: string)
    requires WildcardFree(pat)
    ensures Accepts(wide, pat, text) <==> pat == text
  {
    AcceptsIffMatches(wide, pat, text);
    LiteralBeginning(wide, pat, "", 0, text, 0);
    assert Tokens(pat, 0) + Tokens("", 0) == Tokens(pat, 0);
    assert pat[0..] == pat;
  }

  // -------------------------------------------------- what the wildcards mean

  lemma ConsumesShifted(wide: bool, token: Token, text: string, k: nat, from: nat, to: nat)
    requires k <= from <= to <= |text|
    ensures Consumes(wide, token, text, from, to) <==> Consumes(wide, token, text[k..], from - k, to - k)
  {
    assert SlashFree(text, from, to) <==> SlashFree(text[k..], from - k, to - k) by {
      if SlashFree(text[k..], from - k, to - k) {
        forall i | from <= i < to ensures text[i] != '/' {
          assert text[k..][i - k] == text[i];
        }
      }
    }
  }

  lemma NothingLeft(wide: bool, text: string, from: nat)
    requires from <= |text|
    ensures Matches(wide, [], text, from) <==> from == |text|
  {
  }

  lemma FirstPiece(wide: bool, tokens: seq<Token>, text: string, from: nat) returns (to: nat)
    requires tokens != [] && from <= |text| && Matches(wide, tokens, text, from)
    ensures from <= to <= |text| && Consumes(wide, tokens[0], text, from, to) && Matches(wide, tokens[1..], text, to)
  {
    to :| from <= to <= |text| && Consumes(wide, tokens[0], text, from, to) && Matches(wide, tokens[1..], text, to);
  }

  /** Matching from a position on is matching what is left of the text. */
  lemma {:induction false} MatchesShifted(wide: bool, tokens: seq<Token>, text: string, k: nat, from: nat)
    requires k <= from <= |text|
    ensures Matches(wide, tokens, text, from) <==> Matches(wide, tokens, text[k..], from - k)
    decreases |tokens|
  {
    hide Consumes, Matches;
    if tokens == [] {
      NothingLeft(wide, text, from);
      NothingLeft(wide, text[k..], from - k);
    } else {
      forall to: nat | from <= to <= |text|
        ensures Consumes(wide, tokens[0], text, from, to) <==> Consumes(wide, tokens[0], text[k..], from - k, to - k)
        ensures Matches(wide, tokens[1..], text, to) <==> Matches(wide, tokens[1..], text[k..], to - k)
      {
        ConsumesShifted(wide, tokens[0], text, k, from, to);
        MatchesShifted(wide, tokens[1..], text, k, to);
      }
      if Matches(wide, tokens, text[k..], from - k) {
        var end := FirstPiece(wide, tokens, text[k..], from - k);
        MatchesVia(wide, tokens, text, from, end + k);
      }
      if Matches(wide, tokens, text, from) {
        var end := FirstPiece(wide, tokens, text, from);
        MatchesVia(wide, tokens, text[k..], from - k, end - k);
      }
    }
  }

  /** What a wildcard can stand for; `last` says that nothing follows it in the text. */
  ghost predicate StandsFor(wide: bool, wildcard: string, piece: string, last: bool) {
    || (wildcard == "?" && |piece| == 1 && piece[0] != '/')
    || (wildcard == "*" && (wide || '/' !in piece))
    || (wildcard == "**")
    || (wildcard == "**/" && (piece == "" || piece[|piece| - 1] == '/' || last))
  }

  /** The wildcard is read as such: it is not the beginning of a longer one. */
  predicate ReadAs(wildcard: string, b: string) {
    || wildcard == "?" || wildcard == "**/"
    || (wildcard == "*" && (b == "" || b[0] != '*'))
    || (wildcard == "**" && (b == "" || b[0] != '/'))
  }

  lemma FirstToken(wildcard: string, b: string)
    requires ReadAs(wildcard, b)
    ensures Tokens(wildcard + b, 0) == [TokenAt(wildcard + b, 0)] + Tokens(b, 0)
    ensures TokenAt(wildcard + b, 0) == if wildcard == "?" then AnyChar else if wildcard == "*" then Star
                                        else if wildcard == "**" then Deep else DeepDir
  {
    TokensOfSuffix(wildcard, b, 0);
  }

  lemma ConsumesStandsFor(wide: bool, wildcard: string, b: string, text: string, from: nat, to: nat)
    requires ReadAs(wildcard, b) && from <= to <= |text|
    ensures Consumes(wide, TokenAt(wildcard + b, 0), text, from, to) <==>
            StandsFor(wide, wildcard, text[from..to], to == |text|)
  {
    FirstToken(wildcard, b);
    if wildcard == "*" {
      assert SlashFree(text, from, to) <==> '/' !in text[from..to] by {
        if '/' !in text[from..to] {
          forall i | from <= i < to ensures text[i] != '/' {
            assert text[from..to][i - from] == text[i];
          }
        }
      }
    }
  }

  /** The text is the literal beginning, then what the wildcard stands for up to `to`, then what the rest accepts. */
  ghost predicate Splits(wide: bool, a: string, wildcard: string, b: string, text: string, to: nat) {
    a <= text && SplitsFrom(wide, wildcard, b, text, |a|, to)
  }

  ghost predicate SplitsFrom(wide: bool, wildcard: string, b: string, text: string, from: nat, to: nat) {
    && from <= to <= |text|
    && StandsFor(wide, wildcard, text[from..to], to == |text|)
    && Accepts(wide, b, text[to..])
  }

  /**
   The first wildcard of a pattern decides: with `WildcardFreeIsEquality`, this says what every pattern accepts
   without speaking of tokens.
   */
  lemma WildcardMeans(wide: bool, a: string, wildcard: string, b: string, text: string)
    requires WildcardFree(a) && ReadAs(wildcard, b)
    ensures Accepts(wide, a + wildcard + b, text) <==> exists to: nat :: Splits(wide, a, wildcard, b, text, to)
  {
    hide Consumes, Accepts, StandsFor, TokenAt, Matches;
    var rest := wildcard + b;
    assert a + wildcard + b == a + rest;
    AcceptsIffMatches(wide, a + rest, text);
    TokensOfConcat(a, rest, 0);
    LiteralBeginning(wide, a, rest, 0, text, 0);
    assert a[0..] == a;
    if |a| <= |text| {
      assert text[0..|a|] == text[..|a|];
      MatchesStandsFor(wide, wildcard, b, text, |a|);
      if text[..|a|] == a {
        assert forall to: nat :: Splits(wide, a, wildcard, b, text, to) <==>
                                 SplitsFrom(wide, wildcard, b, text, |a|, to);
      }
    }
  }

  lemma MatchesStandsFor(wide: bool, wildcard: string, b: string, text: string, from: nat)
    requires ReadAs(wildcard, b) && from <= |text|
    ensures Matches(wide, Tokens(wildcard + b, 0), text, from) <==>
            exists to: nat :: SplitsFrom(wide, wildcard, b, text, from, to)
  {
    hide Consumes, Accepts, StandsFor, TokenAt, Matches;
    var tokens := Tokens(wildcard + b, 0);
    FirstToken(wildcard, b);
    assert tokens[1..] == Tokens(b, 0);
    forall to: nat | from <= to <= |text|
      ensures SplitsFrom(wide, wildcard, b, text, from, to) <==>
              Consumes(wide, tokens[0], text, from, to) && Matches(wide, tokens[1..], text, to)
      ensures Consumes(wide, tokens[0], text, from, to) && Matches(wide, tokens[1..], text, to) ==>
                Matches(wide, tokens, text, from)
    {
      ConsumesStandsFor(wide, wildcard, b, text, from, to);
      MatchesShifted(wide, tokens[1..], text, to, to);
      AcceptsIffMatches(wide, b, text[to..]);
      if Consumes(wide, tokens[0], text, from, to) && Matches(wide, tokens[1..], text, to) {
        MatchesVia(wide, tokens, text, from, to);
      }
    }
    if Matches(wide, tokens, text, from) {
      var _ := FirstPiece(wide, tokens, text, from);
    }
  }

  // ------------------------------------------------------------- main results

  function Slashes(text: string, from: nat): nat
    requires from <= |text|
    decreases |text| - from
  {
    if from == |text| then 0 else (if text[from] == '/' then 1 else 0) + Slashes(text, from + 1)
  }

  function SlashTokens(tokens: seq<Token>): nat {
    if tokens == [] then 0 else (if tokens[0] == Literal('/') then 1 else 0) + SlashTokens(tokens[1..])
  }

  ghost predicate Shallow(tokens: seq<Token>) {
    forall i :: 0 <= i < |tokens| ==> !tokens[i].Deep? && !tokens[i].DeepDir?
  }

  lemma {:induction false} SlashFreeRun(text: string, from: nat, to: nat)
    requires from <= to <= |text| && SlashFree(text, from, to)
    ensures Slashes(text, from) == Slashes(text, to)
    decreases |text| - from
  {
    if from < to { SlashFreeRun(text, from + 1, to); }
  }

  lemma {:induction false} ShallowKeepsSlashes(tokens: seq<Token>, text: string, from: nat)
    requires from <= |text| && Shallow(tokens) && Matches(false, tokens, text, from)
    ensures Slashes(text, from) == SlashTokens(tokens)
    decreases |tokens|
  {
    if tokens != [] {
      var to :| from <= to <= |text| && Consumes(false, tokens[0], text, from, to)
                && Matches(false, tokens[1..], text, to);
      ShallowKeepsSlashes(tokens[1..], text, to);
      if tokens[0] != Literal('/') {
        SlashFreeRun(text, from, to);
      }
    }
  }

  predicate DoubleStarAt(pat: string, i: nat) {
    i + 1 < |pat| && pat[i] == '*' && pat[i + 1] == '*'
  }

  lemma {:induction false} ShallowPattern(pat: string, pi: nat)
    requires pi <= |pat|
    requires forall i: nat :: !DoubleStarAt(pat, i)
    ensures Shallow(Tokens(pat, pi)) && SlashTokens(Tokens(pat, pi)) == Slashes(pat, pi)
    decreases |pat| - pi
  {
    if pi < |pat| {
      assert !DoubleStarAt(pat, pi);
      ShallowPattern(pat, pi + 1);
      var tokens := Tokens(pat, pi);
      assert tokens[1..] == Tokens(pat, pi + 1);
      forall i | 0 <= i < |tokens| ensures !tokens[i].Deep? && !tokens[i].DeepDir? {
        if i > 0 { assert tokens[i] == tokens[1..][i - 1]; }
      }
    }
  }

  /** Without `**`, an accepted text has exactly the slashes of the pattern. */
  lemma SingleStarsKeepDepth(pat: string, text: string)
    requires forall i: nat :: !DoubleStarAt(pat, i)
    requires Accepts(false, pat, text)
    ensures Slashes(text, 0) == Slashes(pat, 0)
  {
    AcceptsIffMatches(false, pat, text);
    ShallowPattern(pat, 0);
    ShallowKeepsSlashes(Tokens(pat, 0), text, 0);
  }

  /** Replacing what follows a common beginning by something that accepts more never loses a match. */
  lemma {:induction false} WidenTail(wide: bool, front: seq<Token>, a: seq<Token>, b: seq<Token>, text: string,
                                     from: nat)
    requires from <= |text| && Matches(wide, front + a, text, from)
    requires forall k: nat :: k <= |text| && Matches(wide, a, text, k) ==> Matches(wide, b, text, k)
    ensures Matches(wide, front + b, text, from)
    decreases |front|
  {
    if front == [] {
      assert front + a == a && front + b == b;
    } else {
      assert (front + a)[1..] == front[1..] + a && (front + b)[1..] == front[1..] + b;
      var to :| from <= to <= |text| && Consumes(wide, front[0], text, from, to)
                && Matches(wide, (front + a)[1..], text, to);
      WidenTail(wide, front[1..], a, b, text, to);
    }
  }

  lemma StarToDeep(rest: seq<Token>, text: string, k: nat)
    requires k <= |text| && Matches(false, [Star] + rest, text, k)
    ensures Matches(false, [Deep] + rest, text, k)
  {
    var to :| k <= to <= |text| && Consumes(false, Star, text, k, to) && Matches(false, ([Star] + rest)[1..], text, to);
    assert ([Star] + rest)[1..] == rest == ([Deep] + rest)[1..];
    assert Consumes(false, Deep, text, k, to);
  }

  lemma StarSlashToDeepDir(rest: seq<Token>, text: string, k: nat)
    requires k <= |text| && Matches(false, [Star, Literal('/')] + rest, text, k)
    ensures Matches(false, [DeepDir] + rest, text, k)
  {
    var tokens := [Star, Literal('/')] + rest;
    var to :| k <= to <= |text| && Consumes(false, Star, text, k, to) && Matches(false, tokens[1..], text, to);
    assert tokens[1..][0] == Literal('/');
    var end :| to <= end <= |text| && Consumes(false, Literal('/'), text, to, end)
               && Matches(false, tokens[1..][1..], text, end);
    assert tokens[1..][1..] == rest == ([DeepDir] + rest)[1..];
    assert Consumes(false, DeepDir, text, k, end);
  }

  /** Replacing a lone `*` by `**` never removes a match. */
  lemma DoublingAStarKeepsMatches(a: string, b: string, text: string)
    requires (a != [] ==> a[|a| - 1] != '*') && (b != [] ==> b[0] != '*')
    requires Accepts(false, a + "*" + b, text)
    ensures Accepts(false, a + "**" + b, text)
  {
    hide Matches, Accepts, Tokens;
    AcceptsIffMatches(false, a + "*" + b, text);
    AcceptsIffMatches(false, a + "**" + b, text);
    assert a + "*" + b == a + ("*" + b) && a + "**" + b == a + ("**" + b);
    TokensOfConcat(a, "*" + b, 0);
    TokensOfConcat(a, "**" + b, 0);
    forall k: nat | k <= |text| && Matches(false, Tokens("*" + b, 0), text, k)
      ensures Matches(false, Tokens("**" + b, 0), text, k)
    {
      DoubledAtStart(b, text, k);
    }
    WidenTail(false, Tokens(a, 0), Tokens("*" + b, 0), Tokens("**" + b, 0), text, 0);
  }

  lemma DoubledAtStart(b: string, text: string, k: nat)
    requires (b != [] ==> b[0] != '*') && k <= |text| && Matches(false, Tokens("*" + b, 0), text, k)
    ensures Matches(false, Tokens("**" + b, 0), text, k)
  {
    hide Matches;
    TokensOfSuffix("*", b, 0);
    var single, double := Tokens("*" + b, 0), Tokens("**" + b, 0);
    assert single == [Star] + Tokens(b, 0);
    if b != [] && b[0] == '/' {
      TokensOfSuffix("*", b, 1);
      TokensOfSuffix("**", b, 1);
      assert Tokens(b, 0) == [Literal('/')] + Tokens(b, 1);
      assert double == [DeepDir] + Tokens(b, 1);
      assert single == [Star, Literal('/')] + Tokens(b, 1);
      StarSlashToDeepDir(Tokens(b, 1), text, k);
    } else {
      TokensOfSuffix("**", b, 0);
      assert double == [Deep] + Tokens(b, 0);
      StarToDeep(Tokens(b, 0), text, k);
    }
  }

  lemma {:induction false} NarrowImpliesWide(tokens: seq<Token>, text: string, from: nat)
    requires from <= |text| && Matches(false, tokens, text, from)
    ensures Matches(true, tokens, text, from)
    decreases |tokens|
  {
    if tokens != [] {
      var to :| from <= to <= |text| && Consumes(false, tokens[0], text, from, to)
                && Matches(false, tokens[1..], text, to);
      NarrowImpliesWide(tokens[1..], text, to);
      assert Consumes(true, tokens[0], text, from, to);
    }
  }

  /** Whatever the authorization package's matcher accepts, policy evaluation accepts too. */
  lemma PolicyEngineIsWider(pattern: string, resource: string)
    requires MatchesAll(pattern) || Accepts(false, pattern, resource)
    ensures PolicyAccepts(pattern, resource)
  {
    if !MatchesAll(pattern) {
      AcceptsIffMatches(false, pattern, resource);
      AcceptsIffMatches(true, pattern, resource);
      NarrowImpliesWide(Tokens(pattern, 0), resource, 0);
      if PathPrefix(pattern) {
        var prefix := pattern[..|pattern| - 2];
        var dir := prefix + "/";
        assert pattern == dir + "*";
        assert WildcardFree(dir);
        TokensOfConcat(dir, "*", 0);
        LiteralBeginning(true, dir, "*", 0, resource, 0);
        assert dir[0..] == dir;
      }
    }
  }

  lemma {:induction false} RunSlashes(text: string, from: nat, to: nat)
    requires from <= to <= |text|
    ensures Slashes(text, from) >= Slashes(text, to)
    ensures Slashes(text, from) == Slashes(text, to) ==> SlashFree(text, from, to)
    decreases |text| - from
  {
    if from < to {
      RunSlashes(text, from + 1, to);
    }
  }

  /** With wide stars a text may have more slashes than the pattern; with as many, no star has crossed one. */
  lemma {:induction false} WideKeepsSlashes(tokens: seq<Token>, text: string, from: nat)
    requires from <= |text| && Shallow(tokens) && Matches(true, tokens, text, from)
    ensures Slashes(text, from) >= SlashTokens(tokens)
    ensures Slashes(text, from) == SlashTokens(tokens) ==> Matches(false, tokens, text, from)
    decreases |tokens|
  {
    if tokens != [] {
      var to :| from <= to <= |text| && Consumes(true, tokens[0], text, from, to)
                && Matches(true, tokens[1..], text, to);
      WideKeepsSlashes(tokens[1..], text, to);
      RunSlashes(text, from, to);
      if Slashes(text, from) == SlashTokens(tokens) {
        assert Consumes(false, tokens[0], text, from, to);
        MatchesVia(false, tokens, text, from, to);
      }
    }
  }

  lemma PrefixDepth(pattern: string)
    requires PathPrefix(pattern)
    ensures Slashes(pattern, 0) == Slashes(pattern[..|pattern| - 2], 0) + 1
  {
    var prefix := pattern[..|pattern| - 2];
    assert pattern == prefix + "/*";
    SlashesOfConcat(prefix, "/*", 0);
    assert Slashes("/*", 2) == 0 && Slashes("/*", 1) == 0;
  }

  /** The policy engine's prefix rule, as a match of the tokens with wide stars. */
  lemma PrefixIsWide(pattern: string, resource: string)
    requires PathPrefix(pattern) && pattern[..|pattern| - 1] <= resource
    ensures Accepts(true, pattern, resource)
  {
    hide Matches, Accepts, Tokens;
    var dir := pattern[..|pattern| - 1];
    assert pattern == dir + "*" && dir == pattern[..|pattern| - 2] + "/";
    assert dir[0..] == dir == resource[0..|dir|];
    TokensOfConcat(dir, "*", 0);
    LiteralBeginning(true, dir, "*", 0, resource, 0);
    StarTakesAll(resource, |dir|);
    AcceptsIffMatches(true, pattern, resource);
  }

  lemma StarTakesAll(text: string, from: nat)
    requires from <= |text|
    ensures Matches(true, Tokens("*", 0), text, from)
  {
    assert Tokens("*", 1) == [];
    assert Tokens("*", 0) == [Star] + Tokens("*", 1);
    assert Matches(true, Tokens("*", 0)[1..], text, |text|);
    MatchesVia(true, Tokens("*", 0), text, from, |text|);
  }

  lemma {:induction false} SlashesOfConcat(a: string, b: string, i: nat)
    requires i <= |a|
    ensures Slashes(a + b, i) == Slashes(a, i) + Slashes(b, 0)
    decreases |a| - i
  {
    if i < |a| {
      SlashesOfConcat(a, b, i + 1);
    } else {
      SlashesOfSuffix(a, b, 0);
    }
  }

  lemma {:induction false} SlashesOfSuffix(a: string, b: string, i: nat)
    requires i <= |b|
    ensures Slashes(a + b, |a| + i) == Slashes(b, i)
    decreases |b| - i
  {
    if i < |b| {
      SlashesOfSuffix(a, b, i + 1);
    }
  }

  /**
   Where the two matchers agree: for a pattern without `**`, the authorization package's matcher accepts
   exactly those texts accepted in policy evaluation that have as many path segments as the pattern.
   */
  lemma MatchersAgreeAtDepth(pattern: string, resource: string)
    requires !MatchesAll(pattern) && forall i: nat :: !DoubleStarAt(pattern, i)
    ensures Accepts(false, pattern, resource) <==>
            PolicyAccepts(pattern, resource) && Slashes(resource, 0) == Slashes(pattern, 0)
  {
    hide Accepts, Matches, Tokens;
    if Accepts(false, pattern, resource) {
      PolicyEngineIsWider(pattern, resource);
      SingleStarsKeepDepth(pattern, resource);
    }
    if PolicyAccepts(pattern, resource) && Slashes(resource, 0) == Slashes(pattern, 0) {
      if PathPrefix(pattern) {
        PrefixDepth(pattern);
        assert pattern[..|pattern| - 1] == pattern[..|pattern| - 2] + "/";
        PrefixIsWide(pattern, resource);
      }
      AcceptsIffMatches(true, pattern, resource);
      AcceptsIffMatches(false, pattern, resource);
      ShallowPattern(pattern, 0);
      WideKeepsSlashes(Tokens(pattern, 0), resource, 0);
    }
  }

  lemma {:induction false} StarlessMatchAlike(tokens: seq<Token>, text: string, from: nat)
    requires from <= |text| && Star !in tokens
    ensures Matches(true, tokens, text, from) <==> Matches(false, tokens, text, from)
    decreases |tokens|
  {
    if tokens != [] {
      forall to: nat | from <= to <= |text|
        ensures Consumes(true, tokens[0], text, from, to) <==> Consumes(false, tokens[0], text, from, to)
        ensures Matches(true, tokens[1..], text, to) <==> Matches(false, tokens[1..], text, to)
      {
        assert tokens[0] in tokens;
        StarlessMatchAlike(tokens[1..], text, to);
      }
    }
  }

  /** Patterns all of whose stars are doubled mean the same to both matchers. */
  lemma MatchersAgreeWithoutStar(pattern: string, resource: string)
    requires Star !in Tokens(pattern, 0)
    ensures PolicyAccepts(pattern, resource) <==> Accepts(false, pattern, resource)
  {
    AcceptsIffMatches(true, pattern, resource);
    AcceptsIffMatches(false, pattern, resource);
    StarlessMatchAlike(Tokens(pattern, 0), resource, 0);
    NotAPrefixPattern(pattern);
  }

  /** A text for the pattern in which every star stands for a slash. */
  function Sample(tokens: seq<Token>): string {
    if tokens == [] then ""
    else
      (match tokens[0]
       case Literal(c) => [c]
       case AnyChar => "a"
       case _ => "/")
      + Sample(tokens[1..])
  }

  lemma {:induction false} SampleIsDeeper(tokens: seq<Token>)
    requires Shallow(tokens)
    ensures Slashes(Sample(tokens), 0) >= SlashTokens(tokens)
    ensures Star in tokens ==> Slashes(Sample(tokens), 0) > SlashTokens(tokens)
  {
    if tokens != [] {
      var first, rest := Sample(tokens)[..1], Sample(tokens[1..]);
      assert Sample(tokens) == first + rest;
      SampleIsDeeper(tokens[1..]);
      SlashesOfConcat(first, rest, 0);
      assert Slashes(first, 1) == 0;
      assert Star in tokens ==> tokens[0] == Star || Star in tokens[1..];
    }
  }

  lemma {:induction false} SampleMatches(tokens: seq<Token>, front: string)
    ensures Matches(true, tokens, front + Sample(tokens), |front|)
    decreases tokens
  {
    if tokens != [] {
      var text, next := front + Sample(tokens), front + Sample(tokens)[..1];
      assert text == next + Sample(tokens[1..]);
      SampleMatches(tokens[1..], next);
      assert Consumes(true, tokens[0], text, |front|, |next|);
      MatchesVia(true, tokens, text, |front|, |next|);
    }
  }

  /** A pattern without `**` that is not a catch-all means the same to both matchers only without any star. */
  lemma MatchersAgreeIff(pattern: string)
    requires !MatchesAll(pattern) && forall i: nat :: !DoubleStarAt(pattern, i)
    ensures (forall resource :: PolicyAccepts(pattern, resource) <==> Accepts(false, pattern, resource))
            <==> Star !in Tokens(pattern, 0)
  {
    hide PolicyAccepts, Accepts, Matches, Tokens;
    if Star !in Tokens(pattern, 0) {
      forall resource ensures PolicyAccepts(pattern, resource) <==> Accepts(false, pattern, resource) {
        MatchersAgreeWithoutStar(pattern, resource);
      }
    } else {
      var resource := Sample(Tokens(pattern, 0));
      ShallowPattern(pattern, 0);
      SampleIsDeeper(Tokens(pattern, 0));
      MatchersAgreeAtDepth(pattern, resource);
      SampleIsAccepted(pattern);
      assert PolicyAccepts(pattern, resource) && !Accepts(false, pattern, resource);
    }
  }

  lemma SampleIsAccepted(pattern: string)
    requires forall i: nat :: !DoubleStarAt(pattern, i)
    ensures PolicyAccepts(pattern, Sample(Tokens(pattern, 0)))
  {
    hide Matches, Accepts, Tokens;
    var resource := Sample(Tokens(pattern, 0));
    SampleMatches(Tokens(pattern, 0), "");
    assert "" + resource == resource;
    AcceptsIffMatches(true, pattern, resource);
    if PathPrefix(pattern) {
      WideIsPrefix(pattern, resource);
    }
  }

  /** Conversely, a wide match of a prefix pattern begins with the path and a slash. */
  lemma WideIsPrefix(pattern: string, resource: string)
    requires PathPrefix(pattern) && Accepts(true, pattern, resource)
    ensures AtOrBelow(pattern[..|pattern| - 2], resource)
  {
    hide Matches, Accepts, Tokens;
    var dir := pattern[..|pattern| - 1];
    assert pattern == dir + "*" && dir == pattern[..|pattern| - 2] + "/";
    assert dir[0..] == dir;
    TokensOfConcat(dir, "*", 0);
    LiteralBeginning(true, dir, "*", 0, resource, 0);
    AcceptsIffMatches(true, pattern, resource);
  }

  lemma NotAPrefixPattern(pattern: string)
    ensures PathPrefix(pattern) || MatchesAll(pattern) ==> Star in Tokens(pattern, 0)
  {
    if MatchesAll(pattern) {
      assert Tokens(pattern, 0)[0] == Star;
    } else if PathPrefix(pattern) {
      var dir := pattern[..|pattern| - 1];
      assert pattern == dir + "*";
      assert dir == pattern[..|pattern| - 2] + "/";
      TokensOfConcat(dir, "*", 0);
      assert Tokens("*", 0)[0] == Star;
    }
  }

  /** ... and strictly more: a trailing `*` reaches below one path segment only in the policy engine. */
  lemma PolicyEngineIsStrictlyWider()
    ensures PolicyAccepts("kv/*", "kv/a/b") && !Accepts(false, "kv/*", "kv/a/b")
  {
    assert "kv/*"[..2] == "kv" && "kv/*"[2..] == "/*" && "kv/" <= "kv/a/b";
    if Accepts(false, "kv/*", "kv/a/b") {
      SingleStarsKeepDepth("kv/*", "kv/a/b");
      DepthOfExample();
    }
  }

  lemma DepthOfExample()
    ensures Slashes("kv/*", 0) == 1 && Slashes("kv/a/b", 0) == 2
  {
    var p, t := "kv/*", "kv/a/b";
    assert Slashes(p, 4) == 0 && Slashes(p, 3) == 0 && Slashes(p, 2) == 1 && Slashes(p, 1) == 1;
    assert Slashes(t, 6) == 0 && Slashes(t, 5) == 0 && Slashes(t, 4) == 1 && Slashes(t, 3) == 1;
    assert Slashes(t, 2) == 2 && Slashes(t, 1) == 2;
  }
}
