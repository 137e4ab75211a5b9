/**
 HTML escaping and decoding, both written as chains of global replacements. Each replacement
 sees the output of the previous one, so that the chains are inverse to each other depends on
 their order.
 */
module HtmlEntities {

  /** `String.replaceAll`: leftmost, non-overlapping, without rescanning the replacement. */
  function ReplaceAll(s: string, pat: string, rep: string): string
    requires pat != ""
    decreases |s|
  {
    if |s| < |pat| then s
    else if s[..|pat|] == pat then rep + ReplaceAll(s[|pat|..], pat, rep)
    else [s[0]] + ReplaceAll(s[1..], pat, rep)
  }

  function EscapeHtmlAttribute(s: string): string
  {
    ReplaceAll(ReplaceAll(ReplaceAll(ReplaceAll(s, "&", "&amp;"), "\"", "&quot;"), "<", "&lt;"), ">", "&gt;")
  }

  function EscapeHtmlText(s: string): string
  {
    ReplaceAll(ReplaceAll(ReplaceAll(s, "&", "&amp;"), "<", "&lt;"), ">", "&gt;")
  }

  function DecodeBasicHtmlEntities(s: string): string
  {
    var quotes := ReplaceAll(ReplaceAll(s, "&quot;", "\""), "&#39;", "'");
    ReplaceAll(ReplaceAll(ReplaceAll(quotes, "&lt;", "<"), "&gt;", ">"), "&amp;", "&")
  }

  // ---------------------------------------------------------------- character by character

  const SPECIAL: set<char> := {'&', '"', '\'', '<', '>'}

  function Entity(c: char): string
    requires c in SPECIAL
  {
    if c == '&' then "&amp;"
    else if c == '"' then "&quot;"
    else if c == '\'' then "&#39;"
    else if c == '<' then "&lt;"
    else "&gt;"
  }

  function Token(encoded: set<char>, c: char): string
  {
    if c in encoded && c in SPECIAL then Entity(c) else [c]
  }

  /** The text with exactly the characters in `encoded` written as entities. */
  function Tokens(encoded: set<char>, s: string): string
  {
    if s == "" then "" else Token(encoded, s[0]) + Tokens(encoded, s[1..])
  }

  ghost predicate MismatchAt(token: string, pat: string, i: nat, k: nat)
  {
    k < |pat| && i + k < |token| && token[i + k] != pat[k]
  }

  /** The token itself shows that the pattern does not begin at `i`. */
  ghost predicate Differs(token: string, pat: string, i: nat)
  {
    exists k: nat :: MismatchAt(token, pat, i, k)
  }

  /** No occurrence of the pattern begins inside the token, whatever follows it. */
  ghost predicate Clean(token: string, pat: string)
  {
    forall i: nat :: i < |token| ==> Differs(token, pat, i)
  }

  lemma CleanTail(token: string, pat: string)
    requires token != "" && Clean(token, pat)
    ensures Clean(token[1..], pat)
  {
    forall i: nat | i < |token[1..]|
      ensures Differs(token[1..], pat, i)
    {
      assert Differs(token, pat, i + 1);
      var m: nat :| MismatchAt(token, pat, i + 1, m);
      assert MismatchAt(token[1..], pat, i, m);
    }
  }

  lemma NoMatchAtCleanToken(token: string, rest: string, pat: string)
    requires token != "" && Clean(token, pat) && |token + rest| >= |pat|
    ensures (token + rest)[..|pat|] != pat
  {
    assert Differs(token, pat, 0);
    var k: nat :| MismatchAt(token, pat, 0, k);
    assert (token + rest)[..|pat|][k] == token[k];
  }

  lemma {:induction false} CleanTokenStays(token: string, rest: string, pat: string, rep: string)
    requires pat != "" && Clean(token, pat)
    ensures ReplaceAll(token + rest, pat, rep) == token + ReplaceAll(rest, pat, rep)
    decreases |token|
  {
    var s := token + rest;
    if token == "" {
      assert s == rest;
    } else if |s| >= |pat| {
      NoMatchAtCleanToken(token, rest, pat);
      CleanTail(token, pat);
      CleanTokenStays(token[1..], rest, pat, rep);
      assert s[1..] == token[1..] + rest;
      assert [token[0]] + (token[1..] + ReplaceAll(rest, pat, rep)) == token + ReplaceAll(rest, pat, rep);
    }
  }

  lemma MatchIsReplaced(rest: string, pat: string, rep: string)
    requires pat != ""
    ensures ReplaceAll(pat + rest, pat, rep) == rep + ReplaceAll(rest, pat, rep)
  {
    assert (pat + rest)[..|pat|] == pat && (pat + rest)[|pat|..] == rest;
  }

  /** An entity that is not the pattern differs from it early, and has no second ampersand. */
  lemma EntitiesAreClean(c: char, x: char)
    requires c in SPECIAL && x in SPECIAL && c != x
    ensures Clean(Entity(c), Entity(x))
  {
    var token, pat := Entity(c), Entity(x);
    forall i: nat | i < |token|
      ensures Differs(token, pat, i)
    {
      if i == 0 {
        assert MismatchAt(token, pat, 0, 1) || MismatchAt(token, pat, 0, 2);
      } else {
        assert MismatchAt(token, pat, i, 0);
      }
    }
  }

  lemma RawIsClean(c: char, x: char)
    requires x in SPECIAL && c != '&'
    ensures Clean([c], Entity(x))
  {
    assert MismatchAt([c], Entity(x), 0, 0);
  }

  // ---------------------------------------------------------------- one replacement

  /** As long as every ampersand of the text is itself encoded, decoding one entity undoes one escape. */
  lemma {:induction false} DecodeStep(encoded: set<char>, s: string, x: char)
    requires x in SPECIAL && '&' in encoded
    ensures ReplaceAll(Tokens(encoded, s), Entity(x), [x]) == Tokens(encoded - {x}, s)
    decreases |s|
  {
    if s != "" {
      var c, rest := s[0], Tokens(encoded, s[1..]);
      DecodeStep(encoded, s[1..], x);
      if c in encoded && c in SPECIAL {
        if c == x {
          MatchIsReplaced(rest, Entity(x), [x]);
        } else {
          EntitiesAreClean(c, x);
          CleanTokenStays(Entity(c), rest, Entity(x), [x]);
        }
      } else {
        RawIsClean(c, x);
        CleanTokenStays([c], rest, Entity(x), [x]);
      }
    }
  }

  /** Escaping a character leaves the entities made before it alone, unless it is the ampersand. */
  lemma {:induction false} EscapeStep(encoded: set<char>, s: string, x: char)
    requires x in SPECIAL && x !in encoded && (x == '&' ==> encoded == {})
    ensures ReplaceAll(Tokens(encoded, s), [x], Entity(x)) == Tokens(encoded + {x}, s)
    decreases |s|
  {
    if s != "" {
      var c, rest := s[0], Tokens(encoded, s[1..]);
      EscapeStep(encoded, s[1..], x);
      var token := Token(encoded, c);
      if c == x {
        assert token == [x];
        MatchIsReplaced(rest, [x], Entity(x));
      } else {
        forall i: nat | i < |token|
          ensures Differs(token, [x], i)
        {
          assert MismatchAt(token, [x], i, 0);
        }
        CleanTokenStays(token, rest, [x], Entity(x));
      }
    }
  }

  lemma {:induction false} NothingEncoded(encoded: set<char>, s: string)
    requires encoded !! SPECIAL
    ensures Tokens(encoded, s) == s
    decreases |s|
  {
    if s != "" {
      NothingEncoded(encoded, s[1..]);
    }
  }

  // ---------------------------------------------------------------- the chains

  lemma EscapeAttributeIsTokens(s: string)
    ensures EscapeHtmlAttribute(s) == Tokens({'&', '"', '<', '>'}, s)
  {
    var e1, e2, e3 := {'&'}, {'&', '"'}, {'&', '"', '<'};
    NothingEncoded({}, s);
    EscapeStep({}, s, '&');
    assert {} + {'&'} == e1;
    EscapeStep(e1, s, '"');
    assert e1 + {'"'} == e2;
    EscapeStep(e2, s, '<');
    assert e2 + {'<'} == e3;
    EscapeStep(e3, s, '>');
    assert e3 + {'>'} == {'&', '"', '<', '>'};
  }

  lemma EscapeTextIsTokens(s: string)
    ensures EscapeHtmlText(s) == Tokens({'&', '<', '>'}, s)
  {
    var e1, e2 := {'&'}, {'&', '<'};
    NothingEncoded({}, s);
    EscapeStep({}, s, '&');
    assert {} + {'&'} == e1;
    EscapeStep(e1, s, '<');
    assert e1 + {'<'} == e2;
    EscapeStep(e2, s, '>');
    assert e2 + {'>'} == {'&', '<', '>'};
  }

  lemma DecodeTokens(encoded: set<char>, s: string)
    requires '&' in encoded && encoded <= SPECIAL
    ensures DecodeBasicHtmlEntities(Tokens(encoded, s)) == s
  {
    var e1 := encoded - {'"'};
    var e2 := e1 - {'\''};
    var e3 := e2 - {'<'};
    var e4 := e3 - {'>'};
    DecodeStep(encoded, s, '"');
    DecodeStep(e1, s, '\'');
    DecodeStep(e2, s, '<');
    DecodeStep(e3, s, '>');
    DecodeStep(e4, s, '&');
    NothingEncoded(e4 - {'&'}, s);
  }

  /** Decoding undoes both escapes on every string, including one that already contains entities. */
  lemma DecodeUndoesEscape(s: string)
    ensures DecodeBasicHtmlEntities(EscapeHtmlAttribute(s)) == s
    ensures DecodeBasicHtmlEntities(EscapeHtmlText(s)) == s
  {
    EscapeAttributeIsTokens(s);
    EscapeTextIsTokens(s);
    DecodeTokens({'&', '"', '<', '>'}, s);
    DecodeTokens({'&', '<', '>'}, s);
  }

  lemma {:induction false} TokensHideRaw(encoded: set<char>, s: string, c: char)
    requires c in encoded && c in SPECIAL && c != '&'
    ensures c !in Tokens(encoded, s)
    decreases |s|
  {
    if s != "" {
      TokensHideRaw(encoded, s[1..], c);
      assert c !in Token(encoded, s[0]);
    }
  }

  /** An escaped attribute can be put between double quotes, escaped text between tags. */
  lemma EscapedIsSafe(s: string)
    ensures '"' !in EscapeHtmlAttribute(s) && '<' !in EscapeHtmlAttribute(s) && '>' !in EscapeHtmlAttribute(s)
    ensures '<' !in EscapeHtmlText(s) && '>' !in EscapeHtmlText(s)
  {
    EscapeAttributeIsTokens(s);
    EscapeTextIsTokens(s);
    TokensHideRaw({'&', '"', '<', '>'}, s, '"');
    TokensHideRaw({'&', '"', '<', '>'}, s, '<');
    TokensHideRaw({'&', '"', '<', '>'}, s, '>');
    TokensHideRaw({'&', '<', '>'}, s, '<');
    TokensHideRaw({'&', '<', '>'}, s, '>');
  }
}
