/**
 The placeholder / replacement validator. The identifiers of the HTML are
 those a left-to-right, non-overlapping scan for the pattern `{` word
 characters `}` captures (a word character being an ASCII letter, digit or
 underscore). The set of them is compared with the replacement keys: an
 identifier without a replacement is reported first, then an empty
 replacement value, then a replacement key the HTML never uses.
 */
module Placeholders {
  import opened Validation

  predicate IsWordChar(c: char) {
    ('a' <= c <= 'z') || ('A' <= c <= 'Z') || ('0' <= c <= '9') || c == '_'
  }

  /** A non-empty run of word characters. */
  predicate IsIdentifier(k: string) {
    |k| > 0 && forall i | 0 <= i < |k| :: IsWordChar(k[i])
  }

  /** The placeholder token for identifier `k`. */
  function Token(k: string): string {
    "{" + k + "}"
  }

  /** `t` occurs in `s` starting at position `j`. */
  predicate OccursAt(s: string, t: string, j: int) {
    0 <= j && j + |t| <= |s| && s[j..j + |t|] == t
  }

  /** The number of word characters in `s` from position `i` on, up to the first non-word character. */
  function WordRun(s: string, i: nat): (n: nat)
    requires i <= |s|
    ensures i + n <= |s|
    ensures forall j | i <= j < i + n :: IsWordChar(s[j])
    ensures i + n == |s| || !IsWordChar(s[i + n])
    decreases |s| - i
  {
    if i < |s| && IsWordChar(s[i]) then 1 + WordRun(s, i + 1) else 0
  }

  /**
   The identifier captured by a match of the pattern anchored at position `i`,
   if there is one. The greedy word run can only be followed by `}` at its
   maximal length, since a shorter run is followed by another word character.
   */
  function MatchAt(s: string, i: nat): (m: Option<string>)
    requires i <= |s|
    ensures m.Some? ==> IsIdentifier(m.value) && OccursAt(s, Token(m.value), i)
  {
    if i < |s| && s[i] == '{' then
      var n := WordRun(s, i + 1);
      if n > 0 && i + 1 + n < |s| && s[i + 1 + n] == '}' then
        var k := s[i + 1..i + 1 + n];
        assert s[i..i + 1 + n + 1] == Token(k);
        Some(k)
      else None
    else None
  }

  /**
   The identifiers captured by a scan of `s` from position `i`, in order: a
   match resumes the scan after its closing brace, a miss one character on.
   */
  function FindAll(s: string, i: nat): (keys: seq<string>)
    requires i <= |s|
    ensures forall k | k in keys :: IsIdentifier(k)
    decreases |s| - i
  {
    if i == |s| then []
    else
      match MatchAt(s, i)
      case Some(k) => [k] + FindAll(s, i + |k| + 2)
      case None => FindAll(s, i + 1)
  }

  /** A position that does not hold `{` starts no match. */
  lemma FindAllSkip(s: string, i: nat)
    requires i < |s| && s[i] != '{'
    ensures FindAll(s, i) == FindAll(s, i + 1)
  {
  }

  /** A token at the scan position is reported, and the scan resumes after it. */
  lemma FindAllToken(s: string, i: nat, k: string)
    requires IsIdentifier(k) && OccursAt(s, Token(k), i)
    ensures FindAll(s, i) == [k] + FindAll(s, i + |k| + 2)
  {
    MatchAtToken(s, k, i);
  }

  /** The set of placeholder identifiers in the HTML. */
  function PlaceholderKeys(html: string): (keys: set<string>)
    ensures forall k | k in keys :: IsIdentifier(k)
  {
    set k | k in FindAll(html, 0)
  }

  /** An occurrence of a token at the scan position is the match found there. */
  lemma MatchAtToken(s: string, k: string, j: nat)
    requires IsIdentifier(k) && OccursAt(s, Token(k), j)
    ensures MatchAt(s, j) == Some(k)
  {
    assert s[j] == Token(k)[0];
    var n := WordRun(s, j + 1);
    forall m | 0 <= m < |k| ensures s[j + 1 + m] == k[m] {
      assert s[j + 1 + m] == Token(k)[1 + m];
    }
    assert s[j + 1 + |k|] == Token(k)[1 + |k|];
    assert s[j + 1..j + 1 + n] == k;
  }

  /** No `{` lies strictly inside a match: the characters there are word characters or the closing `}`. */
  lemma MatchHasNoInnerBrace(s: string, i: nat, k: string)
    requires i <= |s| && MatchAt(s, i) == Some(k)
    ensures forall j | i < j < i + |k| + 2 :: s[j] != '{'
  {
  }

  /** Every identifier the scan reports has its token at or after the scan position. */
  lemma {:induction false} FindAllSound(s: string, i: nat, k: string)
    requires i <= |s| && k in FindAll(s, i)
    ensures exists j | i <= j :: OccursAt(s, Token(k), j)
    decreases |s| - i
  {
    match MatchAt(s, i)
    case Some(k') =>
      if k != k' {
        FindAllSound(s, i + |k'| + 2, k);
      }
    case None =>
      FindAllSound(s, i + 1, k);
  }

  /** Every token occurrence at or after the scan position is found. */
  lemma {:induction false} FindAllComplete(s: string, i: nat, k: string, j: int)
    requires i <= j && i <= |s|
    requires IsIdentifier(k) && OccursAt(s, Token(k), j)
    ensures k in FindAll(s, i)
    decreases |s| - i
  {
    if j == i {
      MatchAtToken(s, k, j);
    } else {
      match MatchAt(s, i)
      case Some(k') =>
        MatchHasNoInnerBrace(s, i, k');
        assert s[j] == Token(k)[0];
        FindAllComplete(s, i + |k'| + 2, k, j);
      case None =>
        FindAllComplete(s, i + 1, k, j);
    }
  }

  /**
   The extracted identifiers are exactly the non-empty word-character strings
   whose `{`…`}` token occurs somewhere in the HTML: the non-overlapping scan
   loses none of them.
   */
  lemma PlaceholderKeysIff(html: string, k: string)
    ensures k in PlaceholderKeys(html) <==> IsIdentifier(k) && exists j :: OccursAt(html, Token(k), j)
  {
    if k in PlaceholderKeys(html) {
      FindAllSound(html, 0, k);
    }
    if IsIdentifier(k) && exists j :: OccursAt(html, Token(k), j) {
      var j :| OccursAt(html, Token(k), j);
      FindAllComplete(html, 0, k, j);
    }
  }

  /** The acceptance rule, independent of check order: the key sets agree and no value is empty. */
  predicate ReplacementsAcceptable(html: string, replacements: map<string, string>) {
    && PlaceholderKeys(html) == replacements.Keys
    && forall key | key in replacements :: replacements[key] != ""
  }

  function ValidateReplacements(html: string, replacements: map<string, string>): (r: Outcome)
    ensures r.Fail? ==> r.error.IsReplacementError()
  {
    var htmlKeys := PlaceholderKeys(html);
    var replacementKeys := replacements.Keys;
    if htmlKeys - replacementKeys != {} then Fail(MissingReplacement)
    else if "" in replacements.Values then Fail(EmptyReplacementValue)
    else if replacementKeys - htmlKeys != {} then Fail(SurplusReplacementKey)
    else Pass
  }

  /** The validator accepts exactly when the key sets agree and no value is empty. */
  lemma ReplacementsAcceptedIff(html: string, replacements: map<string, string>)
    ensures ValidateReplacements(html, replacements) == Pass <==> ReplacementsAcceptable(html, replacements)
  {
  }

  /**
   Which error is reported: an identifier without a replacement first, then
   an empty value (only once every identifier has one), then a surplus key
   (only once every value is non-empty).
   */
  lemma ReplacementErrorPriority(html: string, replacements: map<string, string>)
    ensures ValidateReplacements(html, replacements) == Fail(MissingReplacement) <==>
              exists k | k in PlaceholderKeys(html) :: k !in replacements
    ensures ValidateReplacements(html, replacements) == Fail(EmptyReplacementValue) <==>
              && PlaceholderKeys(html) <= replacements.Keys
              && exists key | key in replacements :: replacements[key] == ""
    ensures ValidateReplacements(html, replacements) == Fail(SurplusReplacementKey) <==>
              && PlaceholderKeys(html) < replacements.Keys
              && forall key | key in replacements :: replacements[key] != ""
  {
    var htmlKeys := PlaceholderKeys(html);
    if htmlKeys - replacements.Keys != {} {
      var k :| k in htmlKeys - replacements.Keys;
      assert k in htmlKeys && k !in replacements;
    } else {
      assert htmlKeys <= replacements.Keys by {
        forall x | x in htmlKeys ensures x in replacements.Keys {
          assert x !in htmlKeys - replacements.Keys;
        }
      }
      if "" in replacements.Values {
        var key :| key in replacements && replacements[key] == "";
      }
      if replacements.Keys - htmlKeys != {} {
        var k :| k in replacements.Keys - htmlKeys;
        assert htmlKeys != replacements.Keys;
      }
    }
  }
}
