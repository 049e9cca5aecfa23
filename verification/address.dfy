/**
 The email address validator. The address is stripped and then eight rules
 are checked in a fixed order, the first broken one being reported: total
 length, a single `@`, username length, domain length, character set,
 top-level suffix, username edge characters, dots in the domain.
 */
module Address {
  import opened Validation
  import opened Text

  const MaxAddressLength := 254
  const MaxUsernameLength := 64
  const MaxDomainLength := 251

  /** The accepted top-level suffixes, in the order they are tried. */
  const ValidTlds: seq<string> := [".com", ".net", ".org"]

  predicate IsLower(c: char) { 'a' <= c <= 'z' }
  predicate IsUpper(c: char) { 'A' <= c <= 'Z' }
  predicate IsDigit(c: char) { '0' <= c <= '9' }

  /** A character allowed anywhere in an address. */
  predicate IsAddressChar(c: char) {
    IsLower(c) || IsUpper(c) || IsDigit(c) || c in ['@', '-', '.']
  }

  /** The domain ends with one of the accepted suffixes. */
  predicate HasValidTld(domain: string) {
    exists tld | tld in ValidTlds :: EndsWith(domain, tld)
  }

  /** The username starts or ends with a hyphen or a dot. */
  predicate HasBadEdge(username: string) {
    StartsWith(username, "-") || EndsWith(username, "-") ||
    StartsWith(username, ".") || EndsWith(username, ".")
  }

  function ValidateAddress(addr: string): (r: Outcome)
    ensures r.Fail? ==> r.error.IsAddressError()
    ensures r == Fail(AddressTooLong) <==> |Strip(addr)| > MaxAddressLength
    // zero or several `@` are reported as such once the length rule holds
    ensures |Strip(addr)| <= MaxAddressLength ==>
              (r == Fail(NotSingleAt) <==> Count(Strip(addr), '@') != 1)
  {
    var t := Strip(addr);
    if |t| > MaxAddressLength then Fail(AddressTooLong)
    else
      var parts := Split(t, '@');
      if |parts| != 2 then Fail(NotSingleAt)
      else ValidateParts(t, parts[0], parts[1])
  }

  /** The six rules checked once the stripped address `t` has been split into username and domain. */
  function ValidateParts(t: string, username: string, domain: string): (r: Outcome)
    ensures r.Fail? ==> r.error.IsAddressError() && !r.error.AddressTooLong? && !r.error.NotSingleAt?
  {
    if |username| > MaxUsernameLength then Fail(UsernameTooLong)
    else if |domain| > MaxDomainLength then Fail(DomainTooLong)
    else if !(forall i | 0 <= i < |t| :: IsAddressChar(t[i])) then Fail(InvalidCharacters)
    else if !HasValidTld(domain) then Fail(InvalidTld)
    else if HasBadEdge(username) then Fail(UsernameEdge)
    else if Count(domain, '.') > 1 || (Count(domain, '.') == 1 && !HasValidTld(domain)) then Fail(MisplacedDot)
    else Pass
  }

  /** The text before the first `@` of a stripped address. */
  function LocalPart(t: string): string {
    t[..FirstIndex(t, '@')]
  }

  /** The text after the first `@` of a stripped address; empty when there is none. */
  function DomainPart(t: string): string {
    if FirstIndex(t, '@') < |t| then t[FirstIndex(t, '@') + 1..] else []
  }

  predicate AllAddressChars(t: string) {
    forall i | 0 <= i < |t| :: IsAddressChar(t[i])
  }

  /** The last four characters are one of the accepted suffixes. */
  predicate TldOk(d: string) {
    |d| >= 4 && d[|d| - 4..] in {".com", ".net", ".org"}
  }

  /** Neither end of the username is a hyphen or a dot (an empty username qualifies). */
  predicate EdgesOk(u: string) {
    |u| > 0 ==> u[0] != '-' && u[0] != '.' && u[|u| - 1] != '-' && u[|u| - 1] != '.'
  }

  /** No dot occurs before the four-character suffix. */
  predicate NoDotBeforeTld(d: string) {
    |d| < 4 || '.' !in d[..|d| - 4]
  }

  /**
   The rules numbered below `n` hold of the stripped address `t`, the rules
   being numbered 1 to 8 in the order the validator checks them.
   */
  predicate RulesBefore(t: string, n: int) {
    && (n > 1 ==> |t| <= MaxAddressLength)
    && (n > 2 ==> Count(t, '@') == 1)
    && (n > 3 ==> |LocalPart(t)| <= MaxUsernameLength)
    && (n > 4 ==> |DomainPart(t)| <= MaxDomainLength)
    && (n > 5 ==> AllAddressChars(t))
    && (n > 6 ==> TldOk(DomainPart(t)))
    && (n > 7 ==> EdgesOk(LocalPart(t)))
    && (n > 8 ==> NoDotBeforeTld(DomainPart(t)))
  }

  /**
   An acceptable stripped address, stated rule by rule without regard to the
   order in which they are checked: at most 254 characters, exactly one `@`,
   a username of at most 64 characters and a domain of at most 251, nothing
   but letters, digits, `@`, `-` and `.`, a domain ending in an accepted
   suffix with no other dot, and a username with no hyphen or dot at either end.
   */
  predicate AddressAcceptable(t: string) {
    RulesBefore(t, 9)
  }

  /** Joining a username and a domain with one `@` gives back the two parts. */
  lemma JoinedParts(u: string, d: string)
    requires '@' !in u && '@' !in d
    ensures Count(u + "@" + d, '@') == 1
    ensures LocalPart(u + "@" + d) == u && DomainPart(u + "@" + d) == d
  {
    var t := u + "@" + d;
    CountAppend(u + "@", d, '@');
    CountAppend(u, "@", '@');
    assert t[..|u|] == u && t[|u|] == '@';
    FirstIndexAt(t, '@', |u|);
    assert t[|u| + 1..] == d;
  }

  /** An unpadded address of acceptable length with one `@` is judged on its two parts. */
  lemma ValidateJoinedParts(u: string, d: string)
    requires '@' !in u && '@' !in d
    requires |u| + 1 + |d| <= MaxAddressLength
    requires Strip(u + "@" + d) == u + "@" + d
    ensures ValidateAddress(u + "@" + d) == ValidateParts(u + "@" + d, u, d)
  {
    SplitAround(u, d, '@');
    SplitNoSeparator(d, '@');
  }

  /** In a string with one `@`, none follows the first. */
  lemma NoAtAfterFirst(t: string)
    requires Count(t, '@') == 1
    ensures FirstIndex(t, '@') < |t|
    ensures t == t[..FirstIndex(t, '@')] + "@" + t[FirstIndex(t, '@') + 1..]
    ensures '@' !in t[FirstIndex(t, '@') + 1..]
  {
    var p := FirstIndex(t, '@');
    var a, b := t[..p], t[p + 1..];
    assert t == a + ['@'] + b;
    CountAround(a, b, '@');
  }

  /** A string with one `@` splits into the text before it and the text after it. */
  lemma SplitAtSingleAt(t: string)
    requires Count(t, '@') == 1
    ensures Split(t, '@') == [t[..FirstIndex(t, '@')], t[FirstIndex(t, '@') + 1..]]
  {
    NoAtAfterFirst(t);
    var p := FirstIndex(t, '@');
    var a, b := t[..p], t[p + 1..];
    SplitAround(a, b, '@');
    SplitNoSeparator(b, '@');
  }

  lemma HasValidTldMeaning(d: string)
    ensures HasValidTld(d) <==> |d| >= 4 && d[|d| - 4..] in {".com", ".net", ".org"}
  {
    if HasValidTld(d) {
      var tld :| tld in ValidTlds && EndsWith(d, tld);
      assert |tld| == 4;
    }
    if |d| >= 4 && d[|d| - 4..] in {".com", ".net", ".org"} {
      assert EndsWith(d, d[|d| - 4..]);
    }
  }

  /** With a valid suffix, "at most one dot" means "no dot before the suffix". */
  lemma DotsWithValidTld(d: string)
    requires |d| >= 4 && d[|d| - 4..] in {".com", ".net", ".org"}
    ensures Count(d, '.') >= 1
    ensures Count(d, '.') <= 1 <==> '.' !in d[..|d| - 4]
  {
    var tld := d[|d| - 4..];
    assert d == d[..|d| - 4] + tld;
    CountAppend(d[..|d| - 4], tld, '.');
    assert Count(tld, '.') == 1;
  }

  lemma HasBadEdgeMeaning(u: string)
    ensures HasBadEdge(u) <==> |u| > 0 && (u[0] in "-." || u[|u| - 1] in "-.")
  {
  }

  /** The rules after the split, judged on the two parts. */
  lemma PartsRuleOrder(t: string, u: string, d: string)
    ensures ValidateParts(t, u, d) == Fail(UsernameTooLong) <==> |u| > MaxUsernameLength
    ensures ValidateParts(t, u, d) == Fail(DomainTooLong) <==>
              |u| <= MaxUsernameLength && |d| > MaxDomainLength
    ensures ValidateParts(t, u, d) == Fail(InvalidCharacters) <==>
              |u| <= MaxUsernameLength && |d| <= MaxDomainLength && !AllAddressChars(t)
    ensures ValidateParts(t, u, d) == Fail(InvalidTld) <==>
              |u| <= MaxUsernameLength && |d| <= MaxDomainLength && AllAddressChars(t) && !TldOk(d)
    ensures ValidateParts(t, u, d) == Fail(UsernameEdge) <==>
              |u| <= MaxUsernameLength && |d| <= MaxDomainLength && AllAddressChars(t) && TldOk(d) && !EdgesOk(u)
    ensures ValidateParts(t, u, d) == Fail(MisplacedDot) <==>
              |u| <= MaxUsernameLength && |d| <= MaxDomainLength && AllAddressChars(t) && TldOk(d) && EdgesOk(u) &&
              !NoDotBeforeTld(d)
    ensures ValidateParts(t, u, d) == Pass <==>
              |u| <= MaxUsernameLength && |d| <= MaxDomainLength && AllAddressChars(t) && TldOk(d) && EdgesOk(u) &&
              NoDotBeforeTld(d)
  {
    HasValidTldMeaning(d);
    HasBadEdgeMeaning(u);
    if TldOk(d) {
      DotsWithValidTld(d);
    }
  }

  /**
   The validator reports the first of the eight rules that the stripped
   address breaks, and passes exactly when none is broken.
   */
  lemma RuleOrder(addr: string)
    ensures var t := Strip(addr); ValidateAddress(addr) == Fail(AddressTooLong) <==> !RulesBefore(t, 2)
    ensures var t := Strip(addr);
            ValidateAddress(addr) == Fail(NotSingleAt) <==> RulesBefore(t, 2) && !RulesBefore(t, 3)
    ensures var t := Strip(addr);
            ValidateAddress(addr) == Fail(UsernameTooLong) <==> RulesBefore(t, 3) && !RulesBefore(t, 4)
    ensures var t := Strip(addr);
            ValidateAddress(addr) == Fail(DomainTooLong) <==> RulesBefore(t, 4) && !RulesBefore(t, 5)
    ensures var t := Strip(addr);
            ValidateAddress(addr) == Fail(InvalidCharacters) <==> RulesBefore(t, 5) && !RulesBefore(t, 6)
    ensures var t := Strip(addr);
            ValidateAddress(addr) == Fail(InvalidTld) <==> RulesBefore(t, 6) && !RulesBefore(t, 7)
    ensures var t := Strip(addr);
            ValidateAddress(addr) == Fail(UsernameEdge) <==> RulesBefore(t, 7) && !RulesBefore(t, 8)
    ensures var t := Strip(addr);
            ValidateAddress(addr) == Fail(MisplacedDot) <==> RulesBefore(t, 8) && !RulesBefore(t, 9)
    ensures ValidateAddress(addr) == Pass <==> AddressAcceptable(Strip(addr))
  {
    var t := Strip(addr);
    if |t| <= MaxAddressLength && Count(t, '@') == 1 {
      SplitAtSingleAt(t);
      assert ValidateAddress(addr) == ValidateParts(t, LocalPart(t), DomainPart(t));
      PartsRuleOrder(t, LocalPart(t), DomainPart(t));
    }
  }

  /**
   Every accepted domain holds exactly one dot, and it is the one that begins
   the suffix; so `x.example.com` cannot pass. The second half of the dot rule
   (one dot but no valid suffix) can never fire, since the suffix rule ran first.
   */
  lemma AcceptedDomainHasOneDot(addr: string)
    requires ValidateAddress(addr) == Pass
    ensures var d := Split(Strip(addr), '@')[1];
            Count(d, '.') == 1 && FirstIndex(d, '.') == |d| - 4
  {
    RuleOrder(addr);
    var t := Strip(addr);
    SplitAtSingleAt(t);
    var d := DomainPart(t);
    assert Split(t, '@')[1] == d;
    DotsWithValidTld(d);
    FirstIndexAt(d, '.', |d| - 4);
  }

  /** Whitespace around an address does not change the verdict. */
  lemma AddressIgnoresPadding(addr: string, a: string, b: string)
    requires AllWhitespace(a) && AllWhitespace(b)
    ensures ValidateAddress(a + addr + b) == ValidateAddress(addr)
  {
    StripIgnoresPadding(a, addr, b);
  }
}
