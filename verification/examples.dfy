/**
 The accept and reject cases of the repository's own test, and the address
 and placeholder examples its rules imply, as verified facts. Each verdict is
 derived from the rule-by-rule lemmas and a few small facts about the literal
 strings involved.
 */
module Examples {
  import opened Validation
  import opened Text
  import opened Names
  import opened Address
  import opened Placeholders
  import opened Payload

  // ---- facts about the literal strings ----

  lemma ExampleCom()
    ensures TldOk("example.com") && NoDotBeforeTld("example.com")
  {
  }

  lemma JohnFacts()
    ensures "john" + "@" + "example.com" == "john@example.com"
    ensures Strip("john@example.com") == "john@example.com"
    ensures AllAddressChars("john@example.com")
    ensures EdgesOk("john")
  {
  }

  lemma JaneFacts()
    ensures "jane" + "@" + "example.com" == "jane@example.com"
    ensures Strip("jane@example.com") == "jane@example.com"
    ensures AllAddressChars("jane@example.com")
    ensures EdgesOk("jane")
  {
  }

  // ---- addresses ----

  lemma JohnAccepted()
    ensures ValidateAddress("john@example.com") == Pass
  {
    JohnFacts();
    ExampleCom();
    ValidateJoinedParts("john", "example.com");
    PartsRuleOrder("john@example.com", "john", "example.com");
  }

  lemma JaneAccepted()
    ensures ValidateAddress("jane@example.com") == Pass
  {
    JaneFacts();
    ExampleCom();
    ValidateJoinedParts("jane", "example.com");
    PartsRuleOrder("jane@example.com", "jane", "example.com");
  }

  /** Surrounding whitespace is stripped before any rule is applied. */
  lemma PaddedJohnAccepted()
    ensures ValidateAddress("  john@example.com\t") == Pass
  {
    assert "  john@example.com\t" == "  " + "john@example.com" + "\t";
    AddressIgnoresPadding("john@example.com", "  ", "\t");
    JohnAccepted();
  }

  /** The information separators 28 to 31 count as whitespace too, as in Python. */
  lemma SeparatorPaddedJohnAccepted()
    ensures ValidateAddress([UnitSeparator] + "john@example.com") == Pass
  {
    assert [UnitSeparator] + "john@example.com" == [UnitSeparator] + "john@example.com" + [];
    AddressIgnoresPadding("john@example.com", [UnitSeparator], []);
    JohnAccepted();
  }

  lemma NoAtRejected()
    ensures ValidateAddress("john") == Fail(NotSingleAt)
    ensures ValidateAddress("jane") == Fail(NotSingleAt)
  {
  }

  lemma SubdomainFacts()
    ensures "john" + "@" + "x.example.com" == "john@x.example.com"
    ensures Strip("john@x.example.com") == "john@x.example.com"
    ensures AllAddressChars("john@x.example.com")
    ensures EdgesOk("john")
  {
  }

  lemma SubdomainDomainFacts()
    ensures TldOk("x.example.com") && !NoDotBeforeTld("x.example.com")
  {
    assert "x.example.com"[9..] == ".com";
    assert "x.example.com"[..9][1] == '.';
  }

  /** A second dot in the domain is refused: only one-label domains pass. */
  lemma SubdomainRejected()
    ensures ValidateAddress("john@x.example.com") == Fail(MisplacedDot)
  {
    SubdomainFacts();
    SubdomainDomainFacts();
    ValidateJoinedParts("john", "x.example.com");
    PartsRuleOrder("john@x.example.com", "john", "x.example.com");
  }

  lemma BadCharFacts()
    ensures "jo!hn" + "@" + "example.com" == "jo!hn@example.com"
    ensures Strip("jo!hn@example.com") == "jo!hn@example.com"
    ensures !AllAddressChars("jo!hn@example.com")
  {
    StripUnpadded("jo!hn@example.com");
    assert !IsAddressChar("jo!hn@example.com"[2]);
  }

  lemma BadCharRejected()
    ensures ValidateAddress("jo!hn@example.com") == Fail(InvalidCharacters)
  {
    BadCharFacts();
    ValidateJoinedParts("jo!hn", "example.com");
    PartsRuleOrder("jo!hn@example.com", "jo!hn", "example.com");
  }

  lemma LeadingHyphenFacts()
    ensures "-john" + "@" + "example.com" == "-john@example.com"
    ensures Strip("-john@example.com") == "-john@example.com"
    ensures AllAddressChars("-john@example.com")
    ensures !EdgesOk("-john")
  {
  }

  lemma LeadingHyphenRejected()
    ensures ValidateAddress("-john@example.com") == Fail(UsernameEdge)
  {
    LeadingHyphenFacts();
    ExampleCom();
    ValidateJoinedParts("-john", "example.com");
    PartsRuleOrder("-john@example.com", "-john", "example.com");
  }

  lemma BadTldFacts()
    ensures "john" + "@" + "example.co" == "john@example.co"
    ensures Strip("john@example.co") == "john@example.co"
    ensures AllAddressChars("john@example.co")
    ensures !TldOk("example.co")
  {
  }

  lemma BadTldRejected()
    ensures ValidateAddress("john@example.co") == Fail(InvalidTld)
  {
    BadTldFacts();
    ValidateJoinedParts("john", "example.co");
    PartsRuleOrder("john@example.co", "john", "example.co");
  }

  lemma EmptyUsernameFacts()
    ensures [] + "@" + "example.com" == "@example.com"
    ensures Strip("@example.com") == "@example.com"
    ensures AllAddressChars("@example.com")
  {
  }

  /** No rule asks for a non-empty username. */
  lemma EmptyUsernameAccepted()
    ensures ValidateAddress("@example.com") == Pass
  {
    EmptyUsernameFacts();
    ExampleCom();
    ValidateJoinedParts([], "example.com");
    PartsRuleOrder("@example.com", [], "example.com");
  }

  lemma BareTldFacts()
    ensures "john" + "@" + ".com" == "john@.com"
    ensures Strip("john@.com") == "john@.com"
    ensures AllAddressChars("john@.com")
    ensures TldOk(".com") && NoDotBeforeTld(".com")
  {
    StripUnpadded("john@.com");
    assert ".com"[0..] == ".com";
  }

  /** No rule asks for a label before the suffix. */
  lemma BareTldAccepted()
    ensures ValidateAddress("john@.com") == Pass
  {
    BareTldFacts();
    JohnFacts();
    ValidateJoinedParts("john", ".com");
    PartsRuleOrder("john@.com", "john", ".com");
  }

  // ---- placeholders ----

  lemma HelloPlaceholders()
    ensures PlaceholderKeys("Hello {name}!") == {"name"}
  {
    var s := "Hello {name}!";
    FindAllSkip(s, 12);
    assert s[6..12] == Token("name");
    FindAllToken(s, 6, "name");
    FindAllSkip(s, 5);
    FindAllSkip(s, 4);
    FindAllSkip(s, 3);
    FindAllSkip(s, 2);
    FindAllSkip(s, 1);
    FindAllSkip(s, 0);
  }

  lemma HelloMatchingAccepted()
    ensures ValidateReplacements("Hello {name}!", map["name" := "Janet"]) == Pass
    ensures ValidateReplacements("Hello {name}!", map["name" := "Jane"]) == Pass
  {
    HelloPlaceholders();
    ReplacementsAcceptedIff("Hello {name}!", map["name" := "Janet"]);
    ReplacementsAcceptedIff("Hello {name}!", map["name" := "Jane"]);
  }

  /** A wrong key is reported as a missing replacement, which is checked before surplus keys. */
  lemma HelloWrongKeyRejected()
    ensures ValidateReplacements("Hello {name}!", map["age" := "30"]) == Fail(MissingReplacement)
  {
    HelloPlaceholders();
    ReplacementErrorPriority("Hello {name}!", map["age" := "30"]);
    assert "name" !in map["age" := "30"];
  }

  lemma HelloEmptyValueRejected()
    ensures ValidateReplacements("Hello {name}!", map["name" := ""]) == Fail(EmptyReplacementValue)
  {
    HelloPlaceholders();
    ReplacementErrorPriority("Hello {name}!", map["name" := ""]);
  }

  lemma HelloSurplusKeyRejected()
    ensures ValidateReplacements("Hello {name}!", map["name" := "Janet", "age" := "30"]) == Fail(SurplusReplacementKey)
  {
    var m := map["name" := "Janet", "age" := "30"];
    HelloPlaceholders();
    ReplacementErrorPriority("Hello {name}!", m);
    assert m.Keys == {"name", "age"};
    assert "age" !in {"name"};
    assert forall key | key in m :: m[key] != "";
  }

  // ---- names ----

  lemma NameExamples()
    ensures ValidateNames("Johnson", "Janet") == Pass
    ensures ValidateNames("J", "Janet") == Fail(SenderNameLength)
    ensures ValidateNames("Johnson", "J") == Fail(ReceiverNameLength)
    ensures ValidateNames("John", "Jane") == Fail(SenderNameLength)
    ensures ValidateNames("Johnny", "Janet") == Pass
  {
  }

  // ---- whole payloads ----

  /** A payload with every field present. */
  function Full(senderName: string, senderAddr: string, receiverName: string, receiverAddr: string,
                html: string, replacements: map<string, string>): Payload
  {
    Payload(Some(senderName), Some(receiverName), Some(senderAddr), Some(receiverAddr),
            Some(html), Some(replacements))
  }

  /** The valid payload of the test. */
  lemma ValidPayloadAccepted()
    ensures ValidatePayload(Full("Johnson", "john@example.com", "Janet", "jane@example.com",
                                 "Hello {name}!", map["name" := "Janet"])) == Pass
  {
    NameExamples();
    JohnAccepted();
    JaneAccepted();
    HelloMatchingAccepted();
  }

  lemma InvalidSenderNameRejected()
    ensures ValidatePayload(Full("J", "john@example.com", "Janet", "jane@example.com",
                                 "Hello {name}!", map["name" := "Janet"])) == Fail(SenderNameLength)
  {
  }

  lemma InvalidReceiverNameRejected()
    ensures ValidatePayload(Full("Johnson", "john@example.com", "J", "jane@example.com",
                                 "Hello {name}!", map["name" := "Jane"])) == Fail(ReceiverNameLength)
  {
  }

  /**
   The last three cases of the test are meant to exercise the sender address,
   the receiver address and the replacements, but their four-letter names
   "John" and "Jane" already fail the name rule, so none of them reaches the
   validator it is named after.
   */
  lemma LabelledCasesFailAtNames()
    ensures ValidatePayload(Full("John", "john", "Jane", "jane@example.com",
                                 "Hello {name}!", map["name" := "Jane"])) == Fail(SenderNameLength)
    ensures ValidatePayload(Full("John", "john@example.com", "Jane", "jane",
                                 "Hello {name}!", map["name" := "Jane"])) == Fail(SenderNameLength)
    ensures ValidatePayload(Full("John", "john@example.com", "Jane", "jane@example.com",
                                 "Hello {name}!", map["age" := "30"])) == Fail(SenderNameLength)
  {
  }

  /** The same three cases with names of valid length fail at the stage each is named after. */
  lemma LabelledCasesWithValidNames()
    ensures ValidatePayload(Full("Johnny", "john", "Janet", "jane@example.com",
                                 "Hello {name}!", map["name" := "Jane"])) == Fail(NotSingleAt)
    ensures ValidatePayload(Full("Johnny", "john@example.com", "Janet", "jane",
                                 "Hello {name}!", map["name" := "Jane"])) == Fail(NotSingleAt)
    ensures ValidatePayload(Full("Johnny", "john@example.com", "Janet", "jane@example.com",
                                 "Hello {name}!", map["age" := "30"])) == Fail(MissingReplacement)
  {
    NameExamples();
    NoAtRejected();
    JohnAccepted();
    JaneAccepted();
    HelloWrongKeyRejected();
  }

  /** An empty payload: every field takes its default and the empty sender name is reported. */
  lemma EmptyPayloadRejected()
    ensures ValidatePayload(Payload(None, None, None, None, None, None)) == Fail(SenderNameLength)
  {
  }
}
