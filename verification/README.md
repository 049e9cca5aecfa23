# Email payload validator

A Dafny model of the validator behind an email-sending API (`main.py`). Before a
message is sent, its JSON payload goes through four checks:

- **names**: the sender's and receiver's display names are trimmed. The sender
  name must then have 5 to 30 characters and the receiver name 5 to 60.
- **addresses**: the sender's and receiver's addresses are trimmed. Each must
  then pass eight rules, checked in order:
  - total length;
  - exactly one `@`;
  - username length;
  - domain length;
  - character set;
  - a `.com`/`.net`/`.org` suffix;
  - no `-` or `.` at either end of the username;
  - no dot in the domain except the suffix's.
- **placeholders**: the `{identifier}` placeholders of the HTML body must match
  the keys of the replacement map exactly, and no replacement value may be empty.
- **payload**: absent fields default to the empty string, or to the empty map
  for replacements. The four checks above run in order, and the first failure
  is reported.

Each validator is a pure function that returns an `Outcome`: `Pass`, or
`Fail(e)` where `e` is one `ValidationError` variant. There is one variant per
distinct error message of the source (`ValidationError.Message` gives the text).

Each validator is paired with an order-free statement of what it accepts:

- `NamesAcceptable`;
- `AddressAcceptable`, built from the eight numbered rules of `RulesBefore`;
- `ReplacementsAcceptable`;
- `PayloadAcceptable`.

Each pairing has an if-and-only-if lemma, and separate lemmas pin down which
error each input receives.

The placeholder scan is modelled as a left-to-right scanner over the string,
which skips past every match. It is proved to find exactly the identifiers
whose `{k}` token occurs anywhere in the HTML.

Modules:

- `Validation`: errors, outcomes and optional fields.
- `Text`: strip, count, first index, split and join on `seq<char>`.
- `Names`, `Address`, `Placeholders`, `Payload`: the four validators.
- `Examples`: the repository's test payloads and further literal cases, as
  verified facts.

## Model

| member | source | states |
|---|---|---|
| Names.ValidateNames | main.py:5-15 | Passes exactly when the trimmed sender name has 5..30 characters and the trimmed receiver name 5..60. The sender error is reported exactly when the trimmed sender name is out of range, whatever the receiver name is. The receiver error is reported exactly when the sender name is in range and the receiver name is not. Every failure is a name error. |
| Names.NamesIgnorePadding | main.py:7-8 | Whitespace added before or after either name never changes the verdict. |
| Text.Strip | main.py:19 | Stripping never lengthens a string, and a non-empty result neither starts nor ends with whitespace. `Text.StripMeaning` characterises it fully. |
| Text.StripIgnoresPadding | main.py:7-8 | Stripping a string surrounded by any whitespace gives the same result as stripping the string alone. |
| Text.StripIdempotent | main.py:19 | Stripping twice is the same as stripping once. |
| Text.StripMeaning | main.py:19 | `r` is the stripped form of `s` exactly when `r` is a slice of `s` with only whitespace outside it and no whitespace at either end of it. |
| Text.JoinSplit | main.py:27 | Joining the pieces of `split` with the separator gives back the original string. |
| Text.SplitJoin | main.py:27 | Splitting a join of separator-free pieces gives back the pieces. |
| Text.Count | main.py:54 | The count of a character is at most the length, and it is zero exactly when the character does not occur. `Text.CountAppend` shows it adds up over concatenation. |
| Text.CountAppend | main.py:54 | The count of a character in `a + b` is its count in `a` plus its count in `b`. |
| Text.FirstIndex | main.py:27 | The position of the first occurrence: no occurrence before it, the character itself at it, and the length exactly when the character does not occur. |
| Text.Split | main.py:27 | `split` yields one more piece than there are separators. No piece contains the separator. The first piece is the text before the first separator. |
| Address.SplitAtSingleAt | main.py:26-29 | With exactly one `@`, the two-value unpacking succeeds: the parts are the text before the `@` and the text after it. |
| Address.ValidateAddress | main.py:17-29 | The length error is reported exactly when the stripped address exceeds 254 characters. Within that length, the single-`@` error is reported exactly when the count of `@` is not 1, so zero and several are both refused. Every failure is an address error. |
| Address.ValidateParts | main.py:31-55 | The six checks that follow the split. Each failure is an address error other than the length and single-`@` errors. `Address.PartsRuleOrder` states which error each input receives. |
| Address.PartsRuleOrder | main.py:31-55 | The six rules after the split: each error is reported exactly when the rules before it hold and it is broken. Pass means all six hold. |
| Address.RuleOrder | main.py:17-55 | For each of the eight rules, its error is reported exactly when every earlier rule holds and it is broken. The address passes exactly when its stripped form meets all eight: at most 254 characters; one `@`; username at most 64 and domain at most 251; only letters, digits, `@`, `-`, `.`; an accepted suffix; clean username ends; no dot before the suffix. |
| Address.DotsWithValidTld | main.py:54 | Given an accepted suffix, the domain has at least one dot, and "at most one dot" means "no dot before the suffix". So the second disjunct of the dot rule can never fire. |
| Address.AcceptedDomainHasOneDot | main.py:44-55 | The domain of every accepted address contains exactly one dot, and it is the one four characters from the end. |
| Address.AddressIgnoresPadding | main.py:19 | Whitespace added before or after an address never changes the verdict. |
| Placeholders.MatchAt | main.py:58 | A match anchored at a position yields a non-empty word-character identifier whose `{k}` token starts there. `Placeholders.MatchAtToken` gives the converse. |
| Placeholders.MatchAtToken | main.py:58 | A `{k}` token with a word-character identifier at a position is the match found there, because the greedy word run stops exactly at the closing brace. |
| Placeholders.FindAll | main.py:58 | The scan reports only non-empty word-character identifiers. `Placeholders.FindAllSound` and `Placeholders.FindAllComplete` characterise what it finds. |
| Placeholders.PlaceholderKeys | main.py:58 | The set of extracted identifiers holds only non-empty word-character strings. `Placeholders.PlaceholderKeysIff` gives exactly which. |
| Placeholders.FindAllSound | main.py:58 | Every identifier the scan reports has its `{k}` token in the HTML at or after the scan position. |
| Placeholders.FindAllComplete | main.py:58 | Every `{k}` token with a word-character identifier, at or after the scan position, is reported by the non-overlapping scan. |
| Placeholders.MatchHasNoInnerBrace | main.py:58 | A match contains no `{` after its first character, which is why skipping past a match loses no token. |
| Placeholders.PlaceholderKeysIff | main.py:58 | `k` is an extracted placeholder exactly when it is a non-empty run of word characters and `{k}` occurs in the HTML. |
| Placeholders.ValidateReplacements | main.py:56-69 | Every failure is a replacement error. `Placeholders.ReplacementErrorPriority` states which error each input receives, and `Placeholders.ReplacementsAcceptedIff` when it passes. |
| Placeholders.ReplacementsAcceptedIff | main.py:56-69 | The replacements pass exactly when the replacement key set equals the placeholder set and no value is empty. |
| Placeholders.ReplacementErrorPriority | main.py:60-69 | The missing error is reported exactly when some placeholder has no replacement. The empty error is reported exactly when every placeholder has one and some value is empty. The surplus error is reported exactly when the placeholders are a strict subset of the keys and every value is non-empty. |
| Payload.ValidatePayload | main.py:71-81 | The stages run in order, and the first failure is the result. A name failure is the result. With good names, a sender-address failure is the result. With good names and sender, a receiver-address failure is the result. Once all three pass, the result is the placeholder validator's verdict. A placeholder error is only ever reported after the three earlier stages pass. |
| Payload.PayloadAcceptedIff | main.py:71-81 | A payload is accepted exactly when its names, both stripped addresses and its placeholders meet their order-free rules, with absent fields defaulted. |
| Payload.StageOrder | main.py:76-78 | Unacceptable names always give a name error. Given good names, an unacceptable sender gives the sender's address error. Given good names and sender, an unacceptable receiver gives the receiver's address error. |
| Payload.PlaceholderStageDecides | main.py:79-81 | Given acceptable names and acceptable sender and receiver addresses, the payload's verdict is the placeholder validator's verdict. |
| Examples.NoAtRejected | main.py:127 | `"john"` and `"jane"` are refused with the single-`@` error. |
| Examples.JohnAccepted | main.py:92 | `john@example.com` is accepted. |
| Examples.JaneAccepted | main.py:94 | `jane@example.com` is accepted. |
| Examples.SubdomainRejected | main.py:53-55 | `john@x.example.com` is refused with the dot error. |
| Examples.BadCharRejected | main.py:39-41 | `jo!hn@example.com` is refused with the character error. |
| Examples.BadTldRejected | main.py:43-46 | `john@example.co` is refused with the suffix error. |
| Examples.LeadingHyphenRejected | main.py:48-51 | `-john@example.com` is refused with the username-edge error. |
| Examples.EmptyUsernameAccepted | main.py:31-55 | `@example.com` is accepted, because no rule requires a non-empty username. |
| Examples.BareTldAccepted | main.py:43-55 | `john@.com` is accepted, because no rule requires a label before the suffix. |
| Examples.PaddedJohnAccepted | main.py:19 | `"  john@example.com\t"` is accepted. |
| Examples.SeparatorPaddedJohnAccepted | main.py:19 | `john@example.com` preceded by the unit separator (character 31) is accepted, because `strip` removes it. |
| Examples.HelloPlaceholders | main.py:58 | The placeholders of `"Hello {name}!"` are exactly `{"name"}`. |
| Examples.HelloWrongKeyRejected | main.py:154-155 | `{"age": "30"}` against `"Hello {name}!"` is refused with the missing error, not the surplus one. |
| Examples.HelloEmptyValueRejected | main.py:63-65 | An empty value for `name` is refused with the empty error. |
| Examples.HelloSurplusKeyRejected | main.py:67-69 | An extra key `age` beside `name` is refused with the surplus error. |
| Examples.NameExamples | main.py:10-15 | The names of the test cases: `Johnson`/`Janet` pass, `J` fails on either side, `John` fails as sender. |
| Examples.ValidPayloadAccepted | main.py:88-98 | The test's valid payload is accepted. |
| Examples.InvalidSenderNameRejected | main.py:100-110 | The payload with sender name `J` is refused with the sender-name error. |
| Examples.InvalidReceiverNameRejected | main.py:112-122 | The payload with receiver name `J` is refused with the receiver-name error. |
| Examples.LabelledCasesFailAtNames | main.py:124-158 | The three payloads labelled as address and replacement failures are all refused with the sender-name error. |
| Examples.LabelledCasesWithValidNames | main.py:124-158 | With names of valid length, those three payloads fail where their labels say: single-`@`, single-`@`, then missing replacement. |
| Examples.EmptyPayloadRejected | main.py:71-76 | A payload with every field absent is refused with the sender-name error. |

## Left out

- The test harness is not modelled: `pytest`, the `print` of the test's result, and the unused `import html`.
- Python's Unicode character classes are narrowed to their ASCII part. Whitespace is space, the characters 9 to 13 (tab, LF, VT, FF, CR) and the information separators 28 to 31, as for `str.isspace`. `islower`/`isupper`/`isdigit` are `a-z`/`A-Z`/`0-9`, and `\w` is `[A-Za-z0-9_]`. The source also accepts non-ASCII letters and digits, and also strips non-ASCII spaces such as U+0085, U+00A0 and U+3000. The model does neither, so `Names.NamesIgnorePadding` and `Address.AddressIgnoresPadding` cover only ASCII whitespace padding.
- Raising `ValueError` is modelled as returning `Fail(e)`. The stack and control flow of an exception are not modelled.
- Lengths are counted in characters, which is what `len` does on `str`. The "bytes" wording of the messages is kept only as text.
- Payload values are modelled as strings, and replacements as a string-to-string map. A non-string field and Python truthiness of non-string replacement values are not modelled. The payload dictionary becomes a record of optional fields.
- The message of the first placeholder check (main.py:61) says the keys are "not present in the HTML". The condition it guards is the reverse: HTML placeholders that are missing from the replacements. The model follows the condition.
- Examples: an address with two `@` is covered only by the general lemma `Address.ValidateAddress`, not by a literal example.

## Findings

| source | as written | input that shows it | evidently intended | confidence | as-written member | corrected member |
|---|---|---|---|---|---|---|
| main.py:124-158 | The payloads labelled "Invalid sender address", "Invalid receiver address" and "Invalid HTML and replacements" use the names `John` and `Jane`, which have four characters. | The payload at main.py:125-132 is refused by the sender-name rule before its address `john` is looked at. The same holds for the payloads at main.py:137-144 and main.py:149-156. | Names of valid length, so that each case reaches the validator its label names. | not executed | Examples.LabelledCasesFailAtNames | Examples.LabelledCasesWithValidNames |
