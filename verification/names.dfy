/**
 The name validator: both display names are stripped, then the sender name
 must be 5 to 30 characters long and the receiver name 5 to 60, the sender
 name being checked first.
 */
module Names {
  import opened Validation
  import opened Text

  const MinNameLength := 5
  const MaxSenderNameLength := 30
  const MaxReceiverNameLength := 60

  /** The acceptance rule for the two names, independent of check order. */
  predicate NamesAcceptable(senderName: string, receiverName: string) {
    var s := Strip(senderName);
    var r := Strip(receiverName);
    MinNameLength <= |s| <= MaxSenderNameLength && MinNameLength <= |r| <= MaxReceiverNameLength
  }

  function ValidateNames(senderName: string, receiverName: string): (r: Outcome)
    ensures r == Pass <==> NamesAcceptable(senderName, receiverName)
    ensures r.Fail? ==> r.error.IsNameError()
    // a bad sender name is reported whatever the receiver name is
    ensures r == Fail(SenderNameLength) <==> !(MinNameLength <= |Strip(senderName)| <= MaxSenderNameLength)
    // the receiver name is reported only once the sender name is good
    ensures r == Fail(ReceiverNameLength) <==>
              && MinNameLength <= |Strip(senderName)| <= MaxSenderNameLength
              && !(MinNameLength <= |Strip(receiverName)| <= MaxReceiverNameLength)
  {
    var s := Strip(senderName);
    var t := Strip(receiverName);
    if |s| < MinNameLength || |s| > MaxSenderNameLength then Fail(SenderNameLength)
    else if |t| < MinNameLength || |t| > MaxReceiverNameLength then Fail(ReceiverNameLength)
    else Pass
  }

  /** Whitespace around either name does not change the verdict. */
  lemma NamesIgnorePadding(senderName: string, receiverName: string, a: string, b: string, c: string, d: string)
    requires AllWhitespace(a) && AllWhitespace(b) && AllWhitespace(c) && AllWhitespace(d)
    ensures ValidateNames(a + senderName + b, c + receiverName + d) == ValidateNames(senderName, receiverName)
  {
    StripIgnoresPadding(a, senderName, b);
    StripIgnoresPadding(c, receiverName, d);
  }
}
