/**
 The payload validator: it reads the six fields, giving an absent text field
 the empty string and absent replacements the empty map, and runs the name,
 sender address, receiver address and placeholder validators in that order,
 stopping at the first failure.
 */
module Payload {
  import opened Validation
  import opened Text
  import opened Names
  import opened Address
  import opened Placeholders

  /** The payload dictionary: each field is present or absent. */
  datatype Payload = Payload(
    senderName: Option<string>,
    receiverName: Option<string>,
    senderAddr: Option<string>,
    receiverAddr: Option<string>,
    html: Option<string>,
    replacements: Option<map<string, string>>)
  {
    function SenderName(): string { senderName.GetOr("") }
    function ReceiverName(): string { receiverName.GetOr("") }
    function SenderAddr(): string { senderAddr.GetOr("") }
    function ReceiverAddr(): string { receiverAddr.GetOr("") }
    function Html(): string { html.GetOr("") }
    function Replacements(): map<string, string> { replacements.GetOr(map[]) }
  }

  function ValidatePayload(p: Payload): (r: Outcome)
    // the first failing stage decides the error, in the order names, sender, receiver, HTML
    ensures ValidateNames(p.SenderName(), p.ReceiverName()).Fail? ==>
              r == ValidateNames(p.SenderName(), p.ReceiverName())
    ensures ValidateNames(p.SenderName(), p.ReceiverName()) == Pass && ValidateAddress(p.SenderAddr()).Fail? ==>
              r == ValidateAddress(p.SenderAddr())
    ensures && ValidateNames(p.SenderName(), p.ReceiverName()) == Pass
            && ValidateAddress(p.SenderAddr()) == Pass
            && ValidateAddress(p.ReceiverAddr()).Fail? ==>
              r == ValidateAddress(p.ReceiverAddr())
    ensures && ValidateNames(p.SenderName(), p.ReceiverName()) == Pass
            && ValidateAddress(p.SenderAddr()) == Pass
            && ValidateAddress(p.ReceiverAddr()) == Pass ==>
              r == ValidateReplacements(p.Html(), p.Replacements())
    // a placeholder error is only reported once the three earlier stages have passed
    ensures r.Fail? && r.error.IsReplacementError() ==>
              && ValidateNames(p.SenderName(), p.ReceiverName()) == Pass
              && ValidateAddress(p.SenderAddr()) == Pass
              && ValidateAddress(p.ReceiverAddr()) == Pass
  {
    var names := ValidateNames(p.SenderName(), p.ReceiverName());
    if names.Fail? then names
    else
      var sender := ValidateAddress(p.SenderAddr());
      if sender.Fail? then sender
      else
        var receiver := ValidateAddress(p.ReceiverAddr());
        if receiver.Fail? then receiver
        else ValidateReplacements(p.Html(), p.Replacements())
  }

  /** Every rule of every field, stated without regard to the order of the checks. */
  predicate PayloadAcceptable(p: Payload) {
    && NamesAcceptable(p.SenderName(), p.ReceiverName())
    && AddressAcceptable(Strip(p.SenderAddr()))
    && AddressAcceptable(Strip(p.ReceiverAddr()))
    && ReplacementsAcceptable(p.Html(), p.Replacements())
  }

  /** A payload is accepted exactly when all four validators would accept their fields. */
  lemma PayloadAcceptedIff(p: Payload)
    ensures ValidatePayload(p) == Pass <==> PayloadAcceptable(p)
  {
    RuleOrder(p.SenderAddr());
    RuleOrder(p.ReceiverAddr());
    ReplacementsAcceptedIff(p.Html(), p.Replacements());
  }

  /**
   Fail-fast ordering, stated against the order-free rules: a bad name is
   reported before any address problem, and an address problem before any
   placeholder problem, whatever the later fields hold.
   */
  lemma StageOrder(p: Payload)
    ensures !NamesAcceptable(p.SenderName(), p.ReceiverName()) ==>
              ValidatePayload(p).Fail? && ValidatePayload(p).error.IsNameError()
    ensures NamesAcceptable(p.SenderName(), p.ReceiverName()) && !AddressAcceptable(Strip(p.SenderAddr())) ==>
              ValidatePayload(p) == ValidateAddress(p.SenderAddr()) && ValidatePayload(p).Fail? && ValidatePayload(p).error.IsAddressError()
    ensures && NamesAcceptable(p.SenderName(), p.ReceiverName())
            && AddressAcceptable(Strip(p.SenderAddr()))
            && !AddressAcceptable(Strip(p.ReceiverAddr())) ==>
              ValidatePayload(p) == ValidateAddress(p.ReceiverAddr()) && ValidatePayload(p).Fail? && ValidatePayload(p).error.IsAddressError()
  {
    RuleOrder(p.SenderAddr());
    RuleOrder(p.ReceiverAddr());
  }

  /** Once names and both addresses meet their rules, the placeholder validator decides. */
  lemma PlaceholderStageDecides(p: Payload)
    requires NamesAcceptable(p.SenderName(), p.ReceiverName())
    requires AddressAcceptable(Strip(p.SenderAddr())) && AddressAcceptable(Strip(p.ReceiverAddr()))
    ensures ValidatePayload(p) == ValidateReplacements(p.Html(), p.Replacements())
  {
    RuleOrder(p.SenderAddr());
    RuleOrder(p.ReceiverAddr());
  }
}
