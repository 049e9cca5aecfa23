/**
 The shared vocabulary of the payload validator: one error per distinct
 `ValueError` raised by the source, the pass/fail outcome every validator
 returns in place of raising, and an optional value for absent payload fields.
 */
module Validation {

  /** One variant per distinct error message of the validator. */
  datatype ValidationError =
    // name validator
    | SenderNameLength
    | ReceiverNameLength
    // address validator, in the order its rules are checked
    | AddressTooLong
    | NotSingleAt
    | UsernameTooLong
    | DomainTooLong
    | InvalidCharacters
    | InvalidTld
    | UsernameEdge
    | MisplacedDot
    // placeholder / replacement validator
    | MissingReplacement
    | EmptyReplacementValue
    | SurplusReplacementKey
  {
    predicate IsNameError() {
      SenderNameLength? || ReceiverNameLength?
    }

    predicate IsAddressError() {
      AddressTooLong? || NotSingleAt? || UsernameTooLong? || DomainTooLong? ||
      InvalidCharacters? || InvalidTld? || UsernameEdge? || MisplacedDot?
    }

    predicate IsReplacementError() {
      MissingReplacement? || EmptyReplacementValue? || SurplusReplacementKey?
    }

    /** The text the validator attaches to the error. */
    function Message(): string {
      match this
      case SenderNameLength => "Invalid sender name: should be between 5 and 30 characters long"
      case ReceiverNameLength => "Invalid receiver name: should be between 5 and 60 characters long"
      case AddressTooLong => "Invalid email address: total length should be no longer than 254 bytes"
      case NotSingleAt => "Invalid email address: must contain a single '@' character"
      case UsernameTooLong => "Invalid email address: username part should be no longer than 64 bytes"
      case DomainTooLong => "Invalid email address: domain part should be no longer than 251 bytes"
      case InvalidCharacters => "Invalid email address: contains invalid characters"
      case InvalidTld => "Invalid email address: domain must end in '.com', '.net', or '.org'"
      case UsernameEdge => "Invalid email address: hyphens or dots cannot be first or last characters of username"
      case MisplacedDot => "Invalid email address: dots (.) can only appear in TLD part of the domain"
      case MissingReplacement => "Invalid replacements: some replacement keys are not present in the HTML"
      case EmptyReplacementValue => "Invalid replacements: all replacement values must be non-empty"
      case SurplusReplacementKey => "Invalid replacements: surplus replacement keys not used in the HTML"
    }
  }

  /** What a validator returns: it either passes silently or fails with one error. */
  datatype Outcome = Pass | Fail(error: ValidationError)

  /** A payload field that may be absent. */
  datatype Option<+T> = None | Some(value: T) {
    function GetOr(default: T): T {
      match this
      case Some(v) => v
      case None => default
    }
  }
}
