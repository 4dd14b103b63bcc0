/** Validation of the requests that change the store (src/api.rs:237-252). */
module Api {
  import opened Wrappers
  import opened Text
  import opened Names
  import opened Configuration

  const MAX_TXT_VALUE_LEN: nat := 255

  datatype ApiError =
    | NotAcmeName
    | EmptyToken
    | TokenTooLong
    | TokensExhausted
    | WireExhausted
    | Unauthorized
    | RateLimited
    | Busy

  /** The name and value of a request, when they may enter the store. */
  function ValidateRequest(config: Config, fqdn: string, value: string): Result<string, ApiError> {
    var name := Canonical(fqdn);
    if name != config.AcmeName() then Err(NotAcmeName)
    else if value == "" then Err(EmptyToken)
    else if |value| > MAX_TXT_VALUE_LEN then Err(TokenTooLong)
    else Ok(name)
  }

  /** The name spells the challenge name in some letter case, with any number of dots behind it, and
      the value has 1 to 255 octets. */
  ghost predicate Acceptable(config: Config, fqdn: string, value: string) {
    SpellsChallenge(config, fqdn) && 1 <= |value| <= 255
  }

  ghost predicate SpellsChallenge(config: Config, fqdn: string) {
    exists n: nat :: SpelledUpTo(fqdn, n, "_acme-challenge." + config.domain)
  }

  lemma {:induction false} AcmeNameIs(config: Config)
    ensures config.AcmeName() == "_acme-challenge." + config.domain
  {
  }

  /** Exactly the acceptable requests are accepted, and act on the folded name; any other is told the
      first fault. */
  lemma {:induction false} ValidatedIff(config: Config, fqdn: string, value: string)
    requires config.Parsed()
    ensures var valid := ValidateRequest(config, fqdn, value);
            && (valid == Ok("_acme-challenge." + config.domain) <==> Acceptable(config, fqdn, value))
            && (valid.Ok? <==> Acceptable(config, fqdn, value))
            && (valid == Err(NotAcmeName) <==> !SpellsChallenge(config, fqdn))
            && (valid == Err(EmptyToken) <==> SpellsChallenge(config, fqdn) && |value| == 0)
            && (valid == Err(TokenTooLong) <==> SpellsChallenge(config, fqdn) && |value| > 255)
  {
    AcmeNameIs(config);
    NormalIsCanonical(config.domain);
    TrimmedIsSpelled(fqdn);
    if n: nat :| SpelledUpTo(fqdn, n, config.AcmeName()) {
      SpelledIsTrimmed(fqdn, n, config.AcmeName());
    }
  }
}
