/** Configured names and limits, and their validation (src/config.rs). */
module Configuration {
  import opened Wrappers
  import opened Text
  import opened Names
  import opened Encoder
  import WireCapacity
  import Xip

  const ACME_LABEL := "_acme-challenge"
  const ADMIN_LABEL := WireCapacity.ADMIN_LABEL

  datatype ConfigError =
    | EmptyName
    | InvalidName(name: string)
    | SameNameservers
    | OutsideZone(nameserver: string)
    | TokenLimitTooHigh(maximum: nat)

  /** Reads a configured DNS name: trailing dots are dropped and letters are folded. */
  function ParseDnsName(raw: string): Result<string, ConfigError> {
    var normalized := Canonical(raw);
    if normalized == "" || normalized == "." then Err(EmptyName)
    else if FromAscii(normalized).None? then Err(InvalidName(normalized))
    else Ok(normalized)
  }

  /** The form of an accepted name; see `NormalIff`. */
  predicate NormalName(name: string) {
    IsLower(name) && LegalText(name)
  }

  datatype Config = Config(
    domain: string,
    nsHostname: string,
    nsHostname2: string,
    nsIp: Xip.Ipv4,
    txtTtl: nat,
    defaultTtl: nat,
    tokenLifetime: nat,
    maxTokens: nat)
  {
    function AcmeName(): string {
      ACME_LABEL + "." + domain
    }

    function AdminName(): string {
      ADMIN_LABEL + "." + domain
    }

    /** The three configured names are results of `ParseDnsName`. */
    predicate Parsed() {
      && NormalName(domain)
      && NormalName(nsHostname)
      && NormalName(nsHostname2)
    }

    predicate InZone(name: string) {
      name == domain || EndsWith(name, "." + domain)
    }

    function Zone(): Name {
      Split(domain, '.')
    }

    /** The wire capacity of this configuration; `mode` is how the encoder matches names. */
    function Capacity(mode: Compression): WireCapacity.Capacity {
      WireCapacity.Capacity(Split(AcmeName(), '.'), Zone(), Split(nsHostname, '.'), txtTtl, mode)
    }

    predicate NamesAccepted() {
      && nsHostname != nsHostname2
      && InZone(nsHostname)
      && InZone(nsHostname2)
      && LegalText(AcmeName())
      && LegalText(AdminName())
    }

    /** What a configuration has to satisfy to be served. */
    predicate Accepted(mode: Compression) {
      NamesAccepted() && Capacity(mode).FitsCount(maxTokens)
    }

    method ValidateNames() returns (r: Result<(), ConfigError>)
      ensures r.Ok? <==> NamesAccepted()
      ensures r == Err(SameNameservers) <==> nsHostname == nsHostname2
      ensures r.Err? && r.error.OutsideZone? ==>
                r.error.nameserver in {nsHostname, nsHostname2} && !InZone(r.error.nameserver)
      ensures nsHostname != nsHostname2 && !(InZone(nsHostname) && InZone(nsHostname2)) ==>
                r.Err? && r.error.OutsideZone?
      ensures r.Err? && r.error.InvalidName? ==>
                r.error.name in {AcmeName(), AdminName()} && !LegalText(r.error.name)
      ensures r.Err? ==> !r.error.TokenLimitTooHigh?
    {
      if nsHostname == nsHostname2 {
        return Err(SameNameservers);
      }
      var nameservers := [nsHostname, nsHostname2];
      for i := 0 to 2
        invariant i > 0 ==> InZone(nsHostname)
        invariant i > 1 ==> InZone(nsHostname2)
      {
        var ns := nameservers[i];
        if ns != domain && !EndsWith(ns, "." + domain) {
          return Err(OutsideZone(ns));
        }
      }
      var derived := [AcmeName(), AdminName()];
      for i := 0 to 2
        invariant i > 0 ==> LegalText(AcmeName())
        invariant i > 1 ==> LegalText(AdminName())
      {
        var name := derived[i];
        if FromAscii(name).None? {
          return Err(InvalidName(name));
        }
      }
      return Ok(());
    }

    /** Accepts exactly the configurations whose token limit is a count that fits; a limit that is
        too high is answered with the greatest count that does. */
    method Validate(mode: Compression) returns (r: Result<(), ConfigError>)
      requires Parsed()
      ensures r.Ok? <==> Accepted(mode)
      ensures r == Err(SameNameservers) <==> nsHostname == nsHostname2
      ensures r.Err? && r.error.OutsideZone? ==>
                r.error.nameserver in {nsHostname, nsHostname2} && !InZone(r.error.nameserver)
      ensures nsHostname != nsHostname2 && !(InZone(nsHostname) && InZone(nsHostname2)) ==>
                r.Err? && r.error.OutsideZone?
      ensures r.Err? && r.error.InvalidName? ==>
                r.error.name in {AcmeName(), AdminName()} && !LegalText(r.error.name)
      ensures r.Err? && r.error.TokenLimitTooHigh? ==>
                && r.error.maximum < maxTokens
                && forall count: nat :: Capacity(mode).FitsCount(count) <==> count <= r.error.maximum
    {
      r := ValidateNames();
      if r.Ok? {
        CapacityIsValid(this, mode);
        var capacity := Capacity(mode);
        var wireMax := capacity.MaximumTokenCount();
        WireCapacity.MaximumIsGlobal(capacity, wireMax);
        if maxTokens > wireMax {
          return Err(TokenLimitTooHigh(wireMax));
        }
      }
    }
  }

  lemma {:induction false} EmptyLastPart(text: string)
    requires text == "" || text[|text| - 1] == '.'
    ensures "" in Split(text, '.')
  {
    if text == "" {
      assert Split(text, '.')[0] == "";
    } else {
      var front := text[..|text| - 1];
      assert text == front + "." + "";
      SplitConcat(front, "", '.');
      assert (Split(front, '.') + [""])[|Split(front, '.')|] == "";
    }
  }

  /** A legal text is not empty and has no trailing dot. */
  lemma {:induction false} LegalTextEnds(text: string)
    requires LegalText(text)
    ensures text != "" && text[|text| - 1] != '.'
    ensures TrimEnd(text, '.') == text
  {
    if text == "" || text[|text| - 1] == '.' {
      EmptyLastPart(text);
    }
  }

  lemma {:induction false} NormalIsCanonical(name: string)
    requires NormalName(name)
    ensures Canonical(name) == name && Lower(name) == name && name != "" && name[|name| - 1] != '.'
  {
    LowerIff(name);
    LegalTextEnds(name);
  }

  /** What parsing a name results in, and that it is accepted again as itself. */
  lemma {:induction false} ParsedNamesAreNormal(raw: string, name: string)
    requires ParseDnsName(raw) == Ok(name)
    ensures NormalName(name) && Canonical(name) == name
  {
    LowerTwice(TrimEnd(raw, '.'));
    LowerIff(name);
    NormalIsCanonical(name);
  }

  /** Parsing accepts a raw name iff it spells, in some letter case and with any number of dots
      behind, a legal text, and results in that text. */
  lemma {:induction false} ParsedIff(raw: string, name: string)
    ensures ParseDnsName(raw) == Ok(name) <==> LegalText(name) && exists n: nat :: SpelledUpTo(raw, n, name)
  {
    TrimmedIsSpelled(raw);
    if n: nat :| LegalText(name) && SpelledUpTo(raw, n, name) {
      LegalTextEnds(name);
      SpelledIsTrimmed(raw, n, name);
    }
  }

  /** The normal names are exactly the results of parsing. */
  lemma {:induction false} NormalIff(name: string)
    ensures NormalName(name) <==> ParseDnsName(name) == Ok(name)
    ensures NormalName(name) <==> exists raw :: ParseDnsName(raw) == Ok(name)
  {
    if NormalName(name) {
      NormalIsCanonical(name);
    }
    if raw :| ParseDnsName(raw) == Ok(name) {
      ParsedNamesAreNormal(raw, name);
    }
  }

  lemma {:induction false} PrefixedName(first: string, rest: string)
    requires '.' !in first
    ensures Split(first + "." + rest, '.') == [first] + Split(rest, '.')
  {
    SplitConcat(first, rest, '.');
    SplitPlain(first, '.');
  }

  lemma {:induction false} LegalSuffix(first: string, rest: Name)
    requires LegalName([first] + rest)
    ensures LegalName(rest)
  {
    assert ([first] + rest)[1..] == rest;
    assert forall l | l in rest :: l in [first] + rest;
  }

  lemma {:induction false} DotFreeLabels()
    ensures '.' !in ACME_LABEL && '.' !in ADMIN_LABEL
  {
  }

  /** Accepted names give a capacity whose names are legal. */
  lemma {:induction false} CapacityIsValid(config: Config, mode: Compression)
    requires config.Parsed() && LegalText(config.AcmeName()) && LegalText(config.AdminName())
    ensures config.Capacity(mode).Valid()
    ensures config.Capacity(mode).acmeName == [ACME_LABEL] + config.Zone()
  {
    DotFreeLabels();
    PrefixedName(ACME_LABEL, config.domain);
    PrefixedName(ADMIN_LABEL, config.domain);
    LegalSuffix(ACME_LABEL, config.Zone());
  }

  lemma {:induction false} NameserversAreInZone(config: Config, name: string)
    requires config.InZone(name)
    ensures Xip.IsOurDomain(name, config.domain)
  {
    if name != config.domain {
      var front := name[..|name| - |"." + config.domain|];
      assert name == front + ("." + config.domain);
      LowerConcat(front, "." + config.domain);
      LowerConcat(".", config.domain);
      assert Lower(".") == ".";
      var folded := Lower(front) + ("." + Lower(config.domain));
      assert folded[|folded| - |"." + Lower(config.domain)|..] == "." + Lower(config.domain);
    }
  }

  // ---- Configurations that are accepted --------------------------------------------------

  predicate PlainLabel(first: string) {
    && 1 <= |first| <= 63 && '.' !in first && Lower(first) == first
    && forall i | 0 <= i < |first| :: IsNameChar(first[i])
  }

  lemma {:induction false} LabelBelow(first: string, zone: string)
    requires PlainLabel(first) && NormalName(zone) && WireLength(Split(zone, '.')) + 1 + |first| <= 255
    ensures NormalName(first + "." + zone)
  {
    PrefixedName(first, zone);
    assert ([first] + Split(zone, '.'))[1..] == Split(zone, '.');
    LowerConcat(first, ".");
    LowerConcat(first + ".", zone);
    assert Lower(".") == ".";
  }

  lemma {:induction false} OwnLabelsArePlain()
    ensures PlainLabel(ACME_LABEL) && PlainLabel(ADMIN_LABEL) && |ACME_LABEL| == 15 && |ADMIN_LABEL| == 5
  {
  }

  lemma {:induction false} BelowIsInZone(config: Config, first: string)
    ensures config.InZone(first + "." + config.domain)
  {
    var name := first + "." + config.domain;
    assert name[|first|..] == "." + config.domain;
  }

  lemma {:induction false} OrdinaryNames(config: Config, first1: string, first2: string)
    requires NormalName(config.domain) && WireLength(config.Zone()) <= 191
    requires PlainLabel(first1) && PlainLabel(first2) && first1 != first2
    requires config.nsHostname == first1 + "." + config.domain && config.nsHostname2 == first2 + "." + config.domain
    ensures config.Parsed() && config.NamesAccepted()
  {
    OwnLabelsArePlain();
    LabelBelow(first1, config.domain);
    LabelBelow(first2, config.domain);
    LabelBelow(ACME_LABEL, config.domain);
    LabelBelow(ADMIN_LABEL, config.domain);
    BelowIsInZone(config, first1);
    BelowIsInZone(config, first2);
    PrefixedName(first1, config.domain);
    PrefixedName(first2, config.domain);
    assert Split(config.nsHostname, '.')[0] == first1 && Split(config.nsHostname2, '.')[0] == first2;
  }

  /** Two different labels in front of a zone that leaves room for them make an accepted
      configuration, with any token limit up to 4604 and whatever the encoder does about case. */
  lemma {:induction false} OrdinaryConfigIsAccepted(config: Config, mode: Compression, first1: string, first2: string)
    requires NormalName(config.domain) && WireLength(config.Zone()) <= 191 && config.maxTokens <= 4604
    requires PlainLabel(first1) && PlainLabel(first2) && first1 != first2
    requires config.nsHostname == first1 + "." + config.domain && config.nsHostname2 == first2 + "." + config.domain
    ensures config.Parsed() && config.Accepted(mode)
  {
    OrdinaryNames(config, first1, first2);
    CapacityIsValid(config, mode);
    WireCapacity.OverheadBound(config.Capacity(mode));
    WireCapacity.FitsCountIff(config.Capacity(mode), config.maxTokens);
  }
}
