/** How the program puts its parts together (src/main.rs:41-73). */
module Startup {
  import opened Wrappers
  import opened Configuration
  import opened Encoder
  import opened Store
  import opened Runs
  import opened RateGate
  import opened AcmeRecordsClass
  import opened ApiStateClass
  import opened DnsHandlerClass
  import opened Service

  /** A configuration that fails validation stops the program. Otherwise the API and the DNS handler
      share one empty store, whose limits are those that the theorems about the service speak of. */
  method Start(config: Config, compression: Compression, serial: Serial, now: real)
    returns (r: Result<(ApiState, DnsHandler), ConfigError>)
    requires config.Parsed()
    ensures r.Ok? <==> config.Accepted(compression)
    ensures r.Ok? ==>
              var (api, dns) := r.value;
              && api.config == dns.config == config && dns.compression == compression
              && api.acme == dns.acme && fresh(api.acme) && fresh(api.gate)
              && api.acme.limits == ServiceLimits(config, compression)
              && api.gate.Limits() == Gate(20.0, RouterBurst(config.maxTokens) as real)
              && api.gate.State() == Bucket(RouterBurst(config.maxTokens) as real, now)
              && api.acme.Valid() && api.acme.State() == Empty(serial) && api.acme.log == [] && api.acme.clock == 0
  {
    var validated := config.Validate(compression);
    if validated.Err? {
      return Err(validated.error);
    }
    ServiceLimitsAreValid(config, compression);
    var acme := new AcmeRecords.WithSerial(ServiceLimits(config, compression), serial);
    var dns := new DnsHandler(config, acme, compression);
    var api := new ApiState(config, acme, now);
    return Ok((api, dns));
  }
}
