/**
 Port-forward specifications: an optional bind address and a port.
 */
module ForwardSpec {
  import opened Text
  import opened Decimal

  const MAX_PORT := 65535
  const DEFAULT_BIND_ADDR := "127.0.0.1"

  datatype Spec = Spec(bindAddr: string, port: nat)

  predicate IsPort(port: nat) {
    1 <= port <= MAX_PORT
  }

  datatype ParseError = PortOutOfRange | Invalid
  datatype Parsed = Ok(spec: Spec) | Err(error: ParseError)

  function WithPort(bindAddr: string, port: nat): Parsed {
    if port == 0 then Err(PortOutOfRange) else Ok(Spec(bindAddr, port))
  }

  /** An address and a port after the last colon, or else a port alone. */
  function ParseSpec(s: string): Parsed {
    var afterColon := if ':' in s then Parse(s[LastIndexOf(s, ':') + 1..], MAX_PORT) else None;
    if afterColon.Some? then WithPort(s[..LastIndexOf(s, ':')], afterColon.value) else
      var port := Parse(s, MAX_PORT);
      if port.None? then Err(Invalid) else WithPort(DEFAULT_BIND_ADDR, port.value)
  }

  function Display(spec: Spec): string {
    if spec.bindAddr == DEFAULT_BIND_ADDR then Print(spec.port) else spec.bindAddr + ":" + Print(spec.port)
  }

  /** Printing a spec and parsing it gives it back: any address, colons included, and any port. */
  lemma ParseOfDisplay(spec: Spec)
    requires IsPort(spec.port)
    ensures ParseSpec(Display(spec)) == Ok(spec)
  {
    var s, digits := Display(spec), Print(spec.port);
    ParseOfPrint(spec.port, MAX_PORT);
    assert ':' !in digits;
    if spec.bindAddr != DEFAULT_BIND_ADDR {
      var at := |spec.bindAddr|;
      assert s[at] == ':' && s[..at] == spec.bindAddr && s[at + 1..] == digits;
      LastIndexOfUnique(s, ':', at);
    }
  }

  /** A port alone stands for the loopback address; otherwise the address and the port are set off by a colon. */
  lemma DisplayIs(spec: Spec)
    ensures Display(spec) == if spec.bindAddr == "127.0.0.1" then Print(spec.port) else spec.bindAddr + ":" + Print(spec.port)
    ensures IsPort(spec.port) ==> ParseSpec(Print(spec.port)) == Ok(Spec("127.0.0.1", spec.port))
    ensures IsPort(spec.port) <==> 1 <= spec.port <= 65535
  {
    ParseOfPrint(0, MAX_PORT);
    assert ':' !in Print(spec.port);
    if IsPort(spec.port) {
      ParseOfPrint(spec.port, MAX_PORT);
    }
  }

  /** Whatever parses has a port in range, and its printed form is a fixed point. */
  lemma DisplayIsNormalForm(s: string)
    requires ParseSpec(s).Ok?
    ensures IsPort(ParseSpec(s).spec.port)
    ensures ParseSpec(Display(ParseSpec(s).spec)) == ParseSpec(s)
  {
    ParseOfDisplay(ParseSpec(s).spec);
  }

  /** A colon without a port after it is never rescued: such a text has no reading at all. */
  lemma ColonNeedsPort(s: string)
    requires ':' in s
    ensures ParseSpec(s).Ok? <==>
              var port := Parse(s[LastIndexOf(s, ':') + 1..], MAX_PORT); port.Some? && port.value > 0
    ensures ParseSpec(s).Ok? ==> ParseSpec(s).spec.bindAddr == s[..LastIndexOf(s, ':')]
  {
    ParseRejects(s, MAX_PORT, ':');
  }
}
