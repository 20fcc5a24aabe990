/** The `get_near_greeting` command: choose the network's configuration, ask the
    greeting contract for `get_greeting` in a read-only call, and decode the
    returned bytes, first as a `{"greeting": ...}` JSON object, then as raw
    UTF-8 text with its surrounding double quotes stripped.

    The configuration file, the account-id parser, the JSON-RPC transport and
    the JSON object parser are not modelled; each appears as an input: the
    loaded configuration (or the text of its load error), and functions that
    give the outcome of the account-id parse, of the RPC call and of the
    structured parse. */
module NearGreeting {
  import opened Wrappers
  import Utf8

  datatype NetworkConfig = NetworkConfig(rpcUrl: string, contractId: string)

  datatype Config = Config(testnet: NetworkConfig, mainnet: NetworkConfig)

  /** NEAR's block finality levels; the greeting query always asks for `Final`. */
  datatype Finality = Optimistic | DoomSlug | Final

  /** A `query` request of kind `call_function`. */
  datatype ViewRequest = CallFunction(finality: Finality, accountId: string, methodName: string, args: seq<Utf8.byte>)

  /** The kind of a query response; only `CallResult` carries a function's return bytes. */
  datatype QueryResponseKind =
    | CallResult(result: seq<Utf8.byte>)
    | ViewAccount
    | ViewCode
    | ViewState
    | AccessKey
    | AccessKeyList

  /** What one invocation returns, with the RPC requests it sent, in order. */
  datatype Outcome = Outcome(result: Result<string, string>, requests: seq<ViewRequest>)

  const InvalidNetwork := "Invalid network specified"
  const UnexpectedResponse := "Unexpected response type"
  const NotText := "Failed to parse response as string: "

  /** The configuration section for a network name; only the two names NEAR runs are accepted. */
  function SelectNetwork(config: Config, network: string): (r: Result<NetworkConfig, string>)
    ensures r.Ok? <==> network == "mainnet" || network == "testnet"
    ensures r.Ok? ==> r.value == if network == "mainnet" then config.mainnet else config.testnet
    ensures r.Err? ==> r.error == InvalidNetwork
  {
    match network
    case "mainnet" => Ok(config.mainnet)
    case "testnet" => Ok(config.testnet)
    case _ => Err(InvalidNetwork)
  }

  /** The view call sent to the contract: `get_greeting`, the empty JSON object
      as arguments, at final finality. */
  function GreetingRequest(contractId: string): (req: ViewRequest)
    ensures req.accountId == contractId && req.methodName == "get_greeting" && req.finality == Final
    ensures Utf8.Decode(req.args) == Ok("{}")
  {
    var args := Utf8.Encode("{}");
    Utf8.DecodeEncode("{}");
    CallFunction(Final, contractId, "get_greeting", args)
  }

  // ---------------------------------------------------------------------------
  // Quote trimming (Rust's `trim_matches('"')`)

  /** `n` double-quote characters. */
  function Quotes(n: nat): (q: string)
    ensures |q| == n && forall i :: 0 <= i < n ==> q[i] == '"'
  {
    if n == 0 then "" else ['"'] + Quotes(n - 1)
  }

  predicate NoQuoteAtEnds(s: string) {
    s == [] || (s[0] != '"' && s[|s| - 1] != '"')
  }

  /** Drops every leading double quote. */
  function TrimStartQuotes(s: string): (r: string)
    ensures |r| <= |s|
    ensures r == [] || r[0] != '"'
  {
    if |s| > 0 && s[0] == '"' then TrimStartQuotes(s[1..]) else s
  }

  /** Only quotes are dropped, and only at the front. */
  lemma {:induction false} TrimStartDropsQuotes(s: string)
    ensures s == Quotes(|s| - |TrimStartQuotes(s)|) + TrimStartQuotes(s)
  {
    if |s| > 0 && s[0] == '"' {
      TrimStartDropsQuotes(s[1..]);
      var n := |s| - |TrimStartQuotes(s)|;
      assert Quotes(n) == ['"'] + Quotes(n - 1);
      assert s == [s[0]] + s[1..];
    } else {
      assert Quotes(0) + s == s;
    }
  }

  /** Drops every trailing double quote. */
  function TrimEndQuotes(s: string): (r: string)
    ensures |r| <= |s| && r == s[..|r|]
    ensures r == [] || r[|r| - 1] != '"'
  {
    if |s| > 0 && s[|s| - 1] == '"' then TrimEndQuotes(s[..|s| - 1]) else s
  }

  /** Only quotes are dropped, and only at the back. */
  lemma {:induction false} TrimEndDropsQuotes(s: string)
    ensures s == TrimEndQuotes(s) + Quotes(|s| - |TrimEndQuotes(s)|)
  {
    if |s| > 0 && s[|s| - 1] == '"' {
      var init := s[..|s| - 1];
      TrimEndDropsQuotes(init);
      var r := TrimEndQuotes(s);
      var n := |s| - |r|;
      assert Quotes(n) == Quotes(n - 1) + ['"'] by {
        assert forall i :: 0 <= i < n ==> Quotes(n)[i] == (Quotes(n - 1) + ['"'])[i];
      }
      assert s == init + [s[|s| - 1]];
    } else {
      assert s + Quotes(0) == s;
    }
  }

  /** `trim_matches('"')`: the text with every leading and trailing double quote removed. */
  function TrimQuotes(s: string): (r: string)
    ensures NoQuoteAtEnds(r)
    ensures |r| <= |s|
  {
    TrimEndQuotes(TrimStartQuotes(s))
  }

  /** Trimming removes quotes only: the input is the result with a run of
      quotes before it and a run after it, so the result is a contiguous
      piece of the input. */
  lemma TrimQuotesDecomposes(s: string)
    ensures exists lead: nat, trail: nat :: s == Quotes(lead) + TrimQuotes(s) + Quotes(trail)
  {
    var t := TrimStartQuotes(s);
    var r := TrimQuotes(s);
    var lead, trail := |s| - |t|, |t| - |r|;
    TrimStartDropsQuotes(s);
    TrimEndDropsQuotes(t);
    assert s == Quotes(lead) + r + Quotes(trail);
  }

  lemma {:induction false} TrimStartSkipsQuotes(n: nat, u: string)
    ensures TrimStartQuotes(Quotes(n) + u) == TrimStartQuotes(u)
  {
    if n > 0 {
      var s := Quotes(n) + u;
      assert s[0] == '"';
      assert s[1..] == Quotes(n - 1) + u;
      TrimStartSkipsQuotes(n - 1, u);
    } else {
      assert Quotes(n) + u == u;
    }
  }

  lemma {:induction false} TrimEndSkipsQuotes(u: string, n: nat)
    ensures TrimEndQuotes(u + Quotes(n)) == TrimEndQuotes(u)
  {
    if n > 0 {
      var s := u + Quotes(n);
      assert s[|s| - 1] == '"';
      assert s[..|s| - 1] == u + Quotes(n - 1);
      TrimEndSkipsQuotes(u, n - 1);
    } else {
      assert u + Quotes(n) == u;
    }
  }

  /** A run of quotes alone trims to nothing. */
  lemma TrimQuotesOfQuotes(lead: nat, trail: nat)
    ensures TrimQuotes(Quotes(lead) + Quotes(trail)) == []
  {
    TrimStartSkipsQuotes(lead, Quotes(trail));
    assert Quotes(trail) == Quotes(trail) + [];
    TrimStartSkipsQuotes(trail, []);
  }

  /** Leading quotes go, and a text that starts with something else is kept from there on. */
  lemma TrimStartBeforeText(lead: nat, rest: string)
    requires rest != [] && rest[0] != '"'
    ensures TrimStartQuotes(Quotes(lead) + rest) == rest
  {
    TrimStartSkipsQuotes(lead, rest);
  }

  /** The decomposition is unique: whatever runs of quotes surround a text with
      no quote at either end, trimming recovers exactly that text. */
  lemma TrimQuotesUnique(lead: nat, t: string, trail: nat)
    requires NoQuoteAtEnds(t)
    ensures TrimQuotes(Quotes(lead) + t + Quotes(trail)) == t
  {
    if t == [] {
      assert Quotes(lead) + t + Quotes(trail) == Quotes(lead) + Quotes(trail);
      TrimQuotesOfQuotes(lead, trail);
    } else {
      var rest := t + Quotes(trail);
      assert Quotes(lead) + t + Quotes(trail) == Quotes(lead) + rest;
      assert rest[0] == t[0];
      TrimStartBeforeText(lead, rest);
      TrimEndSkipsQuotes(t, trail);
    }
  }

  /** Text with no quote at either end comes back unchanged. */
  lemma TrimQuotesKeepsUnquoted(s: string)
    requires NoQuoteAtEnds(s)
    ensures TrimQuotes(s) == s
  {
    TrimQuotesUnique(0, s, 0);
    assert Quotes(0) + s + Quotes(0) == s;
  }

  /** Trimming twice is trimming once. */
  lemma TrimQuotesIdempotent(s: string)
    ensures TrimQuotes(TrimQuotes(s)) == TrimQuotes(s)
  {
    TrimQuotesKeepsUnquoted(TrimQuotes(s));
  }

  // ---------------------------------------------------------------------------
  // Response decoding and the whole command

  /** Turns a query response into the greeting. `structured` is the JSON
      parse of the bytes as a `{"greeting": ...}` object, giving the field. */
  function DecodeResponse(kind: QueryResponseKind, structured: seq<Utf8.byte> -> Option<string>): (r: Result<string, string>)
    ensures !kind.CallResult? ==> r == Err(UnexpectedResponse)
    ensures kind.CallResult? && structured(kind.result).Some? ==> r == Ok(structured(kind.result).value)
    ensures kind.CallResult? && structured(kind.result).None? ==>
      match Utf8.Decode(kind.result)
      case Ok(text) => r == Ok(TrimQuotes(text))
      case Err(e) => r == Err(NotText + Utf8.ErrorText(e))
  {
    if kind.CallResult? then
      match structured(kind.result)
      case Some(greeting) => Ok(greeting)
      case None =>
        match Utf8.Decode(kind.result)
        case Ok(text) => Ok(TrimQuotes(text))
        case Err(e) => Err(NotText + Utf8.ErrorText(e))
    else
      Err(UnexpectedResponse)
  }

  /** When the structured parse fails, a greeting is returned exactly when the
      bytes are UTF-8 text, and those bytes are then the encoding of the
      greeting with some double quotes before and after it. */
  lemma RawFallbackMeaning(bytes: seq<Utf8.byte>, structured: seq<Utf8.byte> -> Option<string>)
    requires structured(bytes).None?
    ensures DecodeResponse(CallResult(bytes), structured).Ok? <==> exists s :: Utf8.Encode(s) == bytes
    ensures DecodeResponse(CallResult(bytes), structured).Ok? ==>
      var g := DecodeResponse(CallResult(bytes), structured).value;
      NoQuoteAtEnds(g) && exists lead: nat, trail: nat :: bytes == Utf8.Encode(Quotes(lead) + g + Quotes(trail))
    ensures DecodeResponse(CallResult(bytes), structured).Err? ==>
      |NotText| <= |DecodeResponse(CallResult(bytes), structured).error| &&
      DecodeResponse(CallResult(bytes), structured).error[..|NotText|] == NotText
  {
    Utf8.DecodeFailsIffNotEncoding(bytes);
    var d := Utf8.Decode(bytes);
    if d.Ok? {
      Utf8.EncodeDecode(bytes);
      TrimQuotesDecomposes(d.value);
    }
  }

  /** The `"hi"` response: a JSON string, not an object, so the structured
      parse fails and the raw text loses its quotes. */
  lemma QuotedTextExample(structured: seq<Utf8.byte> -> Option<string>)
    requires structured([0x22, 0x68, 0x69, 0x22]).None?
    ensures DecodeResponse(CallResult([0x22, 0x68, 0x69, 0x22]), structured) == Ok("hi")
  {
    var text := "\"hi\"";
    assert Utf8.Encode("\"") == [0x22];
    assert Utf8.Encode("i\"") == [0x69, 0x22] by { assert "i\""[1..] == "\""; }
    assert Utf8.Encode("hi\"") == [0x68, 0x69, 0x22] by { assert "hi\""[1..] == "i\""; }
    assert Utf8.Encode(text) == [0x22, 0x68, 0x69, 0x22] by { assert text[1..] == "hi\""; }
    Utf8.DecodeEncode(text);
    assert text == Quotes(1) + "hi" + Quotes(1);
    TrimQuotesUnique(1, "hi", 1);
  }

  /** `get_near_greeting`. `config` is the loaded configuration or the text of
      its read or TOML error; `accountIdError` gives the text of the error
      parsing a contract id, if it is invalid; `rpc` gives the node's answer to
      a request, or the text of the transport error. */
  function GetNearGreeting(
    network: string,
    config: Result<Config, string>,
    accountIdError: string -> Option<string>,
    rpc: ViewRequest -> Result<QueryResponseKind, string>,
    structured: seq<Utf8.byte> -> Option<string>
  ): (o: Outcome)
    ensures |o.requests| <= 1
    ensures o.result.Ok? ==> o.requests != []
  {
    match config
    case Err(text) => Outcome(Err(text), [])
    case Ok(cfg) =>
      match SelectNetwork(cfg, network)
      case Err(text) => Outcome(Err(text), [])
      case Ok(netConfig) =>
        match accountIdError(netConfig.contractId)
        case Some(text) => Outcome(Err("Invalid account ID: " + text), [])
        case None =>
          var request := GreetingRequest(netConfig.contractId);
          match rpc(request)
          case Err(text) => Outcome(Err(text), [request])
          case Ok(kind) => Outcome(DecodeResponse(kind, structured), [request])
  }

  /** A configuration that could not be read or parsed ends the command with
      its error text, before any request is sent. */
  lemma ConfigErrorSendsNothing(
    network: string, text: string,
    accountIdError: string -> Option<string>,
    rpc: ViewRequest -> Result<QueryResponseKind, string>,
    structured: seq<Utf8.byte> -> Option<string>)
    ensures GetNearGreeting(network, Err(text), accountIdError, rpc, structured) == Outcome(Err(text), [])
  {
  }

  /** A known network whose contract id does not parse ends the command with
      `Invalid account ID: ` and the parser's text, before any request is sent. */
  lemma InvalidContractSendsNothing(
    network: string, cfg: Config,
    accountIdError: string -> Option<string>,
    rpc: ViewRequest -> Result<QueryResponseKind, string>,
    structured: seq<Utf8.byte> -> Option<string>)
    requires network == "mainnet" || network == "testnet"
    requires accountIdError((if network == "mainnet" then cfg.mainnet else cfg.testnet).contractId).Some?
    ensures
      var text := accountIdError((if network == "mainnet" then cfg.mainnet else cfg.testnet).contractId).value;
      GetNearGreeting(network, Ok(cfg), accountIdError, rpc, structured) == Outcome(Err("Invalid account ID: " + text), [])
  {
  }

  /** An unknown network name is refused before any request is sent. */
  lemma InvalidNetworkSendsNothing(
    network: string, cfg: Config,
    accountIdError: string -> Option<string>,
    rpc: ViewRequest -> Result<QueryResponseKind, string>,
    structured: seq<Utf8.byte> -> Option<string>)
    requires network != "mainnet" && network != "testnet"
    ensures GetNearGreeting(network, Ok(cfg), accountIdError, rpc, structured) == Outcome(Err(InvalidNetwork), [])
  {
  }

  /** For a known network with a valid contract id, exactly one request is
      sent, the `get_greeting` view call to that network's contract, and the
      greeting is what decoding its response gives. */
  lemma KnownNetworkQueriesItsContract(
    network: string, cfg: Config,
    accountIdError: string -> Option<string>,
    rpc: ViewRequest -> Result<QueryResponseKind, string>,
    structured: seq<Utf8.byte> -> Option<string>)
    requires network == "mainnet" || network == "testnet"
    requires accountIdError((if network == "mainnet" then cfg.mainnet else cfg.testnet).contractId).None?
    ensures
      var contract := (if network == "mainnet" then cfg.mainnet else cfg.testnet).contractId;
      var o := GetNearGreeting(network, Ok(cfg), accountIdError, rpc, structured);
      && o.requests == [GreetingRequest(contract)]
      && o.requests[0].accountId == contract
      && o.requests[0].methodName == "get_greeting"
      && o.requests[0].finality == Final
      && Utf8.Decode(o.requests[0].args) == Ok("{}")
      && o.result == match rpc(o.requests[0])
                     case Err(text) => Err(text)
                     case Ok(kind) => DecodeResponse(kind, structured)
  {
  }
}
