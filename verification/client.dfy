/**
 The SDK's objects as src/token.rs, src/client.rs and tests/common/mod.rs have them:
 fields updated in place by methods, each proved against its specification function.
 Nothing runs beside them here; TokenProtocol is where tasks interleave.
 */
module Client {
  import opened Options
  import opened Errors
  import opened TokenCache
  import ClientConfig
  import SendSpec

  /** The scripted gateway: a clock, two queues of answers, and a record of the requests. */
  class Gateway {
    var now: nat
    var authScript: seq<SendSpec.AuthAnswer>
    var apiScript: seq<SendSpec.ApiAnswer>
    var authCalls: nat
    var calls: seq<SendSpec.Call>

    constructor (authScript: seq<SendSpec.AuthAnswer>, apiScript: seq<SendSpec.ApiAnswer>)
      ensures World() == SendSpec.World(0, authScript, apiScript, 0, [])
    {
      this.now, this.authCalls, this.calls := 0, 0, [];
      this.authScript, this.apiScript := authScript, apiScript;
    }

    function World(): SendSpec.World
      reads this
    {
      SendSpec.World(now, authScript, apiScript, authCalls, calls)
    }

    method PostToken(call: SendSpec.Call) returns (outcome: AuthOutcome)
      modifies this
      ensures (World(), outcome) == SendSpec.PostToken(old(World()), call)
      ensures calls == old(calls) + [call] && authCalls == old(authCalls) + 1
      ensures old(authScript) == [] ==>
                && authScript == []
                && outcome == Accepted(200, Some(TokenResponse(SendSpec.IssuedToken(old(authCalls) + 1), 900)))
    {
      authCalls := authCalls + 1;
      if authScript != [] {
        now := now + authScript[0].nanos;
        outcome := authScript[0].outcome;
        authScript := authScript[1..];
      } else {
        outcome := Accepted(200, Some(TokenResponse(SendSpec.IssuedToken(authCalls), 900)));
      }
      calls := calls + [call];
    }

    method PostApi(call: SendSpec.Call) returns (reply: Option<(nat, Body)>)
      modifies this
      ensures (World(), reply) == SendSpec.PostApi(old(World()), call)
      ensures old(apiScript) == [] ==>
                reply == Some((500, Body(Some(ErrorBody("internal_error", "api_error", "unmocked request in test fixture")),
                                         None)))
      ensures calls == old(calls) + [call] && authCalls == old(authCalls)
    {
      if apiScript != [] {
        now := now + apiScript[0].nanos;
        reply := apiScript[0].reply;
        apiScript := apiScript[1..];
      } else {
        reply := Some((500, Body(Some(SendSpec.UNMOCKED), None)));
      }
      calls := calls + [call];
    }
  }

  class TokenManager {
    const credentials: SendSpec.Credentials
    var state: Cache

    constructor (credentials: SendSpec.Credentials)
      ensures this.credentials == credentials && state == None
    {
      this.credentials := credentials;
      this.state := None;
    }

    method GetToken(gateway: Gateway) returns (result: Result<string>)
      modifies this, gateway
      ensures (state, gateway.World(), result)
           == SendSpec.Refresh(old(state), old(gateway.World()), credentials, None)
    {
      if state.Some? {
        if gateway.now < state.value.expiresAt {
          return Ok(state.value.token);
        }
      }
      result := Refresh(None, gateway);
    }

    method RefreshAfterExpiry(stale: string, gateway: Gateway) returns (result: Result<string>)
      modifies this, gateway
      ensures (state, gateway.World(), result)
           == SendSpec.Refresh(old(state), old(gateway.World()), credentials, Some(stale))
    {
      result := Refresh(Some(stale), gateway);
    }

    method Refresh(stale: Option<string>, gateway: Gateway) returns (result: Result<string>)
      modifies this, gateway
      ensures (state, gateway.World(), result)
           == SendSpec.Refresh(old(state), old(gateway.World()), credentials, stale)
    {
      if state.Some? {
        var s := state.value;
        var stillFresh := gateway.now < s.expiresAt;
        var replaced := stale.Some? && stale.value != s.token;
        if (stale.None? && stillFresh) || replaced {
          return Ok(s.token);
        }
      }
      var outcome := gateway.PostToken(SendSpec.AuthCall(credentials));
      match outcome {
        case Unreachable =>
          return Err(Http);
        case Refused(status, error) =>
          state := None;
          return Err(Api(status, if error.Some? then error.value else RefusalBody(status)));
        case Accepted(status, response) =>
          if response.None? {
            return Err(Decode(status));
          }
          var expiresAt := ExpiryInstant(gateway.now, response.value.expiresIn);
          if expiresAt.None? {
            return Panicked;
          }
          state := Some(TokenState(response.value.token, expiresAt.value));
          return Ok(response.value.token);
      }
    }
  }

  class MpcClient {
    const baseUrl: string
    const tokens: TokenManager

    constructor (baseUrl: string, tokens: TokenManager)
      ensures this.baseUrl == baseUrl && this.tokens == tokens
    {
      this.baseUrl := baseUrl;
      this.tokens := tokens;
    }

    /** `MpcClient::new`: checked in this order, and the normalised URL serves both the API and the auth calls. */
    static method New(apiKey: string, apiSecret: string, configUrl: string) returns (client: Result<MpcClient>)
      ensures client.Ok? <==> apiKey != "" && apiSecret != "" && ClientConfig.AbsoluteHttpUrl(configUrl)
      ensures !client.Panicked?
      ensures client.Err? ==> client.error == InvalidConfig(
                if apiKey == "" then "apiKey is required"
                else if apiSecret == "" then "apiSecret is required"
                else ClientConfig.BASE_URL_ERROR)
      ensures client.Ok? ==>
                && fresh(client.value) && fresh(client.value.tokens)
                && ClientConfig.NormalizeBaseUrl(configUrl) == Ok(client.value.baseUrl)
                && client.value.tokens.state == None
                && client.value.tokens.credentials
                   == SendSpec.Credentials(client.value.baseUrl, apiKey, apiSecret)
    {
      ClientConfig.AcceptedIff(configUrl);
      if apiKey == "" {
        return Err(InvalidConfig("apiKey is required"));
      }
      if apiSecret == "" {
        return Err(InvalidConfig("apiSecret is required"));
      }
      var baseUrl := ClientConfig.NormalizeBaseUrl(configUrl);
      if !baseUrl.Ok? {
        return Err(baseUrl.error);
      }
      var tokens := new TokenManager(SendSpec.Credentials(baseUrl.value, apiKey, apiSecret));
      var made := new MpcClient(baseUrl.value, tokens);
      return Ok(made);
    }

    /** The request builder of `post_with_status_and_headers`, run once per attempt. */
    method Build(request: SendSpec.Request, token: string) returns (call: SendSpec.Call)
      ensures call == SendSpec.BuildCall(request, token)
      ensures SendSpec.CarriesRequest(call, request, token)
    {
      var headers: seq<SendSpec.Header> :=
        [("Content-Type", "application/json"), ("Authorization", "Bearer " + token)];
      ghost var start := headers;
      for i := 0 to |request.headers|
        invariant headers == start + request.headers[..i]
      {
        headers := headers + [request.headers[i]];
      }
      assert request.headers[..|request.headers|] == request.headers;
      call := SendSpec.Call(request.url, headers, request.body);
    }

    method Execute(call: SendSpec.Call, gateway: Gateway) returns (reply: Result<(nat, Body)>)
      modifies gateway
      ensures var (world, answer) := SendSpec.PostApi(old(gateway.World()), call);
              && gateway.World() == world
              && reply == if answer.None? then Err(Http) else Ok(answer.value)
    {
      var answer := gateway.PostApi(call);
      reply := if answer.None? then Err(Http) else Ok(answer.value);
    }

    method Send(request: SendSpec.Request, gateway: Gateway) returns (result: Result<Reply>)
      modifies tokens, gateway
      ensures (tokens.state, gateway.World(), result)
           == SendSpec.Send(old(tokens.state), old(gateway.World()), tokens.credentials, request)
    {
      var token := tokens.GetToken(gateway);
      if !token.Ok? {
        return SendSpec.Failure(token);
      }
      var call := Build(request, token.value);
      var reply := Execute(call, gateway);
      if !reply.Ok? {
        return Err(Http);
      }
      if reply.value.0 == 401 && IsTokenExpired(reply.value.1) {
        token := tokens.RefreshAfterExpiry(token.value, gateway);
        if !token.Ok? {
          return SendSpec.Failure(token);
        }
        call := Build(request, token.value);
        reply := Execute(call, gateway);
        if !reply.Ok? {
          return Err(Http);
        }
      }
      return DecodeReply(reply.value.0, reply.value.1);
    }

    /** `post_with_status_and_headers`: the extra headers go out on the retry as well. */
    method PostWithStatusAndHeaders(path: string, payload: string, headers: seq<SendSpec.Header>, gateway: Gateway)
      returns (result: Result<Reply>)
      modifies tokens, gateway
      ensures (tokens.state, gateway.World(), result)
           == SendSpec.Send(old(tokens.state), old(gateway.World()), tokens.credentials,
                            SendSpec.Request(baseUrl + path, headers, payload))
    {
      var url := ClientConfig.Url(baseUrl, path);
      result := Send(SendSpec.Request(url, headers, payload), gateway);
    }
  }
}
