/** The in-process session registry: the global `sessions` dict mapping a
    bearer token to the id of the user it was issued for. */
module Sessions {
  import opened Bytes
  import opened Wrappers
  import opened Http
  import Hex

  type SessionMap = map<string, string>

  /** The 24 random octets behind `secrets.token_hex(24)`. */
  type TokenBytes = b: seq<byte> | |b| == 24 witness seq(24, _ => 0)

  /** `secrets.token_hex(24)`: 48 lower-case hexadecimal digits. */
  function TokenHex(b: TokenBytes): (t: string)
    ensures |t| == 48 && Hex.IsLowerHex(t)
    ensures Hex.Decode(t) == Some(b)
  {
    Hex.DecodeEncode(b);
    Hex.Encode(b)
  }

  /** `token = secrets.token_hex(24); sessions[token] = userId`: the new token
      resolves to `userId`, and every other token resolves as before. A token
      that happens to be in use already is overwritten, as the dict does. */
  function Issue(sessions: SessionMap, b: TokenBytes, userId: string): (r: (string, SessionMap))
    ensures r.0 == TokenHex(b)
    ensures r.1.Keys == sessions.Keys + {r.0}
    ensures RequireAuth(r.1, Some(r.0)) == Ok(userId)
    ensures forall t :: t != r.0 ==> RequireAuth(r.1, Some(t)) == RequireAuth(sessions, Some(t))
  {
    var token := TokenHex(b);
    (token, sessions[token := userId])
  }

  /** `require_auth(token)`: an absent or empty token, or one the registry
      does not hold, is refused with 401 "Unauthorized"; otherwise the user id
      it was issued for. */
  function RequireAuth(sessions: SessionMap, token: Option<string>): (r: Result<string>)
    ensures r.Ok? <==> token.Some? && token.value != "" && token.value in sessions
    ensures r.Ok? ==> r.value == sessions[token.value]
    ensures r.Err? ==> r == Err(Unauthorized, UnauthorizedDetail)
  {
    if token.None? || token.value == "" || token.value !in sessions then Err(Unauthorized, UnauthorizedDetail)
    else Ok(sessions[token.value])
  }
}
