/**
 The bearer-token gate every request passes before dispatch: `/health`
 and `/version` are open; any other path needs an `Authorization` header
 of the form `Bearer <token>` whose token equals the stored secret.
 */
module Auth {
  import opened Common
  import opened JsString

  const BearerPrefix: string := "Bearer "

  predicate IsExempt(path: string) {
    path == "/health" || path == "/version"
  }

  /** The three 401 responses, in the order the gate checks for them. */
  datatype AuthError = MissingAuthorization | MalformedAuthorization | WrongToken

  datatype Decision = Allow | Deny(reason: AuthError)

  /** The gate. `header` is the `Authorization` header, if sent; `secret`
      is the stored token, absent when none is configured. */
  function Authorize(path: string, header: Option<string>, secret: Option<string>): (d: Decision)
    ensures IsExempt(path) ==> d == Allow
    ensures !IsExempt(path) && (header.None? || header.value == []) ==> d == Deny(MissingAuthorization)
    ensures !IsExempt(path) && header.Some? && header.value != [] && !StartsWith(header.value, BearerPrefix) ==>
              d == Deny(MalformedAuthorization)
    ensures !IsExempt(path) ==>
              (d == Allow <==> header.Some? && secret.Some? && header.value == BearerPrefix + secret.value)
    ensures d.Deny? ==> (d.reason == WrongToken <==> header.Some? && StartsWith(header.value, BearerPrefix))
  {
    if IsExempt(path) then Allow
    else match header
      case None => Deny(MissingAuthorization)
      case Some(h) =>
        if h == [] then Deny(MissingAuthorization)
        else if !StartsWith(h, BearerPrefix) then Deny(MalformedAuthorization)
        else
          var token := h[|BearerPrefix|..];
          assert h == BearerPrefix + token;
          if secret.Some? && token == secret.value then Allow else Deny(WrongToken)
  }

  /** With no secret configured, every non-exempt request is refused. */
  lemma NoSecretDeniesAll(path: string, header: Option<string>)
    requires !IsExempt(path)
    ensures Authorize(path, header, None).Deny?
  {
  }
}
