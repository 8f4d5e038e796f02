/** HTTP Basic authentication as both web servers do it (`check_auth`, `authenticate`,
    `requires_auth`), and the (status, body) replies their handlers give. */
module BasicAuth {
  import opened Common

  /** What a handler answers: an HTTP status and a body. */
  datatype Reply<B> = Reply(status: int, body: B)

  /** The configured `USERNAME` and `PASSWORD`, or the pair a client sent. */
  datatype Credentials = Credentials(username: string, password: string)

  /** The realm of the microscope server's challenge. */
  const MicroscopeRealm := "Microscope"

  /** The realm of the CSI camera server's challenge. */
  const CsiRealm := "CSI Camera"

  /** `check_auth`: both the user name and the password must match. */
  predicate CheckAuth(cfg: Credentials, username: string, password: string)
  {
    username == cfg.username && password == cfg.password
  }

  /** The test `requires_auth` makes of `request.authorization` (`None` when the request
      carries no Basic credentials). */
  predicate Admitted(auth: Option<Credentials>, cfg: Credentials)
  {
    auth.Some? && CheckAuth(cfg, auth.value.username, auth.value.password)
  }

  /** What a guarded route answers: the `authenticate()` challenge or the handler's reply. */
  datatype Gated<B> = Challenge(status: int, message: string, realm: string) | Served(reply: Reply<B>)

  /** `requires_auth(f)`: the handler's reply goes out only to a client that sent exactly the
      configured credentials; every other request gets 401 with a `WWW-Authenticate`
      challenge for `realm`. */
  function Gate<B>(auth: Option<Credentials>, cfg: Credentials, realm: string, reply: Reply<B>): (g: Gated<B>)
    ensures g.Served? <==> auth == Some(cfg)
    ensures g.Served? ==> g.reply == reply
    ensures g.Challenge? ==> g.status == 401 && g.message == "Authentication required" && g.realm == realm
  {
    if Admitted(auth, cfg) then Served(reply) else Challenge(401, "Authentication required", realm)
  }

  /** A request is challenged when it carries no credentials, a wrong user name or a wrong
      password, whichever of the two is right. */
  lemma GateRejects<B>(cfg: Credentials, realm: string, reply: Reply<B>, username: string, password: string)
    requires username != cfg.username || password != cfg.password
    ensures Gate(None, cfg, realm, reply).Challenge?
    ensures Gate(Some(Credentials(username, password)), cfg, realm, reply) == Challenge(401, "Authentication required", realm)
  {
  }
}
