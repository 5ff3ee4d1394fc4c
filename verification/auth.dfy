/**
  The authentication state of the bot: a fixed allow-list of user ids, an
  optional configured password, and a set of authenticated user ids. The set
  only grows. `/auth <password>` adds the sender once every guard passes.
 */
module Auth {
  import opened Wrappers

  /** A Telegram user id. */
  type UserId = int

  /** Configuration that is read once at start-up: `ALLOWED_USERS` and `BOT_PASSWORD`. */
  datatype Config = Config(allowedUsers: set<UserId>, password: Option<string>)

  /** The process-wide `authenticated_users` set. */
  datatype State = State(authenticated: set<UserId>)

  /** The state at start-up: nobody is authenticated. */
  const Initial: State := State({})

  /** The reply the `auth` handler sends, one per branch. */
  datatype AuthReply = Unauthorized | Usage | Success | InvalidPassword

  /** The invariant the state keeps: only allow-listed users are authenticated,
      and nobody is authenticated when no password is configured. */
  predicate Valid(cfg: Config, st: State) {
    && st.authenticated <= cfg.allowedUsers
    && (cfg.password.None? ==> st.authenticated == {})
  }

  /** The membership test that `is_authenticated` performs. */
  predicate IsAuthenticated(st: State, user: UserId) {
    user in st.authenticated
  }

  /** The `auth` handler. `args` are the words after `/auth`. Only the first one
      is compared with the password and the rest are ignored. */
  function Authenticate(cfg: Config, st: State, user: UserId, args: seq<string>): (r: (State, AuthReply))
    ensures r.1 == Success <==> user in cfg.allowedUsers && |args| > 0 && cfg.password == Some(args[0])
    ensures r.1 == Unauthorized <==> user !in cfg.allowedUsers
    ensures r.1 == Usage <==> user in cfg.allowedUsers && |args| == 0
    ensures r.1 == Success ==> r.0.authenticated == st.authenticated + {user}
    ensures r.1 != Success ==> r.0 == st
  {
    if user !in cfg.allowedUsers then (st, Unauthorized)
    else if |args| == 0 then (st, Usage)
    else if Some(args[0]) == cfg.password then (State(st.authenticated + {user}), Success)
    else (st, InvalidPassword)
  }

  /** The only change `Authenticate` can make is to add `user`, and it adds
      `user` exactly when the guards pass. No path removes a user. */
  lemma AuthenticateOnlyAdds(cfg: Config, st: State, user: UserId, args: seq<string>)
    ensures st.authenticated <= Authenticate(cfg, st, user, args).0.authenticated
    ensures Authenticate(cfg, st, user, args).0.authenticated - st.authenticated <= {user}
    ensures user in Authenticate(cfg, st, user, args).0.authenticated
            <==> user in st.authenticated
                 || (user in cfg.allowedUsers && |args| > 0 && cfg.password == Some(args[0]))
  {
  }

  /** `Authenticate` keeps the invariant. */
  lemma AuthenticatePreservesValid(cfg: Config, st: State, user: UserId, args: seq<string>)
    requires Valid(cfg, st)
    ensures Valid(cfg, Authenticate(cfg, st, user, args).0)
  {
  }

  /** Any further words after the password do not affect the outcome. */
  lemma ExtraArgumentsIgnored(cfg: Config, st: State, user: UserId, password: string, rest: seq<string>)
    ensures Authenticate(cfg, st, user, [password] + rest) == Authenticate(cfg, st, user, [password])
  {
  }
}
