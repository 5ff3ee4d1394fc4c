/**
  `handle_message` end to end, and the bot's behaviour over a sequence of
  inbound updates. Running the shell command is a parameter: `run` maps a
  command string to the decoded (stdout, stderr) pair it produced.
 */
module Bot {
  import opened Wrappers
  import Auth
  import Dispatch
  import Output
  import AuditLog

  /** The decoded output of one finished command. */
  datatype Captured = Captured(stdout: string, stderr: string)

  /** `update.effective_user`: the id and the optional username. */
  datatype Sender = Sender(id: Auth.UserId, username: Option<string>)

  /** What handling one message does. Either nothing, or one log line is
      appended, the command runs, and the replies are sent in order. */
  datatype Outcome = Dropped | Executed(command: string, logEntry: string, replies: seq<string>)

  /** `handle_message` for one text message. `timestamp` is the formatted
      wall-clock time at which the command is logged. */
  function HandleMessage(st: Auth.State, sender: Sender, text: Option<string>,
                         timestamp: string, run: string -> Captured): (r: Outcome)
    ensures r.Executed? <==>
              && Auth.IsAuthenticated(st, sender.id)
              && text.Some? && |text.value| > 0
              && !Dispatch.IsReserved(Dispatch.StripSlash(text.value))
    ensures r.Executed? ==> r.command == Dispatch.StripSlash(text.value)
    ensures r.Executed? ==> r.logEntry == AuditLog.LogEntry(timestamp, sender.id, sender.username, r.command)
    ensures r.Executed? ==>
              && |r.replies| >= 1
              && (forall k :: 0 <= k < |r.replies| ==> Output.IsFenced(r.replies[k]))
              && Output.Concat(Output.Unfenced(r.replies))
                 == Output.SelectOutput(run(r.command).stdout, run(r.command).stderr)
    ensures r.Executed? ==>
              && |r.replies|
                 == (|Output.SelectOutput(run(r.command).stdout, run(r.command).stderr)| + Output.ChunkSize - 1)
                    / Output.ChunkSize
              && (forall k :: 0 <= k < |r.replies| ==>
                    0 < |Output.Unfence(r.replies[k])| <= Output.ChunkSize)
              && (forall k :: 0 <= k < |r.replies| - 1 ==>
                    |Output.Unfence(r.replies[k])| == Output.ChunkSize)
  {
    match Dispatch.Decide(st, sender.id, text)
    case None => Dropped
    case Some(command) =>
      var out := run(command);
      Output.RepliesRoundTrip(out.stdout, out.stderr);
      Executed(command, AuditLog.LogEntry(timestamp, sender.id, sender.username, command),
               Output.Replies(out.stdout, out.stderr))
  }

  /** An inbound update: `/auth` with its arguments, or any other message. */
  datatype Event =
    | AuthCommand(user: Auth.UserId, args: seq<string>)
    | TextMessage(sender: Sender, text: Option<string>)

  /** The state change one update causes. Only `/auth` changes it. */
  function Step(cfg: Auth.Config, st: Auth.State, e: Event): Auth.State {
    match e
    case AuthCommand(user, args) => Auth.Authenticate(cfg, st, user, args).0
    case TextMessage(_, _) => st
  }

  /** The state after the updates in `events`, handled in order. */
  function Run(cfg: Auth.Config, st: Auth.State, events: seq<Event>): Auth.State
    decreases |events|
  {
    if |events| == 0 then st
    else Step(cfg, Run(cfg, st, events[..|events| - 1]), events[|events| - 1])
  }

  /** An `/auth` update from `user` that passes every guard. */
  predicate Admits(cfg: Auth.Config, e: Event, user: Auth.UserId) {
    && e.AuthCommand? && e.user == user
    && user in cfg.allowedUsers
    && |e.args| > 0 && cfg.password == Some(e.args[0])
  }

  /** The invariant holds after any sequence of updates: the authenticated
      set stays inside the allow-list, and stays empty without a password. */
  lemma {:induction false} RunPreservesValid(cfg: Auth.Config, st: Auth.State, events: seq<Event>)
    requires Auth.Valid(cfg, st)
    ensures Auth.Valid(cfg, Run(cfg, st, events))
    decreases |events|
  {
    if |events| > 0 {
      var before := Run(cfg, st, events[..|events| - 1]);
      RunPreservesValid(cfg, st, events[..|events| - 1]);
      match events[|events| - 1]
      case AuthCommand(user, args) => Auth.AuthenticatePreservesValid(cfg, before, user, args);
      case TextMessage(_, _) =>
    }
  }

  /** A user is authenticated after a sequence of updates if and only if they
      were authenticated before, or one of the updates was an `/auth` from them
      that passed every guard. No update ever removes a user. */
  lemma {:induction false} RunAuthenticatedIff(cfg: Auth.Config, st: Auth.State, events: seq<Event>, user: Auth.UserId)
    ensures st.authenticated <= Run(cfg, st, events).authenticated
    ensures user in Run(cfg, st, events).authenticated <==>
              user in st.authenticated || exists i :: 0 <= i < |events| && Admits(cfg, events[i], user)
    decreases |events|
  {
    if |events| > 0 {
      var prefix := events[..|events| - 1];
      var last := events[|events| - 1];
      var before := Run(cfg, st, prefix);
      RunAuthenticatedIff(cfg, st, prefix, user);
      if last.AuthCommand? {
        Auth.AuthenticateOnlyAdds(cfg, before, last.user, last.args);
      }
      if exists i :: 0 <= i < |events| && Admits(cfg, events[i], user) {
        var i :| 0 <= i < |events| && Admits(cfg, events[i], user);
        if i < |events| - 1 {
          assert prefix[i] == events[i];
        }
      }
      if exists i :: 0 <= i < |prefix| && Admits(cfg, prefix[i], user) {
        var i :| 0 <= i < |prefix| && Admits(cfg, prefix[i], user);
        assert events[i] == prefix[i];
      }
    }
  }

  /** A message from a sender runs a command only if that sender has earlier
      sent `/auth` with the configured password and is on the allow-list. */
  lemma {:induction false} ExecutionRequiresPassword(cfg: Auth.Config, events: seq<Event>, sender: Sender,
                                  text: Option<string>, timestamp: string, run: string -> Captured)
    requires HandleMessage(Run(cfg, Auth.Initial, events), sender, text, timestamp, run).Executed?
    ensures sender.id in cfg.allowedUsers && cfg.password.Some?
    ensures exists i :: 0 <= i < |events| && Admits(cfg, events[i], sender.id)
  {
    RunAuthenticatedIff(cfg, Auth.Initial, events, sender.id);
  }

  /** With no password configured, no message ever runs a command. */
  lemma {:induction false} NoPasswordNothingRuns(cfg: Auth.Config, events: seq<Event>, sender: Sender,
                              text: Option<string>, timestamp: string, run: string -> Captured)
    requires cfg.password.None?
    ensures Run(cfg, Auth.Initial, events).authenticated == {}
    ensures HandleMessage(Run(cfg, Auth.Initial, events), sender, text, timestamp, run).Dropped?
  {
    RunPreservesValid(cfg, Auth.Initial, events);
  }
}
