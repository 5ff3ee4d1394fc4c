/**
  The decision `handle_message` makes before it runs anything: is the sender
  authenticated, is there text, which command string is it, and is it one
  of the reserved bot commands?
 */
module Dispatch {
  import opened Wrappers
  import Auth

  /** The reserved words `handle_message` in bot.py skips, in the order it lists them. */
  const ReservedWords: seq<string> := ["start", "auth", "help"]

  /** Removes one leading '/' when there is one. */
  function StripSlash(text: string): (r: string)
    ensures |text| > 0 && text[0] == '/' ==> text == "/" + r
    ensures !(|text| > 0 && text[0] == '/') ==> r == text
  {
    if |text| > 0 && text[0] == '/' then text[1..] else text
  }

  /** A case-sensitive prefix test against every reserved word. */
  predicate IsReserved(command: string) {
    exists i :: 0 <= i < |ReservedWords| && ReservedWords[i] <= command
  }

  /** The reserved-word test, stated character by character. */
  lemma IsReservedIff(command: string)
    ensures IsReserved(command) <==>
              || (|command| >= 5 && command[..5] == "start")
              || (|command| >= 4 && (command[..4] == "auth" || command[..4] == "help"))
  {
    if |command| >= 5 && command[..5] == "start" {
      assert ReservedWords[0] <= command;
    }
    if |command| >= 4 && command[..4] == "auth" {
      assert ReservedWords[1] <= command;
    }
    if |command| >= 4 && command[..4] == "help" {
      assert ReservedWords[2] <= command;
    }
  }

  /** The decision: `Some(command)` when the command is logged and run, and
      `None` when the message is dropped. A missing text is `None`. */
  function Decide(st: Auth.State, user: Auth.UserId, text: Option<string>): (r: Option<string>)
    ensures r.Some? <==>
              && Auth.IsAuthenticated(st, user)
              && text.Some? && |text.value| > 0
              && !IsReserved(StripSlash(text.value))
    ensures r.Some? ==> text.Some? && |text.value| > 0
    ensures r.Some? && text.value[0] == '/' ==> text.value == "/" + r.value
    ensures r.Some? && text.value[0] != '/' ==> r.value == text.value
  {
    if !Auth.IsAuthenticated(st, user) then None
    else if text.None? || |text.value| == 0 then None
    else
      var command := StripSlash(text.value);
      if IsReserved(command) then None else Some(command)
  }

  /** Example inputs: only one slash is removed. The prefix test catches
      "starter" and "helpme" but not "Start". */
  lemma DecideExamples(st: Auth.State, user: Auth.UserId)
    requires Auth.IsAuthenticated(st, user)
    ensures Decide(st, user, Some("//ls")) == Some("/ls")
    ensures Decide(st, user, Some("ls -la")) == Some("ls -la")
    ensures Decide(st, user, Some("/starter")) == None
    ensures Decide(st, user, Some("helpme")) == None
    ensures Decide(st, user, Some("Start")) == Some("Start")
    ensures Decide(st, user, Some("")) == None
  {
    IsReservedIff("/ls");
    IsReservedIff("ls -la");
    IsReservedIff("starter");
    IsReservedIff("helpme");
    IsReservedIff("Start");
  }
}
