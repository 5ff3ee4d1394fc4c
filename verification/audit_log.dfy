/**
  The line `log_command` appends to the command log before a command runs:
  `[<timestamp>] User <id> (<username>): <command>` and a newline. The clock
  and the file are outside the model. The timestamp comes in as an
  already-formatted parameter.
 */
module AuditLog {
  import opened Wrappers

  predicate IsDigit(c: char) {
    '0' <= c <= '9'
  }

  function DigitChar(d: nat): (c: char)
    requires d < 10
    ensures IsDigit(c)
  {
    (('0' as int) + d) as char
  }

  function DigitValue(c: char): (d: nat)
    requires IsDigit(c)
    ensures d < 10 && DigitChar(d) == c
  {
    (c as int) - ('0' as int)
  }

  predicate AllDigits(s: string) {
    forall k :: 0 <= k < |s| ==> IsDigit(s[k])
  }

  /** Python's `str` of a non-negative integer: decimal digits, most significant
      first, with no leading zero except for 0 itself. */
  function NatToDecimal(n: nat): (r: string)
    ensures |r| > 0 && AllDigits(r)
    ensures |r| > 1 ==> r[0] != '0'
    decreases n
  {
    if n < 10 then [DigitChar(n)] else NatToDecimal(n / 10) + [DigitChar(n % 10)]
  }

  /** Python's `str` of an integer: a '-' sign in front of negative values. */
  function IntToDecimal(i: int): string {
    if i < 0 then "-" + NatToDecimal(-i) else NatToDecimal(i)
  }

  /** Reads a string of decimal digits back as a number. */
  function ParseNat(s: string): nat
    requires AllDigits(s)
  {
    if |s| == 0 then 0 else ParseNat(s[..|s| - 1]) * 10 + DigitValue(s[|s| - 1])
  }

  predicate IsDecimal(s: string) {
    if |s| > 0 && s[0] == '-' then |s| > 1 && AllDigits(s[1..]) else |s| > 0 && AllDigits(s)
  }

  /** Reads an optionally signed decimal back as an integer. */
  function ParseInt(s: string): int
    requires IsDecimal(s)
  {
    if |s| > 0 && s[0] == '-' then 0 - ParseNat(s[1..]) else ParseNat(s)
  }

  lemma {:induction false} NatDecimalRoundTrip(n: nat)
    ensures ParseNat(NatToDecimal(n)) == n
    decreases n
  {
    var r := NatToDecimal(n);
    if n >= 10 {
      NatDecimalRoundTrip(n / 10);
      assert r[..|r| - 1] == NatToDecimal(n / 10);
    }
  }

  /** The decimal text of a user id reads back as the same id, so two
      different users never get the same id text. `LogEntry` places exactly
      this text after " User ". */
  lemma DecimalRoundTrip(i: int)
    ensures IsDecimal(IntToDecimal(i))
    ensures ParseInt(IntToDecimal(i)) == i
  {
    if i < 0 {
      NatDecimalRoundTrip(-i);
      assert IntToDecimal(i)[1..] == NatToDecimal(-i);
    } else {
      NatDecimalRoundTrip(i);
    }
  }

  /** `user.username` as an f-string prints it: the text, or "None" when unset. */
  function NameText(username: Option<string>): string {
    username.GetOr("None")
  }

  /** One log line. */
  function LogEntry(timestamp: string, userId: int, username: Option<string>, command: string): (r: string)
    ensures |r| > |command| && r[|r| - 1] == '\n'
    ensures r[|r| - 1 - |command| .. |r| - 1] == command
    ensures |r| >= |timestamp| + 2 && r[..|timestamp| + 2] == "[" + timestamp + "]"
    ensures var id := IntToDecimal(userId);
            var name := NameText(username);
            var p := |timestamp| + 2;
            && |r| == p + 6 + |id| + 2 + |name| + 3 + |command| + 1
            && r[p .. p + 6] == " User "
            && r[p + 6 .. p + 6 + |id|] == id
            && r[p + 6 + |id| .. p + 8 + |id|] == " ("
            && r[p + 8 + |id| .. p + 8 + |id| + |name|] == name
            && r[p + 8 + |id| + |name| .. p + 11 + |id| + |name|] == "): "
  {
    var id := IntToDecimal(userId);
    var name := NameText(username);
    var afterName := "): " + command + "\n";
    var afterId := " (" + name + afterName;
    var afterTime := " User " + id + afterId;
    var r := "[" + timestamp + "]" + afterTime;
    assert r[|timestamp| + 2..] == afterTime;
    assert afterTime[6..] == id + afterId;
    assert afterId[2..] == name + afterName;
    r
  }

  /** A log entry is exactly one line, its only newline the final one, if and
      only if neither the timestamp, the username nor the command holds a
      newline. A multi-line command therefore spreads over several lines. */
  lemma LogEntrySingleLine(timestamp: string, userId: int, username: Option<string>, command: string)
    ensures var r := LogEntry(timestamp, userId, username, command);
            '\n' !in r[..|r| - 1]
            <==> '\n' !in timestamp && '\n' !in NameText(username) && '\n' !in command
  {
    var r := LogEntry(timestamp, userId, username, command);
    var id := IntToDecimal(userId);
    assert '\n' !in id;
    var line := "[" + timestamp + "]" + " User " + id + " (" + NameText(username) + "): " + command;
    assert r == line + "\n";
    assert r[..|r| - 1] == line;
  }
}

