/**
 * The line classifier of the log tailer: which handler a server log line goes
 * to, and how the player name is cut out of a login or a logout line.
 */
module Classifier {
  import opened Wrappers
  import opened PyText

  /** The two markers that only appear together on the "world loaded" line. */
  const DONE_MARKER := "[Server thread/INFO]: Done"
  const HELP_MARKER := "For help, type \"help\""
  const LOGIN_MARKER := "logged in"
  const LOGOUT_MARKER := "left the game"
  const STOP_MARKER := "Stopping server"

  /** The handler `handle_log` hands a line to. */
  datatype Action = MarkStarted | Login | Logout | Stop | Ignore

  /**
   * The first-match dispatch of `handle_log`: a line reaches a handler only
   * when it carries that handler's marker and none of an earlier test's.
   */
  function Classify(line: string): (a: Action)
    ensures a == MarkStarted ==> Contains(line, DONE_MARKER) && Contains(line, HELP_MARKER)
    ensures a == Login ==>
      !(Contains(line, DONE_MARKER) && Contains(line, HELP_MARKER)) && Contains(line, LOGIN_MARKER)
    ensures a == Logout ==>
      !(Contains(line, DONE_MARKER) && Contains(line, HELP_MARKER))
      && Contains(line, LOGOUT_MARKER) && !Contains(line, LOGIN_MARKER)
    ensures a == Stop ==>
      !(Contains(line, DONE_MARKER) && Contains(line, HELP_MARKER))
      && Contains(line, STOP_MARKER) && !Contains(line, LOGIN_MARKER) && !Contains(line, LOGOUT_MARKER)
    ensures a == Ignore ==>
      !(Contains(line, DONE_MARKER) && Contains(line, HELP_MARKER))
      && !Contains(line, LOGIN_MARKER) && !Contains(line, LOGOUT_MARKER) && !Contains(line, STOP_MARKER)
  {
    if Contains(line, DONE_MARKER) && Contains(line, HELP_MARKER) then MarkStarted
    else if Contains(line, LOGIN_MARKER) then Login
    else if Contains(line, LOGOUT_MARKER) then Logout
    else if Contains(line, STOP_MARKER) then Stop
    else Ignore
  }

  /** The order of the tests decides which handler a line with several markers reaches. */
  lemma ClassifyFirstMatch(line: string)
    ensures Classify(line) == MarkStarted <==> Contains(line, DONE_MARKER) && Contains(line, HELP_MARKER)
    ensures Classify(line) == Login <==>
      !(Contains(line, DONE_MARKER) && Contains(line, HELP_MARKER)) && Contains(line, LOGIN_MARKER)
    ensures Classify(line) == Logout <==>
      !(Contains(line, DONE_MARKER) && Contains(line, HELP_MARKER)) && !Contains(line, LOGIN_MARKER)
      && Contains(line, LOGOUT_MARKER)
    ensures Classify(line) == Stop <==>
      !(Contains(line, DONE_MARKER) && Contains(line, HELP_MARKER)) && !Contains(line, LOGIN_MARKER)
      && !Contains(line, LOGOUT_MARKER) && Contains(line, STOP_MARKER)
    ensures Classify(line) == Ignore <==>
      !(Contains(line, DONE_MARKER) && Contains(line, HELP_MARKER)) && !Contains(line, LOGIN_MARKER)
      && !Contains(line, LOGOUT_MARKER) && !Contains(line, STOP_MARKER)
  {
  }

  /** An empty read is given to the dispatch too, and nothing handles it. */
  lemma EmptyLineIgnored()
    ensures Classify("") == Ignore
  {
    AbsentCharNotContained("", LOGIN_MARKER, 'l');
    AbsentCharNotContained("", LOGOUT_MARKER, 'l');
    AbsentCharNotContained("", STOP_MARKER, 'S');
    AbsentCharNotContained("", HELP_MARKER, 'F');
  }

  /** `line.split(' ')[n]`, or None where Python raises IndexError. */
  function Token(line: string, n: nat): (t: Option<string>)
    ensures t.Some? <==> n < |Split(line, ' ')|
    ensures t.Some? ==> t.value == Split(line, ' ')[n] && ' ' !in t.value
  {
    var parts := Split(line, ' ');
    if n < |parts| then Some(parts[n]) else None
  }

  /**
   * `get_logged_in_user`: the fourth token, cut before its first `[`, stripped.
   * It fails exactly when the line has fewer than four tokens, and a name it
   * returns holds neither a space nor a `[`.
   */
  function LoggedInUser(line: string): (u: Option<string>)
    ensures u.Some? <==> Token(line, 3).Some?
    ensures u.Some? ==> ' ' !in u.value && '[' !in u.value && IsStripped(u.value)
  {
    match Token(line, 3)
    case None => None
    case Some(t) =>
      var cut := SliceTo(t, Find(t, '['));
      assert '[' !in cut && ' ' !in cut;
      var u := Strip(cut);
      assert forall c :: c in u ==> c in cut;
      Some(u)
  }

  /**
   * `get_logged_out_user`: the fourth token, stripped. It fails exactly when
   * the line has fewer than four tokens.
   */
  function LoggedOutUser(line: string): (u: Option<string>)
    ensures u.Some? <==> Token(line, 3).Some?
    ensures u.Some? ==> ' ' !in u.value && IsStripped(u.value)
  {
    match Token(line, 3)
    case None => None
    case Some(t) =>
      var u := Strip(t);
      assert forall c :: c in u ==> c in t;
      Some(u)
  }

  /** A leading space-free token shifts the later tokens by one. */
  lemma TokenAfter(t: string, rest: string, n: nat)
    requires ' ' !in t
    ensures Token(t + " " + rest, n + 1) == Token(rest, n)
  {
    SplitAfter(t, ' ', rest);
  }

  /** A space-free token followed by nothing or by a space is the first token. */
  lemma FirstToken(t: string, rest: string)
    requires ' ' !in t
    requires rest == [] || rest[0] == ' '
    ensures Token(t + rest, 0) == Some(t)
  {
    if rest == [] {
      assert t + rest == t;
    } else {
      assert t + rest == t + " " + rest[1..];
      SplitAfter(t, ' ', rest[1..]);
    }
  }

  /** The fourth `' '`-separated token of a line built from four space-free tokens. */
  lemma FourthToken(t0: string, t1: string, t2: string, t3: string, rest: string)
    requires ' ' !in t0 && ' ' !in t1 && ' ' !in t2 && ' ' !in t3
    requires rest == [] || rest[0] == ' '
    ensures Token(t0 + " " + (t1 + " " + (t2 + " " + (t3 + rest))), 3) == Some(t3)
  {
    TokenAfter(t0, t1 + " " + (t2 + " " + (t3 + rest)), 2);
    TokenAfter(t1, t2 + " " + (t3 + rest), 1);
    TokenAfter(t2, t3 + rest, 0);
    FirstToken(t3, rest);
  }

  /** A login line yields the name written before the connection details in brackets. */
  lemma LoggedInUserOfLine(t0: string, t1: string, t2: string, user: string, address: string, rest: string)
    requires ' ' !in t0 && ' ' !in t1 && ' ' !in t2
    requires ' ' !in user && '[' !in user && IsStripped(user) && ' ' !in address
    requires rest == [] || rest[0] == ' '
    ensures LoggedInUser(t0 + " " + (t1 + " " + (t2 + " " + (user + "[" + address + rest)))) == Some(user)
  {
    var t3 := user + "[" + address;
    assert user + "[" + address + rest == t3 + rest;
    FourthToken(t0, t1, t2, t3, rest);
    FindAfter(user, '[', address);
    assert SliceTo(t3, |user|) == user;
  }

  /** A fourth token without `[` loses its last character: `find` gives -1 and `[:-1]` drops one. */
  lemma LoggedInUserWithoutBracket(line: string)
    requires Token(line, 3).Some? && '[' !in Token(line, 3).value && Token(line, 3).value != []
    ensures var t := Token(line, 3).value; LoggedInUser(line) == Some(Strip(t[..|t| - 1]))
  {
  }

  /** A logout line yields the token before "left the game", stripped. */
  lemma LoggedOutUserOfLine(t0: string, t1: string, t2: string, user: string, rest: string)
    requires ' ' !in t0 && ' ' !in t1 && ' ' !in t2 && ' ' !in user
    requires rest == [] || rest[0] == ' '
    ensures LoggedOutUser(t0 + " " + (t1 + " " + (t2 + " " + (user + rest)))) == Some(Strip(user))
  {
    FourthToken(t0, t1, t2, user, rest);
  }

  /** A line with fewer than four tokens makes both parsers raise IndexError. */
  lemma ShortLineHasNoUser(line: string)
    requires |Split(line, ' ')| < 4
    ensures LoggedInUser(line) == None && LoggedOutUser(line) == None
  {
  }

  /** The sample lines of the parsers' documentation, written token by token. */
  const LOGIN_TAIL := " " + LOGIN_MARKER + " with entity id 1045" + " at ([world]3149.9607332168316," + " 68.0, 1324.5869047878969)"
  const LOGIN_SAMPLE := "[00:20:08]" + " " + ("[Server" + " " + ("thread/INFO]:" + " " + ("wooster2011" + "[" + "/99.144.124.104:54215]" + LOGIN_TAIL)))
  const LOGOUT_SAMPLE := "[00:20:19]" + " " + ("[Server" + " " + ("thread/INFO]:" + " " + ("wooster2011" + (" " + LOGOUT_MARKER))))
}
