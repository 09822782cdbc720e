/**
 * The sample lines in the documentation of the two parsers, classified and
 * parsed as `handle_log`, `get_logged_in_user` and `get_logged_out_user` do.
 * Facts about the literal pieces are kept in separate small lemmas.
 */
module ClassifierSamples {
  import opened Wrappers
  import opened PyText
  import opened Classifier

  /** The documented login line is a login of "wooster2011". */
  lemma LoginSample()
    ensures Classify(LOGIN_SAMPLE) == Login
    ensures LoggedInUser(LOGIN_SAMPLE) == Some("wooster2011")
  {
    LoginSampleHasNoHelpMarker();
    LoginSampleHasLoginMarker();
    LoginSampleUser();
  }

  lemma LoginSampleUser()
    ensures LoggedInUser(LOGIN_SAMPLE) == Some("wooster2011")
  {
    LoggedInUserOfLine("[00:20:08]", "[Server", "thread/INFO]:", "wooster2011", "/99.144.124.104:54215]", LOGIN_TAIL);
  }

  lemma QuoteInHelpMarker()
    ensures '"' in HELP_MARKER
  {
    assert HELP_MARKER[15] == '"';
  }

  lemma NoQuoteInLoginTail()
    ensures '"' !in LOGIN_TAIL
  {
    NoQuoteInPieces();
  }

  lemma NoQuoteInPieces()
    ensures '"' !in " with entity id 1045"
    ensures '"' !in " at ([world]3149.9607332168316,"
    ensures '"' !in " 68.0, 1324.5869047878969)"
  {
  }

  lemma LoginSampleHasNoHelpMarker()
    ensures !Contains(LOGIN_SAMPLE, HELP_MARKER)
  {
    QuoteInHelpMarker();
    NoQuoteInLoginTail();
    assert '"' !in "/99.144.124.104:54215]";
    AbsentCharNotContained(LOGIN_SAMPLE, HELP_MARKER, '"');
  }

  lemma LoginSampleHasLoginMarker()
    ensures Contains(LOGIN_SAMPLE, LOGIN_MARKER)
  {
    assert MatchAt(" " + LOGIN_MARKER, LOGIN_MARKER, 1);
    ContainsExtended("", " " + LOGIN_MARKER, " with entity id 1045", LOGIN_MARKER);
    ContainsExtended("", " " + LOGIN_MARKER + " with entity id 1045", " at ([world]3149.9607332168316,", LOGIN_MARKER);
    ContainsExtended("", " " + LOGIN_MARKER + " with entity id 1045" + " at ([world]3149.9607332168316,", " 68.0, 1324.5869047878969)", LOGIN_MARKER);
    ContainsExtended("wooster2011" + "[" + "/99.144.124.104:54215]", LOGIN_TAIL, "", LOGIN_MARKER);
    var t3 := "wooster2011" + "[" + "/99.144.124.104:54215]" + LOGIN_TAIL;
    ContainsExtended("thread/INFO]:" + " ", t3, "", LOGIN_MARKER);
    ContainsExtended("[Server" + " ", "thread/INFO]:" + " " + t3, "", LOGIN_MARKER);
    ContainsExtended("[00:20:08]" + " ", "[Server" + " " + ("thread/INFO]:" + " " + t3), "", LOGIN_MARKER);
  }

  /** The documented logout line is a logout of "wooster2011". */
  lemma LogoutSample()
    ensures Classify(LOGOUT_SAMPLE) == Logout
    ensures LoggedOutUser(LOGOUT_SAMPLE) == Some("wooster2011")
  {
    LogoutSampleLacksOtherMarkers();
    LogoutSampleHasLogoutMarker();
    LogoutSampleUser();
  }

  lemma LogoutSampleUser()
    ensures LoggedOutUser(LOGOUT_SAMPLE) == Some("wooster2011")
  {
    WoosterStripped();
    LogoutSamplePieces();
    LoggedOutUserOfLine("[00:20:19]", "[Server", "thread/INFO]:", "wooster2011", " " + LOGOUT_MARKER);
  }

  /** The first four tokens of the logout sample hold no space, and the rest starts with one. */
  lemma LogoutSamplePieces()
    ensures ' ' !in "[00:20:19]" && ' ' !in "[Server" && ' ' !in "thread/INFO]:" && ' ' !in "wooster2011"
    ensures (" " + LOGOUT_MARKER)[0] == ' '
  {
  }

  lemma WoosterStripped()
    ensures Strip("wooster2011") == "wooster2011"
  {
    WoosterIsStripped();
    StrippedIsFixed("wooster2011");
  }

  lemma WoosterIsStripped()
    ensures IsStripped("wooster2011")
  {
    var user := "wooster2011";
    assert user[0] == 'w' && user[|user| - 1] == '1';
  }

  lemma StrippedIsFixed(s: string)
    requires IsStripped(s)
    ensures Strip(s) == s
  {
  }

  lemma LogoutSampleLacksOtherMarkers()
    ensures !Contains(LOGOUT_SAMPLE, HELP_MARKER) && !Contains(LOGOUT_SAMPLE, LOGIN_MARKER)
  {
    LogoutSampleLacksQuote();
    LogoutSampleLacksLetterI();
  }

  lemma LogoutSampleLacksQuote()
    ensures !Contains(LOGOUT_SAMPLE, HELP_MARKER)
  {
    QuoteInHelpMarker();
    assert '"' !in LOGOUT_MARKER;
    assert '"' !in "wooster2011";
    AbsentCharNotContained(LOGOUT_SAMPLE, HELP_MARKER, '"');
  }

  lemma LogoutSampleLacksLetterI()
    ensures !Contains(LOGOUT_SAMPLE, LOGIN_MARKER)
  {
    assert LOGIN_MARKER[7] == 'i';
    assert 'i' !in LOGOUT_MARKER;
    assert 'i' !in "wooster2011";
    AbsentCharNotContained(LOGOUT_SAMPLE, LOGIN_MARKER, 'i');
  }

  lemma LogoutSampleHasLogoutMarker()
    ensures Contains(LOGOUT_SAMPLE, LOGOUT_MARKER)
  {
    assert MatchAt(" " + LOGOUT_MARKER, LOGOUT_MARKER, 1);
    ContainsExtended("wooster2011", " " + LOGOUT_MARKER, "", LOGOUT_MARKER);
    var t3 := "wooster2011" + (" " + LOGOUT_MARKER);
    ContainsExtended("thread/INFO]:" + " ", t3, "", LOGOUT_MARKER);
    ContainsExtended("[Server" + " ", "thread/INFO]:" + " " + t3, "", LOGOUT_MARKER);
    ContainsExtended("[00:20:19]" + " ", "[Server" + " " + ("thread/INFO]:" + " " + t3), "", LOGOUT_MARKER);
  }
}
