/**
 * What the client and the server agree on: the client's LOGIN payload is parsed
 * back into what the user typed, every handshake reply is read as intended, the
 * roster string the server builds is parsed back into the names it lists, and
 * the client's outgoing formats are routed by the server as meant.
 */
module RoundTrips {
  import opened Wrappers
  import opened Text
  import opened Transport
  import opened ServerProtocol
  import Credentials
  import LoginClient
  import ChatClient

  /** The server reads the client's LOGIN payload back into the username and the
      password, whatever the password holds, as long as the username has no ':'. */
  lemma LoginRoundTrip(username: string, password: string)
    requires ':' !in username
    ensures ParseLogin(LoginClient.LoginPayload(username, password)) == LoginAttempt(username, password)
  {
    ParseLoginInverse(username, password);
  }

  /** A user who types a stored username (possibly padded with white space) and its
      password, and whose name no other session holds, is accepted under the
      stored name. */
  lemma StoredUserLogsIn(lines: seq<string>, usernameText: string, password: string, others: seq<string>)
    requires Credentials.FirstEntry(lines, Trim(usernameText)) == Some(password)
    requires !NameTaken(others, Trim(usernameText))
    ensures LoginClient.ValidateInput(usernameText, password) == Some((Trim(usernameText), password))
    ensures Handshake(Data(LoginClient.LoginPayload(Trim(usernameText), password)),
                      Credentials.LoadLines(map[], lines), others)
            == Accepted(Trim(usernameText))
  {
    var username := Trim(usernameText);
    var users := Credentials.LoadLines(map[], lines);
    Credentials.AcceptsFirstPair(lines, username, password);
    Credentials.LoadWellFormed(map[], lines);
    assert Credentials.WellFormedField(username) && Credentials.WellFormedField(password);
    HandshakeOnLogin(username, password, users, others);
  }

  /** A password other than the stored one, or an unknown name, gets LOGIN_FAILED,
      which the client reads as a failed login. */
  lemma WrongPasswordFails(lines: seq<string>, username: string, password: string, others: seq<string>)
    requires ':' !in username
    requires Credentials.FirstEntry(lines, username) != Some(password)
    ensures Handshake(Data(LoginClient.LoginPayload(username, password)),
                      Credentials.LoadLines(map[], lines), others)
            == Rejected(LoginFailedReply)
    ensures LoginClient.ClassifyResponse(LoginFailedReply) == LoginClient.Failed
  {
    Credentials.AcceptsFirstPair(lines, username, password);
    HandshakeOnLogin(username, password, Credentials.LoadLines(map[], lines), others);
    CredentialRepliesClassified();
  }

  /** A reply is told apart from the prefixes it does not carry by its seventh
      character, the one after "LOGIN_". */
  lemma ClassifiedByPrefix(prefix: string, rest: string)
    requires prefix in [LoginClient.SuccessPrefix, LoginClient.FailedPrefix, LoginClient.AlreadyLoggedInPrefix,
                        LoginClient.RequiredPrefix, LoginClient.ErrorPrefix]
    ensures var seen := LoginClient.ClassifyResponse(prefix + rest);
      && (prefix == LoginClient.SuccessPrefix ==> seen == LoginClient.Success)
      && (prefix == LoginClient.FailedPrefix ==> seen == LoginClient.Failed)
      && (prefix == LoginClient.AlreadyLoggedInPrefix ==> seen == LoginClient.AlreadyLoggedIn)
      && (prefix == LoginClient.RequiredPrefix ==> seen == LoginClient.Required)
      && (prefix == LoginClient.ErrorPrefix ==> seen == LoginClient.ServerError(Trim(rest)))
  {
    var response := prefix + rest;
    StartsWithConcat(prefix, rest);
    assert response[6] == prefix[6];
    if prefix != LoginClient.SuccessPrefix { DiffersAt(response, LoginClient.SuccessPrefix, 6); }
    if prefix != LoginClient.FailedPrefix { DiffersAt(response, LoginClient.FailedPrefix, 6); }
    if prefix != LoginClient.AlreadyLoggedInPrefix { DiffersAt(response, LoginClient.AlreadyLoggedInPrefix, 6); }
    if prefix != LoginClient.RequiredPrefix { DiffersAt(response, LoginClient.RequiredPrefix, 6); }
    assert response[|prefix|..] == rest;
  }

  /** How the client reads the replies to a well-formed LOGIN payload. */
  lemma CredentialRepliesClassified()
    ensures LoginClient.ClassifyResponse(LoginSuccessReply) == LoginClient.Success
    ensures LoginClient.ClassifyResponse(LoginFailedReply) == LoginClient.Failed
    ensures LoginClient.ClassifyResponse(AlreadyLoggedInReply) == LoginClient.AlreadyLoggedIn
  {
    assert LoginClient.ClassifyResponse(LoginSuccessReply) == LoginClient.Success by {
      ClassifiedByPrefix(LoginClient.SuccessPrefix, []);
      assert LoginSuccessReply == LoginClient.SuccessPrefix + [];
    }
    assert LoginClient.ClassifyResponse(LoginFailedReply) == LoginClient.Failed by {
      ClassifiedByPrefix(LoginClient.FailedPrefix, []);
      assert LoginFailedReply == LoginClient.FailedPrefix + [];
    }
    assert LoginClient.ClassifyResponse(AlreadyLoggedInReply) == LoginClient.AlreadyLoggedIn by {
      ClassifiedByPrefix(LoginClient.AlreadyLoggedInPrefix, []);
      assert AlreadyLoggedInReply == LoginClient.AlreadyLoggedInPrefix + [];
    }
  }

  /** The reply to a first payload that is not a LOGIN payload is read as a
      request to log in. */
  lemma RequiredReplyClassified()
    ensures LoginClient.ClassifyResponse(LoginRequiredReply) == LoginClient.Required
  {
    ClassifiedByPrefix(LoginClient.RequiredPrefix, ": " + LoginRequiredDetail);
    RequiredReplyShape();
  }

  /** The login-required reply is the client's prefix followed by its detail. */
  lemma RequiredReplyShape()
    ensures LoginRequiredReply == LoginClient.RequiredPrefix + (": " + LoginRequiredDetail)
  {
  }

  /** The reply to a malformed LOGIN payload is read as a server error whose detail
      is the text after the prefix. */
  lemma FormatErrorReplyClassified()
    ensures LoginClient.ClassifyResponse(LoginFormatErrorReply) == LoginClient.ServerError(LoginFormatErrorDetail)
  {
    ErrorDetailRead(LoginFormatErrorDetail);
    FormatErrorReplyShape();
  }

  /** The format-error reply is the client's error prefix, a space and the detail. */
  lemma FormatErrorReplyShape()
    ensures LoginFormatErrorReply == LoginClient.ErrorPrefix + (" " + LoginFormatErrorDetail)
  {
  }

  /** A `LOGIN_ERROR: detail` reply shows exactly the detail, when the detail is
      non-empty with no white space at either end. */
  lemma ErrorDetailRead(detail: string)
    requires detail != [] && IsTrimmed(detail)
    ensures LoginClient.ClassifyResponse(LoginClient.ErrorPrefix + (" " + detail)) == LoginClient.ServerError(detail)
  {
    ClassifiedByPrefix(LoginClient.ErrorPrefix, " " + detail);
    LeadingSpaceTrimmed(detail);
  }

  /** Every handshake reply is read by the client as the server meant it: only an
      acceptance opens the chat window, only LOGIN_REQUIRED keeps the socket, and no
      reply is taken as unexpected. */
  lemma ClientReadsHandshake(first: ReadResult, users: map<string, string>, others: seq<string>)
    ensures var outcome := Handshake(first, users, others);
      HandshakeReply(outcome).Some? ==>
        var seen := LoginClient.ClassifyResponse(HandshakeReply(outcome).value);
        && (seen == LoginClient.Success <==> outcome.Accepted?)
        && (seen == LoginClient.Required <==> outcome == Rejected(LoginRequiredReply))
        && (outcome == Rejected(LoginFailedReply) ==> seen == LoginClient.Failed)
        && (outcome == Rejected(AlreadyLoggedInReply) ==> seen == LoginClient.AlreadyLoggedIn)
        && (outcome == Rejected(LoginFormatErrorReply) ==> seen == LoginClient.ServerError(LoginFormatErrorDetail))
        && !seen.Unexpected?
  {
    CredentialRepliesClassified();
    RequiredReplyClassified();
    FormatErrorReplyClassified();
  }

  /** The roster string is the client's tag, a space, then the joined names. */
  lemma RosterMessageShape(names: seq<string>)
    ensures StartsWith(ActiveUsersMessage(names), ChatClient.ActiveUsersTag)
    ensures ActiveUsersMessage(names)[|ChatClient.ActiveUsersTag|..] == " " + Join(names, ',')
  {
    var joined := Join(names, ',');
    assert ActiveUsersPrefix == ChatClient.ActiveUsersTag + " ";
    StartsWithConcat(ChatClient.ActiveUsersTag, " " + joined);
    assert ActiveUsersMessage(names) == ChatClient.ActiveUsersTag + (" " + joined);
  }

  /** Parsing the server's roster string gives back the names it lists, in order,
      without one's own, when every name is non-empty, has no white space at either
      end and no ','. */
  lemma RosterRoundTrip(names: seq<string>, me: string)
    requires forall n | n in names :: n != [] && IsTrimmed(n) && ',' !in n
    ensures StartsWith(ActiveUsersMessage(names), ChatClient.ActiveUsersTag)
    ensures ChatClient.RosterEntries(ActiveUsersMessage(names)[|ChatClient.ActiveUsersTag|..], me)
            == ChatClient.Others(names, me)
  {
    var message := ActiveUsersMessage(names);
    var usersString := message[|ChatClient.ActiveUsersTag|..];
    RosterMessageShape(names);
    if names == [] {
      SplitNoSep(" ", ',');
      assert ChatClient.KeepEntries([" "], me) == ChatClient.KeepEntries([], me) + ChatClient.KeepEntry(" ", me);
    } else {
      var head := " " + names[0];
      var parts := [head] + names[1..];
      JoinHead(" ", names, ',');
      assert names[0] in names;
      assert forall p | p in parts :: ',' !in p by {
        forall p | p in parts ensures ',' !in p {
          if p != head { assert p in names; }
        }
      }
      SplitJoin(parts, ',');
      assert ChatClient.RosterEntries(usersString, me) == ChatClient.KeepEntries(parts, me);
      ChatClient.KeepEntriesAppend([head], names[1..], me);
      LeadingSpaceTrimmed(names[0]);
      var first := if names[0] != me then [names[0]] else [];
      assert ChatClient.KeepEntry(head, me) == first;
      assert ChatClient.KeepEntries([head], me) == ChatClient.KeepEntries([], me) + ChatClient.KeepEntry(head, me);
      assert ChatClient.KeepEntries([head], me) == first;
      assert forall n | n in names[1..] :: n in names;
      ChatClient.KeepWellFormed(names[1..], me);
      var rest := ChatClient.KeepEntries(names[1..], me);
      assert ChatClient.KeepEntries(parts, me) == first + rest;
      assert ChatClient.Others(names, me) == first + ChatClient.Others(names[1..], me);
    }
  }

  /** The server's own texts never carry the roster tag, so the client logs each
      of them verbatim. */
  lemma ServerTextsLogged(sender: string, content: string, recipient: string, username: string)
    ensures ChatClient.LogLines(Data(PrivateText(sender, content))) == [PrivateText(sender, content)]
    ensures ChatClient.LogLines(Data(NotFoundReply(recipient))) == [NotFoundReply(recipient)]
    ensures ChatClient.LogLines(Data(DepartureNotice(username))) == [DepartureNotice(username)]
  {
    DiffersAt(PrivateText(sender, content), ChatClient.ActiveUsersTag, 0);
    DiffersAt(NotFoundReply(recipient), ChatClient.ActiveUsersTag, 0);
    DiffersAt(DepartureNotice(username), ChatClient.ActiveUsersTag, 0);
  }

  /** A user's chat line that starts with the roster tag is broadcast verbatim, and
      every client takes it for a roster: it replaces the roster and is not logged. */
  lemma RosterTagBroadcast(text: string, roster: seq<string>, me: string)
    requires StartsWith(text, ChatClient.ActiveUsersTag)
    ensures Route(text) == Broadcast(text)
    ensures ChatClient.LogLines(Data(text)) == []
    ensures ChatClient.RosterStep(roster, Data(text), me) == ChatClient.RosterEntries(text[|ChatClient.ActiveUsersTag|..], me)
  {
    DiffersAt(text, "@", 0);
    DiffersAt(ToUpper(text), DisconnectCommand, 0);
  }

  /** A recipient picked from the roster, when it has no space, gets the text as a
      private message; with no recipient the text is broadcast verbatim unless it
      starts with '@' or reads DISCONNECT in some letter case. */
  lemma OutgoingRoute(usersString: string, me: string, recipient: Option<string>, text: string)
    requires recipient.Some? ==> recipient.value in ChatClient.RosterEntries(usersString, me) && ' ' !in recipient.value
    ensures var command := Route(ChatClient.FormatOutgoing(recipient, text));
      if recipient.Some? then command == Private(recipient.value, text)
      else
        && (command == Broadcast(text) <==> !StartsWith(text, "@") && ToUpper(text) != DisconnectCommand)
        && (command == Disconnect <==> ToUpper(text) == DisconnectCommand)
  {
    if recipient.Some? {
      var r := recipient.value;
      var users := ChatClient.RosterUsers(usersString);
      ChatClient.KeepEntriesWellFormed(users, me);
      assert r != [] && IsTrimmed(r);
      assert !IsBlank(r) by { assert !IsWhiteSpace(r[0]); }
      RouteInverse(r, text);
    }
  }

  /** A roster name holding a space is cut at that space by the server: the text
      for `john doe` is routed as a private message for `john` whose content
      starts with `doe`. */
  lemma SpacedRecipientSplit()
    ensures Route(ChatClient.FormatOutgoing(Some("john doe"), "hi")) == Private("john", "doe hi")
  {
    assert ChatClient.FormatOutgoing(Some("john doe"), "hi") == "@" + "john" + " " + "doe hi";
    assert !IsBlank("john") by { assert "john"[0] == 'j' && !IsWhiteSpace('j'); }
    RouteInverse("john", "doe hi");
  }

  /** Closing the chat window sends the command that ends the server's session. */
  lemma ClosingEndsSession()
    ensures Route(ChatClient.DisconnectMessage) == Disconnect
    ensures EndsSession(Data(ChatClient.DisconnectMessage))
  {
    assert ToUpper(ChatClient.DisconnectMessage) == DisconnectCommand;
  }
}
