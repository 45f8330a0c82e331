/**
 * The decisions the server takes on a received string, free of any state:
 * the LOGIN handshake of WpfServer/ClientHandler.cs (AuthenticateClientAsync),
 * the per-payload dispatch of its receive loop (HandleClientAsync) and the texts
 * WpfServer/MainWindow.xaml.cs sends.
 */
module ServerProtocol {
  import opened Wrappers
  import opened Text
  import opened Transport
  import Credentials

  const LoginPrefix: string := "LOGIN:"
  const LoginSuccessReply: string := "LOGIN_SUCCESS"
  const LoginFailedReply: string := "LOGIN_FAILED"
  const AlreadyLoggedInReply: string := "LOGIN_ALREADY_LOGGED_IN"
  const LoginFormatErrorDetail: string := "Hibás LOGIN formátum."
  const LoginFormatErrorReply: string := "LOGIN_ERROR: " + LoginFormatErrorDetail
  const LoginRequiredDetail: string := "Kérlek, először jelentkezz be."
  const LoginRequiredReply: string := "LOGIN_REQUIRED: " + LoginRequiredDetail
  const DisconnectCommand: string := "DISCONNECT"
  const MissingSpaceReply: string :=
    "Szerver: Hibás privát üzenet formátum. Használat: @Felhasználónév ÜzenetSzövege"
  const MissingRecipientReply: string :=
    "Szerver: Hibás privát üzenet formátum. Nincs megadva címzett felhasználónév az '@' után."
  const ActiveUsersPrefix: string := "ACTIVE_USERS: "

  /** What the first payload of a connection asks for. */
  datatype LoginRequest = NotLogin | MalformedLogin | LoginAttempt(username: string, password: string)

  /** `LOGIN:` followed by the username up to the next ':' and the password, which
      is the whole rest and may itself hold ':'. */
  function ParseLogin(payload: string): (r: LoginRequest)
    ensures r.NotLogin? <==> !StartsWith(payload, LoginPrefix)
    ensures r.MalformedLogin? <==> StartsWith(payload, LoginPrefix) && Count(payload, ':') < 2
    ensures r.LoginAttempt? ==>
      payload == LoginPrefix + r.username + ":" + r.password && ':' !in r.username
  {
    if StartsWith(payload, LoginPrefix) then
      var parts := SplitN(payload, ':', 3);
      if |parts| == 3 then
        LoginPartsShape(payload);
        LoginAttempt(parts[1], parts[2])
      else MalformedLogin
    else NotLogin
  }

  /** A three-part split of a `LOGIN:` payload puts "LOGIN" first and the username
      and password after it. */
  lemma LoginPartsShape(payload: string)
    requires StartsWith(payload, LoginPrefix)
    requires |SplitN(payload, ':', 3)| == 3
    ensures var parts := SplitN(payload, ':', 3);
      payload == LoginPrefix + parts[1] + ":" + parts[2] && ':' !in parts[1]
  {
    var rest := payload[|LoginPrefix|..];
    assert payload == LoginPrefix + rest by {
      assert payload == payload[..|LoginPrefix|] + rest;
    }
    LoginPrefixShape();
    SplitNThree("LOGIN", rest, ':');
  }

  /** The LOGIN prefix is a separator-free command name and a ':'. */
  lemma LoginPrefixShape()
    ensures LoginPrefix == "LOGIN" + [':'] && ':' !in "LOGIN"
  {
  }

  /** Every `LOGIN:user:password` with no ':' in the username is read back exactly. */
  lemma ParseLoginInverse(username: string, password: string)
    requires ':' !in username
    ensures ParseLogin(LoginPrefix + username + ":" + password) == LoginAttempt(username, password)
  {
    var payload := LoginPrefix + username + ":" + password;
    assert payload == "LOGIN" + [':'] + (username + [':'] + password);
    SplitNAtFirst("LOGIN", username + [':'] + password, ':', 3);
    SplitNAtFirst(username, password, ':', 2);
    assert StartsWith(payload, LoginPrefix);
    var r := ParseLogin(payload);
    FirstSeparatorUnique(username, password, r.username, r.password, ':');
  }

  /** The verdict of the handshake on the first read. */
  datatype HandshakeOutcome = NoReply | Rejected(reply: string) | Accepted(username: string)

  /** The duplicate-login check: some other authenticated handler already holds the
      name, ignoring case. */
  predicate NameTaken(others: seq<string>, username: string) {
    exists n | n in others :: EqualsIgnoreCase(n, username)
  }

  /** AuthenticateClientAsync's decision tree, given the credential store and the
      names held by the other authenticated handlers. */
  function Handshake(first: ReadResult, users: map<string, string>, others: seq<string>): (r: HandshakeOutcome)
    ensures r.NoReply? <==> !first.Data?
    ensures r.Accepted? ==>
      && first.Data?
      && ParseLogin(first.payload).LoginAttempt?
      && ParseLogin(first.payload).username == r.username
      && Credentials.Accepts(users, r.username, ParseLogin(first.payload).password)
      && !NameTaken(others, r.username)
    ensures r.Rejected? ==>
      r.reply in {LoginRequiredReply, LoginFormatErrorReply, LoginFailedReply, AlreadyLoggedInReply}
    ensures r == Rejected(LoginRequiredReply) <==> first.Data? && !StartsWith(first.payload, LoginPrefix)
    ensures r == Rejected(LoginFormatErrorReply) <==>
      first.Data? && StartsWith(first.payload, LoginPrefix) && Count(first.payload, ':') < 2
  {
    match first
    case Closed => NoReply
    case Error => NoReply
    case Data(payload) =>
      match ParseLogin(payload)
      case NotLogin => Rejected(LoginRequiredReply)
      case MalformedLogin => Rejected(LoginFormatErrorReply)
      case LoginAttempt(username, password) =>
        if !Credentials.Accepts(users, username, password) then Rejected(LoginFailedReply)
        else if NameTaken(others, username) then Rejected(AlreadyLoggedInReply)
        else Accepted(username)
  }

  /** The text the server writes back for a handshake outcome. */
  function HandshakeReply(outcome: HandshakeOutcome): Option<string> {
    match outcome
    case NoReply => None
    case Rejected(reply) => Some(reply)
    case Accepted(_) => Some(LoginSuccessReply)
  }

  /** For a well-formed LOGIN payload the handshake answers LOGIN_FAILED on wrong
      credentials, LOGIN_ALREADY_LOGGED_IN on a name held by another handler, and
      accepts otherwise. */
  lemma HandshakeOnLogin(username: string, password: string, users: map<string, string>, others: seq<string>)
    requires ':' !in username
    ensures var payload := LoginPrefix + username + ":" + password;
      Handshake(Data(payload), users, others) ==
        if !Credentials.Accepts(users, username, password) then Rejected(LoginFailedReply)
        else if NameTaken(others, username) then Rejected(AlreadyLoggedInReply)
        else Accepted(username)
  {
    ParseLoginInverse(username, password);
  }

  /** An accepted name came from the credential store, so it is well formed. */
  lemma AcceptedNameWellFormed(first: ReadResult, lines: seq<string>, others: seq<string>)
    requires Handshake(first, Credentials.LoadLines(map[], lines), others).Accepted?
    ensures Credentials.WellFormedField(Handshake(first, Credentials.LoadLines(map[], lines), others).username)
  {
    Credentials.LoadWellFormed(map[], lines);
  }

  /** What the receive loop does with one payload. */
  datatype Command =
    | Disconnect
    | Private(recipient: string, content: string)
    | PrivateFormatError(reply: string)
    | Broadcast(message: string)

  /** The cut of an `@` payload at its first space. */
  lemma AtSplitShape(payload: string)
    requires StartsWith(payload, "@")
    requires |SplitN(payload, ' ', 2)| == 2
    ensures var parts := SplitN(payload, ' ', 2);
      |parts[0]| >= 1 && payload == "@" + parts[0][1..] + " " + parts[1] && ' ' !in parts[0]
  {
    var parts := SplitN(payload, ' ', 2);
    SplitNTwo(payload, ' ');
    assert parts[0] == [parts[0][0]] + parts[0][1..];
  }

  /** HandleClientAsync's dispatch: DISCONNECT in any letter case first, then `@`
      payloads, everything else is broadcast as received. */
  function Route(payload: string): (c: Command)
    ensures c.Disconnect? <==> ToUpper(payload) == DisconnectCommand
    ensures c.Broadcast? <==> ToUpper(payload) != DisconnectCommand && !StartsWith(payload, "@")
    ensures c.Broadcast? ==> c.message == payload
  {
    if ToUpper(payload) == DisconnectCommand then Disconnect
    else if StartsWith(payload, "@") then AtCommand(payload)
    else Broadcast(payload)
  }

  /** The `@` branch of the dispatch: the recipient runs from after the '@' to the
      first space and the content is the whole rest; a payload without a space, or
      with a blank recipient, gets one of the two format replies. */
  function AtCommand(payload: string): (c: Command)
    requires StartsWith(payload, "@")
    ensures c.Private? || c.PrivateFormatError?
    ensures c.Private? ==>
      payload == "@" + c.recipient + " " + c.content && ' ' !in c.recipient && !IsBlank(c.recipient)
    ensures c.PrivateFormatError? ==>
      && (c.reply == MissingSpaceReply <==> ' ' !in payload)
      && (c.reply == MissingSpaceReply || c.reply == MissingRecipientReply)
  {
    var parts := SplitN(payload, ' ', 2);
    if |parts| == 2 then
      AtSplitShape(payload);
      var recipientUsername := parts[0][1..];
      var privateMessageContent := parts[1];
      if !IsBlank(recipientUsername) then Private(recipientUsername, privateMessageContent)
      else PrivateFormatError(MissingRecipientReply)
    else PrivateFormatError(MissingSpaceReply)
  }

  /** `@name text` with a non-blank, space-free name is always a private message
      carrying exactly `text`. */
  lemma RouteInverse(recipient: string, content: string)
    requires ' ' !in recipient && !IsBlank(recipient)
    ensures Route("@" + recipient + " " + content) == Private(recipient, content)
  {
    var head := "@" + recipient;
    var payload := head + " " + content;
    assert ' ' !in head by {
      assert head == ['@'] + recipient;
    }
    SplitNAtFirst(head, content, ' ', 2);
    assert SplitN(content, ' ', 1) == [content];
    assert ToUpper(payload)[0] == '@';
    assert StartsWith(payload, "@") by {
      assert payload[..1] == "@";
    }
    assert head[1..] == recipient;
  }

  /** The session ends on a zero-byte read, an error or the disconnect command. */
  predicate EndsSession(r: ReadResult) {
    r.Closed? || r.Error? || ToUpper(r.payload) == DisconnectCommand
  }

  /** `[sender] (privát): text`, the wrapper of a private message. */
  function PrivateText(sender: string, content: string): string {
    "[" + sender + "] (privát): " + content
  }

  /** The wrapper opens with the bracketed sender and carries the content verbatim
      at its end. */
  lemma PrivateTextShape(sender: string, content: string)
    ensures StartsWith(PrivateText(sender, content), "[" + sender + "]")
    ensures var r := PrivateText(sender, content); |content| <= |r| && r[|r| - |content|..] == content
  {
  }

  /** The reply to a sender whose recipient is not online. */
  function NotFoundReply(recipient: string): string {
    "Szerver: A felhasználó '" + recipient + "' nem található vagy nincs online."
  }

  /** The reply is a server line that names the recipient between quotes. */
  lemma NotFoundReplyShape(recipient: string)
    ensures StartsWith(NotFoundReply(recipient), "Szerver: ")
    ensures var r, at := NotFoundReply(recipient), |"Szerver: A felhasználó '"|;
      at + |recipient| < |r| && r[at - 1] == '\'' && r[at..at + |recipient|] == recipient && r[at + |recipient|] == '\''
  {
  }

  /** The notice broadcast when an authenticated user leaves. */
  function DepartureNotice(username: string): string {
    "[" + username + "] lecsatlakozott a chatről."
  }

  /** The notice opens with the bracketed name of the user who left. */
  lemma DepartureNoticeShape(username: string)
    ensures StartsWith(DepartureNotice(username), "[" + username + "]")
  {
  }

  /** The roster push: the prefix, including its space, then the names comma-joined. */
  function ActiveUsersMessage(names: seq<string>): string {
    ActiveUsersPrefix + Join(names, ',')
  }

  /** The roster opens with its prefix; with no names it is the prefix alone, and
      for comma-free names the rest splits back into the names. */
  lemma ActiveUsersMessageSplits(names: seq<string>)
    ensures StartsWith(ActiveUsersMessage(names), ActiveUsersPrefix)
    ensures names == [] ==> ActiveUsersMessage(names) == ActiveUsersPrefix
    ensures names != [] && (forall n | n in names :: ',' !in n) ==>
      Split(ActiveUsersMessage(names)[|ActiveUsersPrefix|..], ',') == names
  {
    assert ActiveUsersMessage(names)[|ActiveUsersPrefix|..] == Join(names, ',');
    if names != [] && (forall n | n in names :: ',' !in n) {
      SplitJoin(names, ',');
    }
  }

  /** How a possibly null username prints inside an interpolated string. */
  function UserLabel(username: Option<string>): string {
    if username.Some? then username.value else ""
  }
}
