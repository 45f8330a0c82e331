/**
 * The login window of the client (WpfClient/LoginWindow.xaml.cs): input
 * validation, the `LOGIN:` payload, the classification of the server's reply by
 * prefix and what each reply does to the window's socket and login button.
 */
module LoginClient {
  import opened Wrappers
  import opened Text
  import opened Transport
  import ChatClient

  const SuccessPrefix: string := "LOGIN_SUCCESS"
  const FailedPrefix: string := "LOGIN_FAILED"
  const AlreadyLoggedInPrefix: string := "LOGIN_ALREADY_LOGGED_IN"
  const RequiredPrefix: string := "LOGIN_REQUIRED"
  const ErrorPrefix: string := "LOGIN_ERROR:"

  /** How the window reads the server's reply. */
  datatype LoginReply =
    | Success
    | Failed
    | AlreadyLoggedIn
    | Required
    | ServerError(detail: string)
    | Unexpected(response: string)

  /** The prefix chain of LoginButton_Click: the first prefix that matches wins;
      the detail of a LOGIN_ERROR: reply is the rest of it, trimmed. */
  function ClassifyResponse(response: string): (r: LoginReply)
    ensures r.Success? <==> StartsWith(response, SuccessPrefix)
    ensures r.Required? ==> StartsWith(response, RequiredPrefix) && !StartsWith(response, FailedPrefix)
    ensures r.ServerError? ==> StartsWith(response, ErrorPrefix) && r.detail == Trim(response[|ErrorPrefix|..])
    ensures r.Unexpected? <==>
      && !StartsWith(response, SuccessPrefix) && !StartsWith(response, FailedPrefix)
      && !StartsWith(response, AlreadyLoggedInPrefix) && !StartsWith(response, RequiredPrefix)
      && !StartsWith(response, ErrorPrefix)
    ensures r.Unexpected? ==> r.response == response
  {
    if StartsWith(response, SuccessPrefix) then Success
    else if StartsWith(response, FailedPrefix) then Failed
    else if StartsWith(response, AlreadyLoggedInPrefix) then AlreadyLoggedIn
    else if StartsWith(response, RequiredPrefix) then Required
    else if StartsWith(response, ErrorPrefix) then ServerError(Trim(response[|ErrorPrefix|..]))
    else Unexpected(response)
  }

  /** The username as sent (trimmed) and the password as typed, or nothing when
      either is empty. */
  function ValidateInput(usernameText: string, password: string): (r: Option<(string, string)>)
    ensures r.None? <==> IsBlank(usernameText) || password == []
    ensures r.Some? ==> r.value == (Trim(usernameText), password) && r.value.0 != [] && IsTrimmed(r.value.0)
  {
    var username := Trim(usernameText);
    if username == [] || password == [] then None else Some((username, password))
  }

  /** The first payload of a connection. */
  function LoginPayload(username: string, password: string): string {
    "LOGIN:" + username + ":" + password
  }

  /** `LOGIN:`, then the username, ':' and the password, at fixed positions. */
  lemma LoginPayloadShape(username: string, password: string)
    ensures var r := LoginPayload(username, password);
      && StartsWith(r, "LOGIN:") && |r| == 7 + |username| + |password|
      && r[6..6 + |username|] == username && r[6 + |username|] == ':'
      && r[7 + |username|..] == password
  {
    var r := LoginPayload(username, password);
    assert r == "LOGIN:" + (username + ([':'] + password));
  }

  /** What one click of the login button came to. */
  datatype LoginOutcome =
    | InvalidInput
    | ConnectFailed
    | NoAnswer
    | Answered(reply: LoginReply)

  /** The outcomes after which the socket is still held by the window. */
  predicate KeepsSocket(outcome: LoginOutcome) {
    outcome == Answered(Success) || outcome == Answered(Required)
  }

  /** The login window. */
  class LoginWindow {
    var clientSocket: Socket
    var loginEnabled: bool
    /** Everything this window wrote to its socket, in order. */
    var sent: seq<string>
    /** The chat window opened on success; it takes over the socket. */
    var chatWindow: ChatClient.ChatWindow?

    constructor ()
      ensures clientSocket == NoSocket && loginEnabled && sent == [] && chatWindow == null
    {
      clientSocket := NoSocket;
      loginEnabled := true;
      sent := [];
      chatWindow := null;
    }

    /** LoginButton_Click. `connects` says whether a new connection succeeds,
        `sendSucceeds` whether sending the payload completes, and `reply` is the
        one receive made after it. */
    method LoginButtonClick(usernameText: string, password: string, connects: bool, sendSucceeds: bool, reply: ReadResult)
      returns (outcome: LoginOutcome)
      modifies this
      ensures outcome.InvalidInput? <==> ValidateInput(usernameText, password).None?
      ensures outcome.InvalidInput? ==>
        clientSocket == old(clientSocket) && loginEnabled == old(loginEnabled) && sent == old(sent)
      ensures outcome.ConnectFailed? <==>
        ValidateInput(usernameText, password).Some? && !CanSend(old(clientSocket)) && !connects
      ensures !outcome.InvalidInput? && !outcome.ConnectFailed? && sendSucceeds ==>
        sent == old(sent) + [LoginPayload(Trim(usernameText), password)]
      ensures outcome.ConnectFailed? || !sendSucceeds ==> sent == old(sent)
      ensures outcome.NoAnswer? <==>
        ValidateInput(usernameText, password).Some? && (CanSend(old(clientSocket)) || connects)
        && (!sendSucceeds || !reply.Data?)
      ensures outcome.Answered? ==> sendSucceeds && reply.Data? && outcome.reply == ClassifyResponse(reply.payload)
      ensures outcome == Answered(Success) ==>
        && !loginEnabled && clientSocket == Open(true)
        && chatWindow != null && fresh(chatWindow)
        && chatWindow.username == Trim(usernameText) && chatWindow.clientSocket == clientSocket
      ensures outcome != Answered(Success) ==> chatWindow == old(chatWindow)
      ensures outcome == Answered(Required) ==> loginEnabled && clientSocket == Open(true)
      ensures !outcome.InvalidInput? && !KeepsSocket(outcome) ==> loginEnabled && clientSocket == NoSocket
    {
      var input := ValidateInput(usernameText, password);
      if input.None? {
        return InvalidInput;
      }
      var username := input.value.0;
      loginEnabled := false;
      var connected := Connect(connects);
      if !connected {
        return ConnectFailed;
      }
      var loginData := LoginPayload(username, password);
      outcome := SendLogin(loginData, sendSucceeds, reply, username);
    }

    /** Reuses a connected socket, or opens a new one; on a failed connect the
        socket is dropped and the login button re-enabled. */
    method Connect(connects: bool) returns (connected: bool)
      modifies this`clientSocket, this`loginEnabled
      ensures connected <==> CanSend(old(clientSocket)) || connects
      ensures connected ==> clientSocket == Open(true) && loginEnabled == old(loginEnabled)
      ensures !connected ==> clientSocket == NoSocket && loginEnabled
    {
      connected := true;
      if !CanSend(clientSocket) {
        if !connects {
          clientSocket := NoSocket;
          loginEnabled := true;
          return false;
        }
        clientSocket := Open(true);
      }
    }

    /** Sends the LOGIN payload on the connected socket and reads the one reply; a
        send that throws, a zero-byte read or an error closes the socket and
        re-enables the button, and a send that throws writes nothing. */
    method SendLogin(loginData: string, sendSucceeds: bool, reply: ReadResult, username: string) returns (outcome: LoginOutcome)
      requires clientSocket == Open(true)
      modifies this`sent, this`clientSocket, this`loginEnabled, this`chatWindow
      ensures sent == old(sent) + (if sendSucceeds then [loginData] else [])
      ensures outcome.NoAnswer? || outcome.Answered?
      ensures outcome.NoAnswer? <==> !sendSucceeds || !reply.Data?
      ensures outcome.Answered? ==> reply.Data? && outcome.reply == ClassifyResponse(reply.payload)
      ensures outcome == Answered(Success) ==>
        && loginEnabled == old(loginEnabled) && clientSocket == Open(true)
        && chatWindow != null && fresh(chatWindow)
        && chatWindow.username == username && chatWindow.clientSocket == clientSocket
      ensures outcome != Answered(Success) ==> chatWindow == old(chatWindow)
      ensures outcome == Answered(Required) ==> loginEnabled && clientSocket == Open(true)
      ensures !KeepsSocket(outcome) ==> loginEnabled && clientSocket == NoSocket
    {
      if !sendSucceeds {
        clientSocket := NoSocket;
        loginEnabled := true;
        return NoAnswer;
      }
      sent := sent + [loginData];
      match reply {
        case Closed =>
          clientSocket := NoSocket;
          loginEnabled := true;
          outcome := NoAnswer;
        case Error =>
          clientSocket := NoSocket;
          loginEnabled := true;
          outcome := NoAnswer;
        case Data(response) =>
          var answer := AnswerReply(response, username);
          outcome := Answered(answer);
      }
    }

    /** The prefix chain on the reply to the LOGIN payload: success opens the chat
        window on this socket (the login button stays disabled), LOGIN_REQUIRED
        re-enables the button and keeps the socket, every other reply closes it. */
    method AnswerReply(response: string, username: string) returns (answer: LoginReply)
      requires clientSocket == Open(true)
      modifies this`clientSocket, this`loginEnabled, this`chatWindow
      ensures answer == ClassifyResponse(response)
      ensures answer == Success ==>
        && loginEnabled == old(loginEnabled) && clientSocket == Open(true)
        && chatWindow != null && fresh(chatWindow)
        && chatWindow.username == username && chatWindow.clientSocket == clientSocket
      ensures answer != Success ==> chatWindow == old(chatWindow)
      ensures answer == Required ==> loginEnabled && clientSocket == Open(true)
      ensures answer != Success && answer != Required ==> loginEnabled && clientSocket == NoSocket
    {
      if StartsWith(response, SuccessPrefix) {
        chatWindow := new ChatClient.ChatWindow(clientSocket, username);
        answer := Success;
      } else if StartsWith(response, FailedPrefix) {
        clientSocket := NoSocket;
        loginEnabled := true;
        answer := Failed;
      } else if StartsWith(response, AlreadyLoggedInPrefix) {
        clientSocket := NoSocket;
        loginEnabled := true;
        answer := AlreadyLoggedIn;
      } else if StartsWith(response, RequiredPrefix) {
        loginEnabled := true;
        answer := Required;
      } else if StartsWith(response, ErrorPrefix) {
        var errorMessage := Trim(response[|ErrorPrefix|..]);
        clientSocket := NoSocket;
        loginEnabled := true;
        answer := ServerError(errorMessage);
      } else {
        clientSocket := NoSocket;
        loginEnabled := true;
        answer := Unexpected(response);
      }
    }
  }
}
