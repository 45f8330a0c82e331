# A verified model of a WPF TCP chat relay

The system is a small chat relay in two WPF programs. The server keeps a
plaintext credential store loaded from `users.txt` and accepts TCP
connections. Every connection gets a `ClientHandler`. The handler first runs a
`LOGIN:user:password` handshake, then a receive loop. In that loop a payload
is one of three things:

- the `DISCONNECT` command, in any letter case;
- a private `@name text` message;
- a message that is broadcast verbatim to every logged-in user, the sender
  included.

The server window keeps the list of connected handlers. It pushes the roster
`ACTIVE_USERS: a,b,...` after every login and every departure of a logged-in
user, and it announces each departure. The client has a login window and a
chat window:

- The login window sends the payload and classifies the reply by its prefix.
- The chat window rebuilds its list of other users from every roster message,
  logs everything else, and formats outgoing public and `@name` messages.

## Modules

- `wrappers.dfy`: `Option`.
- `text.dfy`: the .NET string operations the code relies on:
  - `Trim`, with the white-space set of `Char.IsWhiteSpace`;
  - `Split(char)` and `Split(char, count)`;
  - `String.Join`, `StartsWith`, `ToUpper`, case-insensitive equality.
  - It also holds the split/join round trips the other modules use.
- `transport.dfy`: what is kept of a socket. That is whether one is held and
  whether it reports `Connected`. One receive call gives `Data(s)`, `Closed`
  (a zero-byte read) or `Error` (an exception).
- `credentials.dfy`: `AuthenticationManager`. `LoadUsersFromFile` is a loop
  over the file's lines into the `users` map. It is proved equal to the
  function `LoadLines`, and `LoadLines` is proved equal to a reference
  "first line naming the user" search.
- `server_protocol.dfy`: the server's pure decisions:
  - the LOGIN parse and the handshake decision tree;
  - the receive-loop dispatch;
  - the texts the server window sends.
- `server.dfy`: the classes `ClientHandler` and `ChatServer`.
  - They are mutable objects. Each handler records what was written to its
    socket, in order, in the field `outbox`.
  - The handler's session is a method over the sequence of completed
    receives.
  - `ChatServer.Valid()` is the registry invariant. It says no handler is
    listed twice, and no two logged-in handlers hold names equal up to case.
    Every operation preserves it.
- `login_client.dfy`: the login window as a class (socket, login button,
  sent payloads, the chat window it opens).
- `chat_client.dfy`: the chat window as a class (socket, roster, log, sent
  payloads, send button), with its receive loop and roster refill loop.
- `round_trips.dfy`: what the two sides agree on:
  - the LOGIN payload parses back;
  - every handshake reply is classified as the server meant it;
  - the roster string parses back to the listed names without one's own;
  - outgoing formats are routed as meant;
  - closing the chat window ends the server session.

Behaviours of the code the model keeps:

- The roster message carries a space after the colon (`"ACTIVE_USERS: "`).
  The client keeps that space with the first entry and trims it away.
- A private message is wrapped twice with `[sender] (privát): `. It is wrapped
  once by the handler and once more by the server window.
- Handlers join the list on accept, before they log in. The duplicate-login
  check is a scan over the other logged-in handlers.
- The `@` recipient ends at the first space (`' '`). A roster name with an
  inner space is therefore cut at that space (`RoundTrips.SpacedRecipientSplit`).
- A user's chat line that starts with `ACTIVE_USERS:` is broadcast like any
  other, and every client takes it for a roster (`RoundTrips.RosterTagBroadcast`).
- An unreadable users file leaves the store as it was. The file is read whole
  before anything is stored, so a partially filled store cannot arise.

## Model

| member | source | states |
|---|---|---|
| Credentials.ParseLine | WpfServer/AuthenticationManager.cs:50-60 | a line whose count of ':' is not exactly one is skipped; a kept username and password are non-empty, trimmed and contain no ':' |
| Credentials.ParseLineSingleColon | WpfServer/AuthenticationManager.cs:50-60 | for `a:b` with no other ':', the line is kept as (Trim(a), Trim(b)) exactly when neither side is blank |
| Credentials.AddLine | WpfServer/AuthenticationManager.cs:63-73 | one loading step keeps every stored entry, adds a username only from a line that parses to it, and adds at most one |
| Credentials.LoadLines | WpfServer/AuthenticationManager.cs:45-85 | loading keeps every stored username and adds at most one per line |
| Credentials.LoadKeepsStored | WpfServer/AuthenticationManager.cs:63-73 | first occurrence wins: a stored username keeps its password whatever lines follow |
| Credentials.LoadWellFormed | WpfServer/AuthenticationManager.cs:50-66 | loading only ever stores non-empty, trimmed, colon-free usernames and passwords |
| Credentials.LoadIsFirstEntry | WpfServer/AuthenticationManager.cs:45-85 | after loading from an empty store, each username maps to the password of the first valid line naming it, and is absent when there is none |
| Credentials.AcceptsFirstPair | WpfServer/AuthenticationManager.cs:110-112 | the loaded store accepts (u, p) iff p is the password on the first valid line for u |
| Credentials.ColonNameRejected | WpfServer/AuthenticationManager.cs:50-52 | a username containing ':' is never accepted |
| Credentials.AuthenticationManager.constructor | WpfServer/AuthenticationManager.cs:19-23 | the store is what loading the file into an empty dictionary gives; empty when the file is missing or unreadable |
| Credentials.AuthenticationManager.LoadUsersFromFile | WpfServer/AuthenticationManager.cs:26-99 | the loop adds the lines in order as LoadLines does; a missing or unreadable file changes nothing and raises nothing |
| Credentials.AuthenticationManager.AuthenticateUser | WpfServer/AuthenticationManager.cs:104-121 | true iff the username is a key (exact, case-sensitive) whose password equals the given one; reads the store only |
| ServerProtocol.ParseLogin | WpfServer/ClientHandler.cs:194-201 | not a LOGIN request iff the `LOGIN:` prefix is missing; malformed iff fewer than two ':'; otherwise the payload is `LOGIN:` + user + ':' + password with no ':' in user |
| ServerProtocol.ParseLoginInverse | WpfServer/ClientHandler.cs:197-201 | every `LOGIN:user:password` with no ':' in user parses back to exactly (user, password), whatever the password holds |
| ServerProtocol.Handshake | WpfServer/ClientHandler.cs:168-271 | no reply iff the first read is not data; LOGIN_REQUIRED iff no LOGIN prefix; LOGIN_ERROR iff the split is short; acceptance only for accepted credentials whose name no other handler holds |
| ServerProtocol.HandshakeOnLogin | WpfServer/ClientHandler.cs:206-235 | on a well-formed LOGIN payload: LOGIN_FAILED on bad credentials, else LOGIN_ALREADY_LOGGED_IN on a taken name, else acceptance |
| ServerProtocol.AcceptedNameWellFormed | WpfServer/ClientHandler.cs:200-230 | an accepted username is non-empty, trimmed and colon-free |
| ServerProtocol.Route | WpfServer/ClientHandler.cs:68-107 | disconnect iff the payload upper-cases to DISCONNECT; broadcast iff not that and no leading '@', carrying the payload verbatim |
| ServerProtocol.AtCommand | WpfServer/ClientHandler.cs:75-102 | an '@' payload is private (payload = '@' + recipient + ' ' + content, recipient space-free and non-blank) or gets exactly one format reply, the missing-space one iff the payload has no space |
| ServerProtocol.RouteInverse | WpfServer/ClientHandler.cs:75-90 | `@name text` with a non-blank, space-free name is routed as a private message for name carrying exactly text |
| ServerProtocol.PrivateTextShape | WpfServer/ClientHandler.cs:90 | the wrapper opens with the bracketed sender and ends with the content verbatim |
| ServerProtocol.NotFoundReplyShape | WpfServer/MainWindow.xaml.cs:193 | the reply opens with `Szerver: ` and names the recipient between quotes |
| ServerProtocol.DepartureNoticeShape | WpfServer/MainWindow.xaml.cs:239 | the notice opens with the bracketed name of the user who left |
| ServerProtocol.ActiveUsersMessageSplits | WpfServer/MainWindow.xaml.cs:208 | the roster opens with `ACTIVE_USERS: `; with no names it is that prefix alone; for comma-free names, splitting the rest at ',' gives the names back |
| Server.Authenticated | WpfServer/MainWindow.xaml.cs:160 | the snapshot holds exactly the listed handlers with a username, without repeats when the list has none |
| Server.UsernamesOf | WpfServer/MainWindow.xaml.cs:208 | the snapshot's usernames, position by position |
| Server.OtherNames | WpfServer/ClientHandler.cs:213 | exactly the names of the logged-in handlers other than this one |
| Server.NameTakenByOther | WpfServer/ClientHandler.cs:213 | the duplicate-login test holds iff some other handler's username equals the attempt ignoring case |
| Server.FindByName | WpfServer/MainWindow.xaml.cs:177 | a found handler is listed, logged in and matches ignoring case; none found means no listed handler matches |
| Server.FindIsOnlyMatch | WpfServer/MainWindow.xaml.cs:177 | under the unique-names invariant the lookup finds the one handler holding the name |
| Server.RemoveFirst | WpfServer/MainWindow.xaml.cs:228 | removing an absent handler changes nothing; removing a present one shortens the list by one |
| Server.RemoveFirstMembers | WpfServer/MainWindow.xaml.cs:228 | removal keeps every other handler and adds none; on a list without repeats the removed handler is gone |
| Server.RemoveFirstAt | WpfServer/MainWindow.xaml.cs:228 | removing the first occurrence is cutting out the index where the search found it |
| Server.UniqueNamesSubset | WpfServer/MainWindow.xaml.cs:228 | dropping handlers keeps the unique-names invariant |
| Server.ClientHandler.constructor | WpfServer/ClientHandler.cs:22-29 | a new handler holds the socket, no username and has written nothing |
| Server.ClientHandler.SendMessage | WpfServer/ClientHandler.cs:341-369 | writes the message once when a connected socket is held, nothing otherwise |
| Server.ClientHandler.SendMessageAsync | WpfServer/ClientHandler.cs:314-339 | the handshake's send: the message is written on a connected socket; on any other the failing send writes nothing |
| Server.ClientHandler.SendActiveUsersList | WpfServer/ClientHandler.cs:372-375 | forwards the roster string to SendMessage |
| Server.ClientHandler.HandleClient | WpfServer/ClientHandler.cs:31-165 | the username is set exactly on an accepted handshake; every ended or refused session leaves the list (List.Remove) and drops its socket; the loop ran exactly until the first read that ends the session; every listed handler and this one get, in order, the handshake reply (this handler alone), the roster push, each consumed read's deliveries and the departure writes; a refused login gets only its reply and the departure writes; with no receives nothing is written |
| Server.ClientHandler.Connect | WpfServer/ClientHandler.cs:33-164 | after the first read: the handshake reply goes to this handler alone, the username is set iff the login is accepted, and the session's writes follow as Session states |
| Server.ClientHandler.Session | WpfServer/ClientHandler.cs:36-164 | a refused login skips the loop and writes only the departure writes; an accepted one writes the roster push, then each consumed read's deliveries, then the departure writes unless the receives ran out; every ending removes the handler and clears the socket; the username is untouched |
| Server.ClientHandler.Run | WpfServer/ClientHandler.cs:48-161 | an accepted session: roster push, then each consumed read's deliveries, then, unless the receives ran out, removal with the departure writes and a null socket |
| Server.ClientHandler.Finish | WpfServer/ClientHandler.cs:145-161 | the finally block: the handler leaves the list and its socket becomes null; when it was listed and logged in, every other logged-in connected handler gets the roster without it and then its departure notice; otherwise nothing is written; its own outbox is untouched |
| Server.RemovalWrites | WpfServer/MainWindow.xaml.cs:220-247 | what RemoveClient writes to each handler is the departure write: roster then notice to the other reached handlers when a listed logged-in handler leaves, nothing otherwise |
| Server.ClientHandler.Serve | WpfServer/ClientHandler.cs:48-137 | the roster push reaches exactly the logged-in connected handlers, then the loop consumes reads while connected, stops at the first zero-byte read, error or DISCONNECT, and appends each consumed read's deliveries in order |
| Server.ClientHandler.PushRoster | WpfServer/ClientHandler.cs:48 | the login's roster push reaches exactly the logged-in connected handlers, the new user included |
| Server.ClientHandler.ReceiveLoop | WpfServer/ClientHandler.cs:52-137 | reads are consumed while connected up to the first that ends the session; every outbox grows by the per-read deliveries of the consumed reads, in order |
| Server.ClientHandler.ReceiveOne | WpfServer/ClientHandler.cs:60-116 | one turn stops the loop iff the read is a zero-byte read, an error or DISCONNECT in any case; a zero-byte read or an error writes nothing, a payload writes what dispatching its command writes |
| Server.ClientHandler.AuthenticateClient | WpfServer/ClientHandler.cs:168-310 | ok iff the handshake accepts; acceptance sets the username and writes LOGIN_SUCCESS; a rejection writes its reply and nulls the socket; a failed first read nulls the socket with no reply |
| Server.ClientHandler.Login | WpfServer/ClientHandler.cs:194-271 | the decision tree on a received payload, with the same reply and state per outcome as the handshake function |
| Server.ClientHandler.Reject | WpfServer/ClientHandler.cs:239-249 | a refusal writes its reply on the socket held before, then the socket becomes null |
| Server.ClientHandler.Admit | WpfServer/ClientHandler.cs:228-235 | the username becomes the attempt, LOGIN_SUCCESS is written, and the unique-names invariant still holds |
| Server.ClientHandler.HandleReceived | WpfServer/ClientHandler.cs:62-108 | DISCONNECT writes nothing anywhere; a broadcast reaches exactly the logged-in connected handlers; a format error reaches only the sender; a private message reaches only the first matching handler, or the sender gets the not-found reply; each outbox grows by the delivery of the routed command |
| Server.ClientHandler.HandleAt | WpfServer/ClientHandler.cs:75-103 | an '@' payload delivers to exactly one handler: the doubly wrapped text to the recipient, or the matching error reply to the sender |
| Server.BroadcastDelivery | WpfServer/MainWindow.xaml.cs:151-168 | the per-read delivery of a broadcast reaches exactly the listed, logged-in, connected handlers |
| Server.PrivateDelivery | WpfServer/MainWindow.xaml.cs:172-196 | the per-read delivery of a private message reaches only the handler the case-insensitive lookup finds, or else only the sender with the not-found reply |
| Server.ChatServer.constructor | WpfServer/MainWindow.xaml.cs:23-28 | starts with no handlers and a store loaded from the file |
| Server.ChatServer.AcceptClient | WpfServer/MainWindow.xaml.cs:81-90 | the new handler, not logged in, is appended at the end; the other entries are unchanged |
| Server.ChatServer.BroadcastMessage | WpfServer/MainWindow.xaml.cs:151-168 | the message, verbatim, reaches exactly the logged-in handlers with a connected socket, the sender included; no other handler gets anything |
| Server.ChatServer.SendPrivateMessage | WpfServer/MainWindow.xaml.cs:172-196 | only the first handler matching ignoring case gets `[sender] (privát): message`; with no match only the sender gets the not-found reply |
| Server.ChatServer.BroadcastActiveUsers | WpfServer/MainWindow.xaml.cs:199-217 | `ACTIVE_USERS: ` + the logged-in names comma-joined in list order reaches exactly the logged-in handlers |
| Server.ChatServer.AnnounceDeparture | WpfServer/MainWindow.xaml.cs:235-240 | each remaining logged-in handler gets the roster and then the departure notice, in that order |
| Server.ChatServer.RemoveClient | WpfServer/MainWindow.xaml.cs:220-247 | the handler is removed (List.Remove) and is no longer listed; for a listed logged-in handler the rest get roster then departure notice; otherwise nothing is sent, so a second call changes nothing |
| Server.ChatServer.Remove | WpfServer/MainWindow.xaml.cs:226-229 | true iff the handler was listed; the list loses exactly that entry, at the index found |
| LoginClient.ClassifyResponse | WpfClient/LoginWindow.xaml.cs:101-148 | the first matching prefix wins; success iff LOGIN_SUCCESS; the LOGIN_ERROR: detail is the rest trimmed; unexpected iff no prefix matches, carrying the reply |
| LoginClient.ValidateInput | WpfClient/LoginWindow.xaml.cs:41-48 | nothing is sent iff the trimmed username or the password is empty; otherwise the trimmed username and the password as typed |
| LoginClient.LoginPayloadShape | WpfClient/LoginWindow.xaml.cs:82 | `LOGIN:`, then the username, ':' and the password as typed, at fixed positions |
| LoginClient.LoginWindow.constructor | WpfClient/LoginWindow.xaml.cs:20-24 | no socket, the button enabled, nothing sent |
| LoginClient.LoginWindow.LoginButtonClick | WpfClient/LoginWindow.xaml.cs:32-167 | invalid input changes nothing; otherwise exactly `LOGIN:user:password` is recorded as sent on a connection whose send completes, and nothing when the connect or the send fails; only success opens the chat window on the socket; only LOGIN_REQUIRED keeps the socket; every non-success outcome re-enables the button |
| LoginClient.LoginWindow.Connect | WpfClient/LoginWindow.xaml.cs:55-79 | a connected socket is reused, else a new connection is tried; a failure nulls the socket and re-enables the button |
| LoginClient.LoginWindow.SendLogin | WpfClient/LoginWindow.xaml.cs:81-160 | the payload is recorded iff its send completes; a failed send, a zero-byte read or an error read gives no answer, nulls the socket and re-enables the button |
| LoginClient.LoginWindow.AnswerReply | WpfClient/LoginWindow.xaml.cs:101-148 | the branch taken is the classification of the reply; success hands the socket to a new chat window; LOGIN_REQUIRED keeps it; all other replies close it |
| ChatClient.KeepEntriesAppend | WpfClient/MainWindow.xaml.cs:116-123 | the refill keeps entries in message order (it distributes over concatenation) |
| ChatClient.KeepEntryCases | WpfClient/MainWindow.xaml.cs:118-122 | at most one entry: the trimmed name, non-empty and not one's own; dropped only when blank or one's own |
| ChatClient.RosterUsersJoin | WpfClient/MainWindow.xaml.cs:108 | no parts iff the list text is empty; otherwise comma-free parts that join back to the text |
| ChatClient.RosterEntriesWellFormed | WpfClient/MainWindow.xaml.cs:106-122 | every entry is non-empty, trimmed and not one's own; an empty list text gives none |
| ChatClient.LogLinesCases | WpfClient/MainWindow.xaml.cs:104-150 | at most one line per read: none iff an error read or a roster message; any other payload verbatim |
| ChatClient.FormatOutgoingShape | WpfClient/MainWindow.xaml.cs:253-264 | the typed text goes out verbatim at the end; the payload starts with '@' iff a recipient is chosen or the text itself starts with '@' |
| ChatClient.EchoLineShape | WpfClient/MainWindow.xaml.cs:253-264 | the echo ends with the text verbatim and reads `-> Privát [` iff a recipient is chosen |
| ChatClient.KeepEntriesWellFormed | WpfClient/MainWindow.xaml.cs:116-122 | every roster entry is non-empty, trimmed and not the user's own name |
| ChatClient.KeepEntryWellFormed | WpfClient/MainWindow.xaml.cs:118-122 | a well-formed name is kept iff it is not one's own |
| ChatClient.KeepWellFormed | WpfClient/MainWindow.xaml.cs:116-122 | on well-formed names the refill is exactly the names minus one's own, in order |
| ChatClient.Others | WpfClient/MainWindow.xaml.cs:120 | reference filter: exactly the listed names other than one's own |
| ChatClient.LatestRosterWins | WpfClient/MainWindow.xaml.cs:115-123 | the roster depends only on the latest ACTIVE_USERS: message, whatever came before or after it |
| ChatClient.ChatWindow.constructor | WpfClient/MainWindow.xaml.cs:26-53 | holds the socket and name, empty roster, sending enabled, the two greeting lines logged |
| ChatClient.ChatWindow.RefreshRoster | WpfClient/MainWindow.xaml.cs:106-123 | the roster is cleared and refilled with the kept entries; an empty list text gives an empty roster |
| ChatClient.ChatWindow.AddEntry | WpfClient/MainWindow.xaml.cs:118-123 | one refill step appends the trimmed entry unless it is blank or one's own name |
| ChatClient.ChatWindow.OnMessage | WpfClient/MainWindow.xaml.cs:101-146 | a roster message replaces the roster and logs nothing; any other payload is logged verbatim and leaves the roster unchanged |
| ChatClient.ChatWindow.Receive | WpfClient/MainWindow.xaml.cs:96-152 | one receive advances roster and log by one step and stops the loop iff the read is not data |
| ChatClient.ChatWindow.ReadLoop | WpfClient/MainWindow.xaml.cs:91-177 | while connected, reads are consumed up to and including the first non-data read; roster and log are the folds over what was consumed |
| ChatClient.ChatWindow.ReceiveMessages | WpfClient/MainWindow.xaml.cs:85-190 | the loop, then once it ends the socket is dropped and sending disabled |
| ChatClient.ChatWindow.SendMessageButtonClick | WpfClient/MainWindow.xaml.cs:214-285 | blank text does nothing; on a connected socket `@recipient text` or the text is sent and echoed; otherwise the no-connection line is logged and sending disabled |
| ChatClient.ChatWindow.SendTrimmed | WpfClient/MainWindow.xaml.cs:228-284 | the send with a non-empty trimmed text: sent and echoed when connected, else refused and the button disabled |
| ChatClient.ChatWindow.Closing | WpfClient/MainWindow.xaml.cs:56-82 | with a connected socket DISCONNECT is recorded iff its send completes and the socket is dropped either way; otherwise nothing changes |
| RoundTrips.LoginRoundTrip | WpfClient/LoginWindow.xaml.cs:82 | the server parses the client's LOGIN payload back into exactly the username and password when the name has no ':' |
| RoundTrips.StoredUserLogsIn | WpfServer/ClientHandler.cs:194-235 | a user typing a stored name (padded or not) and its password, with the name free, passes validation and is accepted under the trimmed name |
| RoundTrips.WrongPasswordFails | WpfServer/ClientHandler.cs:239-249 | a wrong password or unknown name gets LOGIN_FAILED, which the client reads as a failed login |
| RoundTrips.ClassifiedByPrefix | WpfClient/LoginWindow.xaml.cs:101-141 | a reply starting with one of the five prefixes is classified under that prefix |
| RoundTrips.CredentialRepliesClassified | WpfClient/LoginWindow.xaml.cs:101-128 | LOGIN_SUCCESS, LOGIN_FAILED and LOGIN_ALREADY_LOGGED_IN are read as such |
| RoundTrips.RequiredReplyClassified | WpfClient/LoginWindow.xaml.cs:129-133 | the server's LOGIN_REQUIRED reply is read as a request to log in |
| RoundTrips.FormatErrorReplyClassified | WpfClient/LoginWindow.xaml.cs:134-141 | the server's format-error reply shows exactly its detail text |
| RoundTrips.ErrorDetailRead | WpfClient/LoginWindow.xaml.cs:136 | `LOGIN_ERROR: detail` shows exactly detail for a trimmed non-empty detail |
| RoundTrips.ClientReadsHandshake | WpfClient/LoginWindow.xaml.cs:101-148 | every handshake reply is classified as meant: success iff accepted, LOGIN_REQUIRED iff that reply, and never as unexpected |
| RoundTrips.RosterMessageShape | WpfServer/MainWindow.xaml.cs:208 | the server's roster string starts with the client's tag, followed by a space and the joined names |
| RoundTrips.RosterRoundTrip | WpfClient/MainWindow.xaml.cs:104-123 | parsing the server's roster string gives the listed names minus one's own, in order, for trimmed non-empty comma-free names |
| RoundTrips.ServerTextsLogged | WpfClient/MainWindow.xaml.cs:141-146 | the private wrapper, the not-found reply and the departure notice never carry the roster tag, so the client logs each verbatim |
| RoundTrips.RosterTagBroadcast | WpfClient/MainWindow.xaml.cs:104-106 | a chat line starting with `ACTIVE_USERS:` is broadcast verbatim and every client takes it for a roster, logging nothing |
| RoundTrips.OutgoingRoute | WpfClient/MainWindow.xaml.cs:253-264 | a recipient taken from the roster whose name has no space gets the text as a private message; with no recipient the server broadcasts it unless it starts with '@' or is DISCONNECT |
| RoundTrips.SpacedRecipientSplit | WpfServer/ClientHandler.cs:75-90 | the text for recipient `john doe` is routed to `john` with content `doe hi`: a name with a space is cut at it |
| RoundTrips.ClosingEndsSession | WpfClient/MainWindow.xaml.cs:65-67 | the DISCONNECT the closing window sends ends the server session |

## Left out

- Socket I/O is modelled as follows:
  - Receives are an input sequence of completed reads.
  - Sends are appends to an `outbox`/`sent` field.
  - Connecting is a boolean input.
  - Bind, Listen, Accept, Shutdown and Close are left out. The accept loop is
    modelled one turn at a time (`AcceptClient`).
- The listener's start and stop are left out. This covers
  `StartServerButton_Click`, `OnWindowClosing` and the expected-abort
  classification of socket errors.
- Concurrency is left out:
  - tasks per connection and async/await;
  - the two different lock objects;
  - the interleaving of one handler's check of the other names with its
    assignment of `Username`.
  - Each handshake and each dispatch runs atomically, one after another.
- UTF-8 encoding, the 4096- and 1024-byte buffers and the absence of message
  framing are left out. A read gives one whole non-empty string.
- Text.StartsWith: compares ordinally, character by character. The code calls
  the culture-sensitive `String.StartsWith(string)`, which also matches past
  leading characters the culture ignores.
- RoundTrips.OutgoingRoute: holds only for recipient names without a space.
  Stored names may hold inner spaces, and the server cuts such a name at the
  first space (`RoundTrips.SpacedRecipientSplit`).
- Text.ToUpper: folds only ASCII letters. The culture-dependent `ToUpper()`
  and `OrdinalIgnoreCase` also fold other letters, so the model's
  DISCONNECT test and name matching are exact only for ASCII.
- Server.ClientHandler.AuthenticateClient: an `Error` first read stands for
  the socket and disposed-object exceptions, which null the socket without a
  reply. The generic-exception branch, which first tries to send
  `LOGIN_ERROR: Váratlan hiba a szerveren.`, is not modelled.
- Server.ClientHandler.HandleClient: when the receives run out while the loop
  still waits, the session is reported as pending and not cleaned up. The
  source would keep waiting.
- ChatClient.LogLines: an error read adds no log line. The source logs a line
  containing the exception's message, which the model does not have.
- ChatClient.ChatWindow.SendTrimmed: the send is assumed to succeed. The
  exception branches of the send are not modelled. Those branches log a line,
  and a disposed socket also disables the button.
- Diagnostics are left out: all logging (`Log`, `Console.WriteLine`,
  `Debug.WriteLine`), the sender identifiers and client identifiers built
  only for log lines, and `MessageBox`.
- BroadcastMessage's `sender` parameter is used only in the log line, so the
  model drops it.
- The WPF user interface is left out:
  - the dispatcher, text boxes and clearing the message box;
  - the window title and dragging the login window;
  - `FindVisualChild` and the radio buttons. The selected recipient is an
    input of the send.
- The users file path built from the application directory, and
  `File.Exists` and `File.ReadAllLines`, are left out. The file is an input:
  missing, unreadable, or its lines.
- The login window's check for uninitialised controls is left out. It is a
  UI guard with no protocol effect.
